/**
 * Unsigned little-endian integers: the '<L' format of Python's struct module
 * (decoded by the host) and of MicroPython's ustruct module (encoded by the
 * device). The four-byte length header of the serial protocol is the case
 * k = 4; the general k-byte form carries the inductive proofs.
 */
module LittleEndian {
  import opened Wrappers
  import opened Bytes

  /** Number of bytes in a '<L' value. */
  const HEADER_SIZE: nat := 4

  /** 2^32: every '<L' value lies below it. */
  const WORD: nat := 0x1_0000_0000

  /** 256^k: one more than the largest value that k bytes can hold. */
  function Pow256(k: nat): (r: nat)
    ensures r >= 1
  {
    if k == 0 then 1 else 256 * Pow256(k - 1)
  }

  /** The k-byte little-endian encoding of n, least significant byte first. */
  function EncodeLE(n: nat, k: nat): (r: seq<Byte>)
    ensures |r| == k
  {
    if k == 0 then [] else [n % 256] + EncodeLE(n / 256, k - 1)
  }

  /** The value of a little-endian byte string of any length. */
  function DecodeLE(b: seq<Byte>): (n: nat)
    ensures n < Pow256(|b|)
  {
    if b == [] then 0 else b[0] + 256 * DecodeLE(b[1..])
  }

  /** Dropping the low byte of a k-byte value leaves a (k-1)-byte value. */
  lemma HighPartFits(n: nat, k: nat)
    requires k > 0 && n < Pow256(k)
    ensures n / 256 < Pow256(k - 1)
  {
  }

  /** A low byte and a high part are recovered by division by 256. */
  lemma Split(lo: nat, hi: nat)
    requires lo < 256
    ensures (lo + 256 * hi) % 256 == lo && (lo + 256 * hi) / 256 == hi
  {
  }

  /** Decoding undoes encoding for every value that fits in k bytes. */
  lemma {:induction false} DecodeEncodeLE(n: nat, k: nat)
    requires n < Pow256(k)
    ensures DecodeLE(EncodeLE(n, k)) == n
  {
    if k > 0 {
      var e := EncodeLE(n, k);
      HighPartFits(n, k);
      DecodeEncodeLE(n / 256, k - 1);
      assert e[1..] == EncodeLE(n / 256, k - 1);
      assert DecodeLE(e) == e[0] + 256 * DecodeLE(e[1..]);
    }
  }

  /** Encoding undoes decoding: every byte string is the encoding of its value. */
  lemma {:induction false} EncodeDecodeLE(b: seq<Byte>)
    ensures EncodeLE(DecodeLE(b), |b|) == b
  {
    if b != [] {
      var n := DecodeLE(b);
      var rest := DecodeLE(b[1..]);
      assert n == b[0] + 256 * rest;
      Split(b[0], rest);
      EncodeDecodeLE(b[1..]);
      assert EncodeLE(n, |b|) == [b[0]] + EncodeLE(rest, |b| - 1);
    }
  }

  /**
   * struct.unpack('<L', b)[0]: defined exactly when b holds four bytes
   * (any other length makes unpack raise), least significant byte first.
   */
  function DecodeLE32(b: seq<Byte>): (r: Option<nat>)
    ensures r.Some? <==> |b| == HEADER_SIZE
    ensures r.Some? ==> r.value < WORD
    ensures r.Some? ==> r.value == b[0] as int + 256 * b[1] as int
                                   + 65536 * b[2] as int + 16777216 * b[3] as int
  {
    if |b| == HEADER_SIZE then
      assert Pow256(4) == WORD;
      assert DecodeLE(b[3..]) == b[3] + 256 * DecodeLE(b[4..]);
      assert DecodeLE(b[2..]) == b[2] + 256 * DecodeLE(b[3..]);
      assert DecodeLE(b[1..]) == b[1] + 256 * DecodeLE(b[2..]);
      Some(DecodeLE(b))
    else
      None
  }

  /** ustruct.pack('<L', n): the four little-endian bytes of n. */
  function EncodeLE32(n: nat): (r: seq<Byte>)
    requires n < WORD
    ensures |r| == HEADER_SIZE
    ensures DecodeLE32(r) == Some(n)
  {
    assert Pow256(4) == WORD;
    DecodeEncodeLE(n, 4);
    EncodeLE(n, 4)
  }

  /** Every four-byte header is the encoding of the value it decodes to. */
  lemma HeaderRoundTrip(b: seq<Byte>)
    requires |b| == HEADER_SIZE
    ensures DecodeLE32(b).Some? && EncodeLE32(DecodeLE32(b).value) == b
  {
    EncodeDecodeLE(b);
  }

  /** A payload whose length a '<L' header can carry. */
  type Payload = s: seq<Byte> | |s| < WORD

  /** The length-prefixed framing of the serial protocol: the '<L' length, then the bytes. */
  function Framed(payload: Payload): (r: seq<Byte>)
    ensures |r| == HEADER_SIZE + |payload|
    ensures DecodeLE32(r[..HEADER_SIZE]) == Some(|payload|)
    ensures r[HEADER_SIZE..] == payload
  {
    EncodeLE32(|payload|) + payload
  }

  /** Several framed payloads back to back, as the device sends them over a session. */
  function FramedAll(payloads: seq<Payload>): seq<Byte>
  {
    if payloads == [] then [] else Framed(payloads[0]) + FramedAll(payloads[1..])
  }
}
