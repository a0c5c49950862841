/**
 * The camera firmware's main loop (openmv/main.py): receive as many bytes as
 * the keyword has, and when they are exactly the keyword answer with the
 * '<L' size of a fresh snapshot followed by its bytes.
 */
module Firmware {
  import opened Bytes
  import opened Wrappers
  import opened LittleEndian

  /** The trigger keyword 'snap', as the bytes keyword.encode() yields. */
  const KEYWORD: seq<Byte> := Ascii("snap")

  /** The keyword is the four bytes 73 6E 61 70, so each receive asks for four bytes. */
  lemma KeywordIsSnap()
    ensures KEYWORD == [0x73, 0x6E, 0x61, 0x70] && |KEYWORD| == 4
  {
  }

  /** What one loop iteration sends back for the command bytes it received. */
  function Response(cmd: seq<Byte>, img: Payload): (r: seq<Byte>)
    ensures cmd == KEYWORD ==> |r| == HEADER_SIZE + |img|
    ensures cmd == KEYWORD ==> DecodeLE32(r[..HEADER_SIZE]) == Some(|img|) && r[HEADER_SIZE..] == img
    ensures cmd != KEYWORD ==> r == []
  {
    if cmd == KEYWORD then Framed(img) else []
  }

  /** The USB virtual serial port: bytes from the host not yet received, and bytes sent so far. */
  class Usb {
    var rx: seq<Byte>
    var tx: seq<Byte>

    constructor (input: seq<Byte>)
      ensures rx == input && tx == []
    {
      rx, tx := input, [];
    }

    /** usb.recv(n, timeout): the next min(n, |rx|) bytes, fewer when the timeout expires first. */
    method Recv(n: nat) returns (data: seq<Byte>)
      modifies this
      ensures data == old(rx)[..Min(n, |old(rx)|)]
      ensures rx == old(rx)[|data|..] && tx == old(tx)
    {
      data := rx[..Min(n, |rx|)];
      rx := rx[|data|..];
    }

    /** usb.send(data): the bytes go out after everything sent before. */
    method Send(data: seq<Byte>)
      modifies this
      ensures tx == old(tx) + data && rx == old(rx)
    {
      tx := tx + data;
    }
  }

  /** The command one iteration receives from pending input rx. */
  function Command(rx: seq<Byte>): (cmd: seq<Byte>)
    ensures |cmd| == Min(|KEYWORD|, |rx|) && rx == cmd + rx[|cmd|..]
  {
    rx[..Min(|KEYWORD|, |rx|)]
  }

  /**
   * One iteration of the loop (openmv/main.py:13-17); snapshot stands for the
   * compressed image the camera would deliver if asked.
   */
  method Serve(usb: Usb, snapshot: Payload)
    modifies usb
    ensures usb.rx == old(usb.rx)[|Command(old(usb.rx))|..]
    ensures usb.tx == old(usb.tx) + Response(Command(old(usb.rx)), snapshot)
  {
    var cmd := usb.Recv(|KEYWORD|);
    if cmd == KEYWORD {
      var img := snapshot;
      usb.Send(EncodeLE32(|img|));
      usb.Send(img);
    }
  }

  /**
   * Everything the loop sends while it works through input rx, where the
   * camera delivers image camera(i) for the i-th snapshot and shot snapshots
   * were taken already.
   */
  function Output(rx: seq<Byte>, camera: nat -> Payload, shot: nat): (o: seq<Byte>)
    ensures |rx| < |KEYWORD| ==> o == []
    decreases |rx|
  {
    if rx == [] then []
    else
      var cmd := Command(rx);
      if cmd == KEYWORD then Response(cmd, camera(shot)) + Output(rx[|cmd|..], camera, shot + 1)
      else Output(rx[|cmd|..], camera, shot)
  }

  /** Output after one iteration: the response to the first command, then the rest. */
  lemma OutputStep(rx: seq<Byte>, camera: nat -> Payload, shot: nat)
    requires rx != []
    ensures var cmd := Command(rx);
      Output(rx, camera, shot) ==
        Response(cmd, camera(shot)) + Output(rx[|cmd|..], camera, if cmd == KEYWORD then shot + 1 else shot)
  {
    var cmd := Command(rx);
    if cmd != KEYWORD {
      assert Response(cmd, camera(shot)) == [];
    }
  }

  /**
   * The loop (openmv/main.py:12-17) over the whole pending input. Once the
   * input is used up, recv returns no bytes, which never equal the keyword,
   * so the iterations that would follow change nothing.
   */
  method Run(usb: Usb, camera: nat -> Payload)
    modifies usb
    ensures usb.rx == []
    ensures usb.tx == old(usb.tx) + Output(old(usb.rx), camera, 0)
  {
    var shot := 0;
    while |usb.rx| > 0
      invariant old(usb.tx) + Output(old(usb.rx), camera, 0) == usb.tx + Output(usb.rx, camera, shot)
      decreases |usb.rx|
    {
      ghost var rx0, tx0, shot0 := usb.rx, usb.tx, shot;
      var cmd := Command(usb.rx);
      OutputStep(rx0, camera, shot0);
      Serve(usb, camera(shot));
      if cmd == KEYWORD {
        shot := shot + 1;
      }
      ConcatAssoc(tx0, Response(cmd, camera(shot0)), Output(usb.rx, camera, shot));
    }
  }

  /** The keyword sent k times, back to back. */
  function Repeat(keyword: seq<Byte>, k: nat): seq<Byte>
  {
    if k == 0 then [] else keyword + Repeat(keyword, k - 1)
  }

  /** The k images the camera delivers from snapshot number shot on. */
  function Shots(camera: nat -> Payload, shot: nat, k: nat): (imgs: seq<Payload>)
    ensures |imgs| == k
  {
    seq(k, i requires 0 <= i < k => camera(shot + i))
  }

  /** Answered k times, the loop sends the next k snapshots, each framed, in order. */
  lemma {:induction false} AnswersEachKeyword(camera: nat -> Payload, shot: nat, k: nat)
    ensures Output(Repeat(KEYWORD, k), camera, shot) == FramedAll(Shots(camera, shot, k))
    decreases k
  {
    if k > 0 {
      var rx := Repeat(KEYWORD, k);
      assert Command(rx) == KEYWORD;
      assert rx[|KEYWORD|..] == Repeat(KEYWORD, k - 1);
      AnswersEachKeyword(camera, shot + 1, k - 1);
      var shots := Shots(camera, shot, k);
      assert shots[0] == camera(shot);
      assert shots[1..] == Shots(camera, shot + 1, k - 1);
    }
  }
}
