/**
 * The multipart chunks of the MJPEG stream (send_frames): each chunk is the
 * boundary delimiter line "--frame", a Content-Type header, a blank line, the
 * current frame and CRLF. The boundary syntax is that of section 5.1.1 of
 * RFC 2046 ("--" followed by the boundary named in the response's mimetype).
 */
module StreamPublisher {
  import opened Bytes
  import opened Wrappers
  import opened FrameChannel

  /** The boundary parameter of the multipart/x-mixed-replace response. */
  const BOUNDARY: string := "frame"

  /** The 37 bytes that open every chunk: delimiter line, part header, blank line. */
  const PREFIX: seq<Byte> := Ascii("--" + BOUNDARY + "\r\nContent-Type: image/jpeg\r\n\r\n")

  /** The two bytes that close every chunk. */
  const CRLF: seq<Byte> := Ascii("\r\n")

  /** Bytes in a chunk besides the frame itself. */
  const OVERHEAD: nat := 39

  /** One chunk of the stream, carrying the given frame (app.py:26). */
  function Chunk(frame: seq<Byte>): (c: seq<Byte>)
    ensures |PREFIX| == 37 && |CRLF| == 2
    ensures |c| == |frame| + OVERHEAD
    ensures c[..37] == PREFIX && c[|c| - 2..] == CRLF
  {
    PREFIX + frame + CRLF
  }

  /** The frame a chunk carries: strip the 37-byte prefix and the final CRLF. */
  function Body(chunk: seq<Byte>): (r: Option<seq<Byte>>)
    ensures r.Some? <==> |chunk| >= OVERHEAD && chunk[..37] == PREFIX && chunk[|chunk| - 2..] == CRLF
    ensures r.Some? ==> |r.value| == |chunk| - OVERHEAD
  {
    if |chunk| >= OVERHEAD && chunk[..37] == PREFIX && chunk[|chunk| - 2..] == CRLF then
      Some(chunk[37..|chunk| - 2])
    else
      None
  }

  /** Stripping a chunk gives back exactly the frame it was built from. */
  lemma BodyOfChunk(frame: seq<Byte>)
    ensures Body(Chunk(frame)) == Some(frame)
  {
    var c := Chunk(frame);
    assert c[37..|c| - 2] == frame;
  }

  /** A well-formed chunk is rebuilt exactly from the frame it carries. */
  lemma ChunkOfBody(chunk: seq<Byte>)
    requires Body(chunk).Some?
    ensures Chunk(Body(chunk).value) == chunk
  {
    var n := |chunk|;
    assert chunk == chunk[..37] + chunk[37..n - 2] + chunk[n - 2..];
  }

  /** Every chunk opens with the RFC 2046 delimiter line "--frame" and CRLF. */
  lemma ChunkOpensWithDelimiter(frame: seq<Byte>)
    ensures Chunk(frame)[..9] == Ascii("--frame\r\n")
  {
    var text := "--" + BOUNDARY + "\r\nContent-Type: image/jpeg\r\n\r\n";
    var delimiter := "--frame\r\n";
    assert text[..9] == delimiter;
    assert Chunk(frame)[..9] == PREFIX[..9];
    forall i | 0 <= i < 9
      ensures PREFIX[i] == Ascii(delimiter)[i]
    {
      assert PREFIX[i] as int == text[i] as int;
    }
  }

  /**
   * send_frames (app.py:23-26), for the first count chunks a client takes:
   * every chunk is built from the slot as it is when the chunk is made, so
   * while the slot does not change the same frame is republished unchanged.
   */
  method SendFrames(data: FrameSlot, count: nat) returns (chunks: seq<seq<Byte>>)
    ensures |chunks| == count
    ensures forall i | 0 <= i < count :: chunks[i] == Chunk(data.frame)
    ensures forall i | 0 <= i < count :: Body(chunks[i]) == Some(data.frame)
  {
    chunks := [];
    while |chunks| < count
      invariant |chunks| <= count
      invariant forall i | 0 <= i < |chunks| :: chunks[i] == Chunk(data.frame)
    {
      chunks := chunks + [Chunk(data.frame)];
    }
    forall i | 0 <= i < count
      ensures Body(chunks[i]) == Some(data.frame)
    {
      BodyOfChunk(data.frame);
    }
  }

  /** A stream opened before any capture carries the empty frame: prefix, then CRLF (app.py:87). */
  method FirstChunkBeforeCapture() returns (c: seq<Byte>)
    ensures c == PREFIX + CRLF
  {
    var data := new FrameSlot();
    var chunks := SendFrames(data, 1);
    c := chunks[0];
  }
}
