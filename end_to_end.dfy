/**
 * The host and the device together: what the device sends in answer to the
 * keyword is what the host's poll loop stores, and what the stream then
 * publishes.
 */
module EndToEnd {
  import opened Bytes
  import opened Wrappers
  import opened LittleEndian
  import opened Serial
  import opened FrameChannel
  import opened DeviceLink
  import opened StreamPublisher
  import opened Firmware

  /**
   * Whatever image the device sends in answer to the keyword, a fault-free
   * poll recovers it exactly, consuming the whole response.
   */
  lemma HostRecoversImage(p: Port, img: Payload)
    requires p.rx == Response(KEYWORD, img) && ClearFor(p.faults, 3)
    ensures PollStep(p, KEYWORD).Captured?
    ensures PollStep(p, KEYWORD).frame == img && PollStep(p, KEYWORD).port.rx == []
  {
    assert p.rx == Framed(img) + [];
    ReceivesFramed(p, KEYWORD, img, []);
  }

  /**
   * A session of k > 0 requests: the device answers each with the next
   * snapshot, and the host, polling until its header read comes back empty,
   * ends holding the k-th snapshot with all input consumed.
   */
  lemma SessionKeepsLatest(p: Port, camera: nat -> Payload, k: nat, frame: seq<Byte>)
    requires k > 0 && p == Port(Output(Repeat(KEYWORD, k), camera, 0), [], [])
    ensures PollLoop(p, KEYWORD, frame).frame == camera(k - 1)
    ensures PollLoop(p, KEYWORD, frame).port.rx == []
  {
    var shots := Shots(camera, 0, k);
    AnswersEachKeyword(camera, 0, k);
    assert p.rx == FramedAll(shots);
    LastWriteWins(p, KEYWORD, frame, shots);
    assert shots[k - 1] == camera(k - 1);
  }

  /** In that session the host sends the keyword k + 1 times: once per answer and once more in vain. */
  lemma SessionTranscript(p: Port, camera: nat -> Payload, k: nat, frame: seq<Byte>)
    requires p == Port(Output(Repeat(KEYWORD, k), camera, 0), [], [])
    ensures PollLoop(p, KEYWORD, frame).port.log
      == Exchanges(KEYWORD, Shots(camera, 0, k)) + [Wrote(KEYWORD), Got([])]
  {
    AnswersEachKeyword(camera, 0, k);
    assert p.rx == FramedAll(Shots(camera, 0, k));
    RunTranscript(p, KEYWORD, frame, Shots(camera, 0, k));
  }

  /**
   * A host configured with another four-byte keyword gets no answer: the
   * device sends nothing, the host's header read comes back empty and the
   * slot keeps its frame.
   */
  lemma WrongKeywordGetsNothing(keyword: seq<Byte>, k: nat, camera: nat -> Payload, frame: seq<Byte>)
    requires |keyword| == |KEYWORD| && keyword != KEYWORD
    ensures Output(Repeat(keyword, k), camera, 0) == []
    ensures PollLoop(Port(Output(Repeat(keyword, k), camera, 0), [], []), keyword, frame).frame == frame
  {
    Unanswered(keyword, k, camera, 0);
  }

  lemma {:induction false} Unanswered(keyword: seq<Byte>, k: nat, camera: nat -> Payload, shot: nat)
    requires |keyword| == |KEYWORD| && keyword != KEYWORD
    ensures Output(Repeat(keyword, k), camera, shot) == []
    decreases k
  {
    if k > 0 {
      var rx := Repeat(keyword, k);
      assert Command(rx) == keyword;
      assert rx[|keyword|..] == Repeat(keyword, k - 1);
      Unanswered(keyword, k - 1, camera, shot);
    }
  }

  /** The device's answer to 'snap' for the five bytes of "HELLO" opens with 05 00 00 00. */
  lemma HelloHeader()
    ensures Response(KEYWORD, Ascii("HELLO"))[..HEADER_SIZE] == [5, 0, 0, 0]
  {
    var hello := Ascii("HELLO");
    assert Response(KEYWORD, hello)[..HEADER_SIZE] == EncodeLE32(5);
    assert EncodeLE(5, 4) == [5, 0, 0, 0];
  }

  /** Polled on that answer, the host loop ends holding "HELLO". */
  lemma HelloPolled(p: Port, frame: seq<Byte>)
    requires p == Port(Response(KEYWORD, Ascii("HELLO")), [], [])
    ensures PollLoop(p, KEYWORD, frame).frame == Ascii("HELLO")
  {
    var hello: Payload := Ascii("HELLO");
    HostRecoversImage(p, hello);
    var q := PollStep(p, KEYWORD).port;
    EmptyInputStops(q, KEYWORD, hello);
  }

  /**
   * The worked example: the host sends 'snap', the device answers with the
   * header 05 00 00 00 and the bytes of "HELLO"; after the poll loop the slot
   * holds "HELLO" and the next chunk a viewer receives carries exactly it.
   */
  method HelloScenario() returns (header: seq<Byte>, stored: seq<Byte>, chunk: seq<Byte>)
    ensures header == [5, 0, 0, 0]
    ensures stored == Ascii("HELLO")
    ensures chunk == PREFIX + Ascii("HELLO") + CRLF && Body(chunk) == Some(Ascii("HELLO"))
  {
    var response := Response(KEYWORD, Ascii("HELLO"));
    HelloHeader();
    header := response[..HEADER_SIZE];
    var dev := new SerialPort(response, []);
    var data := new FrameSlot();
    HelloPolled(dev.State(), data.frame);
    GetSnapshot(dev, KEYWORD, data);
    stored := data.frame;
    var chunks := SendFrames(data, 1);
    chunk := chunks[0];
  }
}
