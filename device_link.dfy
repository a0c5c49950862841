/**
 * The host's polling loop, get_snapshot: send the keyword, read the four-byte
 * '<L' length N, read up to N bytes, store them in the frame slot, and repeat
 * until any step raises.
 */
module DeviceLink {
  import opened Bytes
  import opened Wrappers
  import opened LittleEndian
  import opened Serial
  import opened FrameChannel

  /** The result of one loop iteration: the loop stops, or it stores a frame and goes on. */
  datatype Poll = Stopped(port: Port) | Captured(port: Port, frame: seq<Byte>)

  /** The result of a whole run of the loop: the final port and slot contents. */
  datatype Run = Run(port: Port, frame: seq<Byte>)

  /** The transfers of one iteration: the keyword write first, then only reads. */
  predicate WriteThenReads(events: seq<Event>, keyword: seq<Byte>)
  {
    events == [] || (events[0] == Wrote(keyword) && forall i | 1 <= i < |events| :: events[i].Got?)
  }

  /** q's pending input is what is left of p's after some bytes were consumed. */
  predicate Consumed(p: Port, q: Port)
  {
    |q.rx| <= |p.rx| && q.rx == p.rx[|p.rx| - |q.rx|..] && p.log <= q.log
  }

  /** One iteration of the loop body, from a port state. */
  function PollStep(p: Port, keyword: seq<Byte>): (r: Poll)
    ensures NeverFails(p.faults) ==> NeverFails(r.port.faults)
    ensures r.Captured? <==> ClearFor(p.faults, 3) && |p.rx| >= HEADER_SIZE
    ensures r.Captured? ==>
      var n := DecodeLE32(p.rx[..HEADER_SIZE]).value;
      |r.frame| == Min(n, |p.rx| - HEADER_SIZE) &&
      p.rx == p.rx[..HEADER_SIZE] + r.frame + r.port.rx &&
      r.port.log == p.log + [Wrote(keyword), Got(p.rx[..HEADER_SIZE]), Got(r.frame)]
  {
    var w := p.Write(keyword);
    if w.raised then Stopped(w.port)
    else
      var h := w.port.Read(HEADER_SIZE);
      if h.raised then Stopped(h.port)
      else match DecodeLE32(h.data)
        case None => Stopped(h.port)
        case Some(size) =>
          var b := h.port.Read(size);
          if b.raised then Stopped(b.port) else Captured(b.port, b.data)
  }

  /**
   * The whole loop, from a port state and the slot's contents. Every captured
   * iteration consumes at least the four header bytes, so a finite input ends it.
   */
  function PollLoop(p: Port, keyword: seq<Byte>, frame: seq<Byte>): (r: Run)
    decreases |p.rx|
    ensures PollStep(p, keyword).Stopped? ==> r == Run(PollStep(p, keyword).port, frame)
  {
    match PollStep(p, keyword)
    case Stopped(q) => Run(q, frame)
    case Captured(q, f) => PollLoop(q, keyword, f)
  }

  /**
   * Each iteration writes the keyword before it reads anything, and it only
   * consumes input from the front of the stream.
   */
  lemma KeywordBeforeReads(p: Port, keyword: seq<Byte>)
    ensures Consumed(p, PollStep(p, keyword).port)
    ensures WriteThenReads(PollStep(p, keyword).port.log[|p.log|..], keyword)
    ensures PollStep(p, keyword).port.rx != p.rx ==> PollStep(p, keyword).port.log[|p.log|] == Wrote(keyword)
  {
    var w := p.Write(keyword);
    if !w.raised {
      var h := w.port.Read(HEADER_SIZE);
      var events := PollStep(p, keyword).port.log[|p.log|..];
      if h.raised || DecodeLE32(h.data).None? {
        assert events == [Wrote(keyword)] || events == [Wrote(keyword), Got(h.data)];
      } else {
        var b := h.port.Read(DecodeLE32(h.data).value);
        assert events == [Wrote(keyword), Got(h.data)] || events == [Wrote(keyword), Got(h.data), Got(b.data)];
        assert p.rx == h.data + b.data + b.port.rx || b.port.rx == h.port.rx;
      }
    }
  }

  /** The whole loop only consumes its input from the front and only appends to the log. */
  lemma {:induction false} LoopConsumesInput(p: Port, keyword: seq<Byte>, frame: seq<Byte>)
    ensures Consumed(p, PollLoop(p, keyword, frame).port)
    decreases |p.rx|
  {
    KeywordBeforeReads(p, keyword);
    match PollStep(p, keyword)
    case Stopped(_) =>
    case Captured(q, f) =>
      LoopConsumesInput(q, keyword, f);
      var r := PollLoop(q, keyword, f);
      assert p.rx[|p.rx| - |q.rx|..][|q.rx| - |r.port.rx|..] == p.rx[|p.rx| - |r.port.rx|..];
  }

  /** get_snapshot (app.py:13-20): the poll loop on the device handle and the slot. */
  method GetSnapshot(dev: SerialPort, keyword: seq<Byte>, data: FrameSlot)
    modifies dev, data
    ensures Run(dev.State(), data.frame) == PollLoop(old(dev.State()), keyword, old(data.frame))
  {
    while true
      invariant PollLoop(dev.State(), keyword, data.frame) == PollLoop(old(dev.State()), keyword, old(data.frame))
      decreases |dev.rx|
    {
      ghost var before := dev.State();
      var raised := dev.Write(keyword);
      if raised {
        return;
      }
      var header;
      raised, header := dev.Read(HEADER_SIZE);
      if raised {
        return;
      }
      var size := DecodeLE32(header);
      if size.None? {
        return;
      }
      var payload;
      raised, payload := dev.Read(size.value);
      if raised {
        return;
      }
      data.frame := payload;
      assert PollStep(before, keyword) == Captured(dev.State(), payload);
    }
  }

  /** The transfers of one successful iteration that receives payload. */
  function Exchange(keyword: seq<Byte>, payload: Payload): seq<Event>
  {
    [Wrote(keyword), Got(EncodeLE32(|payload|)), Got(payload)]
  }

  /** The transfers of successive iterations receiving the given payloads. */
  function Exchanges(keyword: seq<Byte>, payloads: seq<Payload>): seq<Event>
  {
    if payloads == [] then [] else Exchange(keyword, payloads[0]) + Exchanges(keyword, payloads[1..])
  }

  /** A framed payload followed by anything is read back as exactly that payload. */
  lemma ReceivesFramed(p: Port, keyword: seq<Byte>, payload: Payload, rest: seq<Byte>)
    requires p.rx == Framed(payload) + rest
    requires ClearFor(p.faults, 3)
    ensures PollStep(p, keyword).Captured?
    ensures PollStep(p, keyword).frame == payload
    ensures PollStep(p, keyword).port.rx == rest
    ensures PollStep(p, keyword).port.log == p.log + Exchange(keyword, payload)
  {
    var r := PollStep(p, keyword);
    var f := Framed(payload);
    assert p.rx[..HEADER_SIZE] == f[..HEADER_SIZE];
    assert p.rx[HEADER_SIZE..] == payload + rest;
    assert |r.frame| == |payload|;
    assert p.rx == p.rx[..HEADER_SIZE] + payload + rest;
    assert r.frame == p.rx[HEADER_SIZE..][..|payload|];
  }

  /**
   * A header announcing n bytes followed by fewer than n: the payload read
   * returns the short tail and the loop stores it as the frame, truncated.
   */
  lemma StoresTruncatedPayload(p: Port, keyword: seq<Byte>, n: nat, partial: seq<Byte>)
    requires n < WORD && |partial| < n
    requires p.rx == EncodeLE32(n) + partial
    requires ClearFor(p.faults, 3)
    ensures PollStep(p, keyword).Captured?
    ensures PollStep(p, keyword).frame == partial && |PollStep(p, keyword).frame| < n
  {
    var r := PollStep(p, keyword);
    assert p.rx[..HEADER_SIZE] == EncodeLE32(n);
    assert |r.frame| == |partial|;
    assert p.rx == p.rx[..HEADER_SIZE] + partial + [];
    assert r.frame == p.rx[HEADER_SIZE..];
  }

  /** With no input left, a fault-free iteration writes the keyword, reads nothing and stops. */
  lemma EmptyInputStops(p: Port, keyword: seq<Byte>, frame: seq<Byte>)
    requires NeverFails(p.faults) && p.rx == []
    ensures PollLoop(p, keyword, frame) == Run(PollStep(p, keyword).port, frame)
    ensures PollStep(p, keyword).port.rx == []
    ensures PollStep(p, keyword).port.log == p.log + [Wrote(keyword), Got([])]
  {
    var w := p.Write(keyword);
    assert !w.raised;
    var h := w.port.Read(HEADER_SIZE);
    assert !h.raised && h.data == [];
  }

  /**
   * Over a fault-free run on a sequence of framed payloads, each iteration
   * overwrites the slot, so the loop ends holding the last payload (or the
   * original frame when there was none) with all input consumed: no history
   * is kept.
   */
  lemma {:induction false} LastWriteWins(p: Port, keyword: seq<Byte>, frame: seq<Byte>, payloads: seq<Payload>)
    requires NeverFails(p.faults) && p.rx == FramedAll(payloads)
    ensures PollLoop(p, keyword, frame).frame == if payloads == [] then frame else payloads[|payloads| - 1]
    ensures PollLoop(p, keyword, frame).port.rx == []
    decreases |payloads|
  {
    if payloads == [] {
      EmptyInputStops(p, keyword, frame);
    } else {
      var rest := payloads[1..];
      var q := FirstIteration(p, keyword, frame, payloads);
      LastWriteWins(q, keyword, payloads[0], rest);
      LastOfCons(PollLoop(p, keyword, frame).frame, payloads);
    }
  }

  lemma LastOfCons(x: seq<Byte>, payloads: seq<Payload>)
    requires payloads != []
    requires x == if payloads[1..] == [] then payloads[0] else payloads[1..][|payloads[1..]| - 1]
    ensures x == payloads[|payloads| - 1]
  {
  }

  /**
   * The transfers of that run: one keyword write, header read and payload
   * read per payload, then a last keyword write whose header read comes back
   * empty and ends the loop.
   */
  lemma {:induction false} RunTranscript(p: Port, keyword: seq<Byte>, frame: seq<Byte>, payloads: seq<Payload>)
    requires NeverFails(p.faults) && p.rx == FramedAll(payloads)
    ensures PollLoop(p, keyword, frame).port.log == p.log + Exchanges(keyword, payloads) + [Wrote(keyword), Got([])]
    decreases |payloads|
  {
    if payloads == [] {
      EmptyInputStops(p, keyword, frame);
      assert p.log + Exchanges(keyword, payloads) == p.log;
    } else {
      var rest := payloads[1..];
      var q := FirstIteration(p, keyword, frame, payloads);
      RunTranscript(q, keyword, payloads[0], rest);
      var first := Exchange(keyword, payloads[0]);
      assert Exchanges(keyword, payloads) == first + Exchanges(keyword, rest);
      ConcatAssoc(p.log, first, Exchanges(keyword, rest));
    }
  }

  /** The first iteration of a fault-free run on framed payloads, and the state it leaves. */
  lemma FirstIteration(p: Port, keyword: seq<Byte>, frame: seq<Byte>, payloads: seq<Payload>) returns (q: Port)
    requires NeverFails(p.faults) && p.rx == FramedAll(payloads) && payloads != []
    ensures PollLoop(p, keyword, frame) == PollLoop(q, keyword, payloads[0])
    ensures NeverFails(q.faults) && q.rx == FramedAll(payloads[1..])
    ensures q.log == p.log + Exchange(keyword, payloads[0])
  {
    assert ClearFor(p.faults, 3);
    ReceivesFramed(p, keyword, payloads[0], FramedAll(payloads[1..]));
    q := PollStep(p, keyword).port;
  }

  /**
   * An iteration whose write, header read or payload read raises, or whose
   * header read returns fewer than four bytes, ends the loop and leaves the
   * slot as it was.
   */
  lemma FailedIterationKeepsSlot(p: Port, keyword: seq<Byte>, frame: seq<Byte>)
    requires !ClearFor(p.faults, 3) || |p.rx| < HEADER_SIZE
    ensures PollStep(p, keyword).Stopped?
    ensures PollLoop(p, keyword, frame).frame == frame
  {
  }
  /** A captured iteration performs exactly three operations: the schedule moves on by three. */
  lemma CapturedFaults(p: Port, keyword: seq<Byte>)
    requires PollStep(p, keyword).Captured?
    ensures PollStep(p, keyword).port.faults == After(p.faults, 3)
  {
  }

  /** Clear for three more iterations than k: clear for the next one, and for k after it. */
  lemma ShiftClear(faults: seq<bool>, k: nat)
    requires ClearFor(faults, 3 * (k + 1))
    ensures ClearFor(faults, 3) && ClearFor(After(faults, 3), 3 * k)
  {
    var rest := After(faults, 3);
    forall i | 0 <= i < 3 * k && i < |rest|
      ensures !rest[i]
    {
      assert rest[i] == faults[i + 3];
    }
  }

  /** Moving the schedule on by a operations and then by b is moving it on by a + b. */
  lemma AfterAfter(faults: seq<bool>, a: nat, b: nat)
    ensures After(After(faults, a), b) == After(faults, a + b)
  {
    if a + b <= |faults| {
      assert faults[a..][b..] == faults[a + b..];
    }
  }

  /** The first of those iterations, and the state it leaves for the others. */
  lemma CaptureFirst(p: Port, keyword: seq<Byte>, frame: seq<Byte>, payloads: seq<Payload>, rest: seq<Byte>)
    returns (q: Port)
    requires payloads != [] && p.rx == FramedAll(payloads) + rest
    requires ClearFor(p.faults, 3 * |payloads|)
    ensures q.rx == FramedAll(payloads[1..]) + rest && q.faults == After(p.faults, 3)
    ensures ClearFor(q.faults, 3 * (|payloads| - 1))
    ensures q.log == p.log + Exchange(keyword, payloads[0])
    ensures PollLoop(p, keyword, frame) == PollLoop(q, keyword, payloads[0])
  {
    ConcatAssoc(Framed(payloads[0]), FramedAll(payloads[1..]), rest);
    ShiftClear(p.faults, |payloads| - 1);
    ReceivesFramed(p, keyword, payloads[0], FramedAll(payloads[1..]) + rest);
    CapturedFaults(p, keyword);
    q := PollStep(p, keyword).port;
  }

  /**
   * k >= 1 iterations whose operations do not raise, on input that starts with
   * k framed payloads followed by anything: the loop captures them one after
   * another and goes on from the state q, holding the last payload, with
   * exactly the rest unread, the k exchanges logged and the schedule moved on
   * by 3k operations.
   */
  lemma {:induction false} CapturesThenRest(p: Port, keyword: seq<Byte>, frame: seq<Byte>, payloads: seq<Payload>, rest: seq<Byte>)
    returns (q: Port)
    requires payloads != [] && p.rx == FramedAll(payloads) + rest
    requires ClearFor(p.faults, 3 * |payloads|)
    ensures q.rx == rest && q.faults == After(p.faults, 3 * |payloads|)
    ensures q.log == p.log + Exchanges(keyword, payloads)
    ensures PollLoop(p, keyword, frame) == PollLoop(q, keyword, payloads[|payloads| - 1])
    decreases |payloads|
  {
    var tail := payloads[1..];
    var q1 := CaptureFirst(p, keyword, frame, payloads, rest);
    if tail == [] {
      q := q1;
      AccountFirst(p, q1, keyword, payloads, rest);
    } else {
      q := CapturesThenRest(q1, keyword, payloads[0], tail, rest);
      AccountRest(p, q1, q, keyword, payloads);
      LastOfCons(tail[|tail| - 1], payloads);
    }
  }

  /** The bookkeeping of a run of one capture: its state is the state after all of them. */
  lemma AccountFirst(p: Port, q: Port, keyword: seq<Byte>, payloads: seq<Payload>, rest: seq<Byte>)
    requires |payloads| == 1
    requires q.rx == FramedAll(payloads[1..]) + rest && q.faults == After(p.faults, 3)
    requires q.log == p.log + Exchange(keyword, payloads[0])
    ensures q.rx == rest && q.faults == After(p.faults, 3 * |payloads|)
    ensures q.log == p.log + Exchanges(keyword, payloads)
  {
    assert payloads[1..] == [];
    assert Exchanges(keyword, payloads) == Exchange(keyword, payloads[0]);
  }

  /** The bookkeeping of a longer run: one capture, then the captures of the rest. */
  lemma AccountRest(p: Port, q1: Port, q: Port, keyword: seq<Byte>, payloads: seq<Payload>)
    requires |payloads| > 1
    requires q1.faults == After(p.faults, 3) && q1.log == p.log + Exchange(keyword, payloads[0])
    requires q.faults == After(q1.faults, 3 * |payloads[1..]|) && q.log == q1.log + Exchanges(keyword, payloads[1..])
    ensures q.faults == After(p.faults, 3 * |payloads|)
    ensures q.log == p.log + Exchanges(keyword, payloads)
  {
    var tail := payloads[1..];
    AfterAfter(p.faults, 3, 3 * |tail|);
    assert Exchanges(keyword, payloads) == Exchange(keyword, payloads[0]) + Exchanges(keyword, tail);
    ConcatAssoc(p.log, Exchange(keyword, payloads[0]), Exchanges(keyword, tail));
  }

  /**
   * The stale frame: after k >= 1 captures, an iteration whose write,
   * header read or payload read raises, or whose header comes back short
   * because fewer than four bytes are left, ends the loop, and the slot keeps
   * the k-th payload from then on.
   */
  lemma StaleFrameKept(p: Port, keyword: seq<Byte>, frame: seq<Byte>, payloads: seq<Payload>, rest: seq<Byte>)
    requires payloads != [] && p.rx == FramedAll(payloads) + rest
    requires ClearFor(p.faults, 3 * |payloads|)
    requires !ClearFor(After(p.faults, 3 * |payloads|), 3) || |rest| < HEADER_SIZE
    ensures PollLoop(p, keyword, frame).frame == payloads[|payloads| - 1]
  {
    var q := CapturesThenRest(p, keyword, frame, payloads, rest);
    FailedIterationKeepsSlot(q, keyword, payloads[|payloads| - 1]);
  }
}
