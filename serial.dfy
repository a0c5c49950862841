/**
 * The host's view of the serial port: an abstract byte stream with pyserial's
 * read-with-timeout behaviour. read(n) blocks until n bytes have arrived or the
 * timeout expires and returns what arrived, so it yields the next
 * min(n, remaining) bytes of the device's output. A schedule of transport
 * faults says which calls raise instead.
 */
module Serial {
  import opened Bytes

  /** One completed transfer, in the order the host performed them. */
  datatype Event = Wrote(bytes: seq<Byte>) | Got(bytes: seq<Byte>)

  /** The outcome of one port operation: whether it raised, the bytes read, the new port. */
  datatype Io = Io(raised: bool, data: seq<Byte>, port: Port)

  /**
   * The port at one moment: the bytes the device has yet to deliver, the log
   * of transfers so far, and the fault schedule (entry i is true when the i-th
   * remaining operation raises; past its end no operation raises).
   */
  datatype Port = Port(rx: seq<Byte>, log: seq<Event>, faults: seq<bool>) {

    /** The next operation on the port raises. */
    predicate Faulty()
    {
      |faults| > 0 && faults[0]
    }

    /** The port with the fault schedule moved on by one operation. */
    function Tick(): (q: Port)
      ensures q.rx == rx && q.log == log
      ensures |faults| > 0 ==> q.faults == faults[1..]
      ensures |faults| == 0 ==> q.faults == []
    {
      this.(faults := if faults == [] then [] else faults[1..])
    }

    /** dev.write(bytes): raises when the schedule says so, otherwise logs the bytes. */
    function Write(bytes: seq<Byte>): (r: Io)
      ensures r.raised == Faulty() && r.data == []
      ensures r.port.rx == rx && r.port.faults == Tick().faults
      ensures r.port.log == if r.raised then log else log + [Wrote(bytes)]
    {
      if Faulty() then Io(true, [], Tick())
      else Io(false, [], Tick().(log := log + [Wrote(bytes)]))
    }

    /** dev.read(n): raises when the schedule says so, otherwise the next min(n, |rx|) bytes. */
    function Read(n: nat): (r: Io)
      ensures r.raised == Faulty() && r.port.faults == Tick().faults
      ensures r.raised ==> r.data == [] && r.port.rx == rx && r.port.log == log
      ensures !r.raised ==> |r.data| == Min(n, |rx|) && rx == r.data + r.port.rx
      ensures !r.raised ==> r.port.log == log + [Got(r.data)]
    {
      if Faulty() then Io(true, [], Tick())
      else
        var k := Min(n, |rx|);
        Io(false, rx[..k], Tick().(rx := rx[k..], log := log + [Got(rx[..k])]))
    }
  }

  /** None of the first k operations raises. */
  predicate ClearFor(faults: seq<bool>, k: nat)
  {
    forall i | 0 <= i < k && i < |faults| :: !faults[i]
  }

  /** The fault schedule once k more operations have been performed. */
  function After(faults: seq<bool>, k: nat): (r: seq<bool>)
    ensures k <= |faults| ==> r == faults[k..]
    ensures k > |faults| ==> r == []
  {
    if k <= |faults| then faults[k..] else []
  }

  /** No operation ever raises. */
  predicate NeverFails(faults: seq<bool>)
  {
    ClearFor(faults, |faults|)
  }

  /** The serial device handle, updated in place by writes and reads. */
  class SerialPort {
    var rx: seq<Byte>
    var log: seq<Event>
    var faults: seq<bool>

    function State(): Port
      reads this
    {
      Port(rx, log, faults)
    }

    constructor (input: seq<Byte>, schedule: seq<bool>)
      ensures State() == Port(input, [], schedule)
    {
      rx, log, faults := input, [], schedule;
    }

    method Write(bytes: seq<Byte>) returns (raised: bool)
      modifies this
      ensures raised == old(State()).Write(bytes).raised
      ensures State() == old(State()).Write(bytes).port
    {
      var r := State().Write(bytes);
      raised := r.raised;
      rx, log, faults := r.port.rx, r.port.log, r.port.faults;
    }

    method Read(n: nat) returns (raised: bool, data: seq<Byte>)
      modifies this
      ensures raised == old(State()).Read(n).raised
      ensures data == old(State()).Read(n).data
      ensures State() == old(State()).Read(n).port
    {
      var r := State().Read(n);
      raised, data := r.raised, r.data;
      rx, log, faults := r.port.rx, r.port.log, r.port.faults;
    }
  }
}
