/**
 * The serial transport: a UART that takes whole packets with a blocking
 * write and hands back received bytes one read at a time.
 *
 * The UART is a value: the read outcomes it still has to deliver, the outcome
 * of each successive blocking write, and the log of bytes it has accepted.
 */
module Serial {
  import opened Errors
  import opened Packet

  /** What one non-blocking read of the UART gives back. */
  datatype ReadOutcome = Byte(b: bv8) | WouldBlock | Fault(e: CommError)

  /**
   * The UART: `input` is what the next reads return, in order (an exhausted
   * input would block); `writeFaults` says how each successive blocking write
   * ends (no entry left, or None, means it succeeds); `written` logs every byte
   * a successful write handed over.
   */
  datatype Uart = Uart(input: seq<ReadOutcome>, writeFaults: seq<Option<CommError>>, written: seq<bv8>)

  datatype PortRead = PortRead(outcome: ReadOutcome, port: Uart)
  datatype PortWrite = PortWrite(fault: Option<CommError>, port: Uart)

  /** One read: the next outcome, which it consumes; a drained input would block. */
  function ReadByte(u: Uart): (r: PortRead)
    ensures r.port.written == u.written && r.port.writeFaults == u.writeFaults
    ensures u.input == [] ==> r == PortRead(WouldBlock, u)
    ensures u.input != [] ==> r.outcome == u.input[0] && r.port.input == u.input[1..]
  {
    if u.input == [] then PortRead(WouldBlock, u)
    else PortRead(u.input[0], u.(input := u.input[1..]))
  }

  /** The outcome of the next blocking write. */
  function NextWriteFault(u: Uart): Option<CommError> {
    if u.writeFaults == [] then None else u.writeFaults[0]
  }

  /** One blocking write of `bytes`: either every byte is accepted and logged, or it fails and nothing is logged. */
  function WriteAll(u: Uart, bytes: seq<bv8>): (r: PortWrite)
    ensures r.fault == NextWriteFault(u)
    ensures r.port.input == u.input
    ensures r.fault.None? ==> r.port.written == u.written + bytes
    ensures r.fault.Some? ==> r.port.written == u.written
  {
    var rest := if u.writeFaults == [] then [] else u.writeFaults[1..];
    match NextWriteFault(u)
    case None => PortWrite(None, u.(writeFaults := rest, written := u.written + bytes))
    case Some(e) => PortWrite(Some(e), u.(writeFaults := rest))
  }

  // ---------------------------------------------------------------------------
  // Specification of the read loop and of one exchange

  datatype ReadRun = ReadRun(bytes: seq<bv8>, port: Uart)

  /** Up to `limit` reads, stopping at (and consuming) the first outcome that is not a byte. */
  function ReadUpTo(u: Uart, limit: nat): (r: ReadRun)
    ensures |r.bytes| <= limit
    decreases limit
  {
    if limit == 0 then ReadRun([], u)
    else
      var rd := ReadByte(u);
      if rd.outcome.Byte? then
        var rest := ReadUpTo(rd.port, limit - 1);
        ReadRun([rd.outcome.b] + rest.bytes, rest.port)
      else ReadRun([], rd.port)
  }

  /**
   * The read loop gets at most `limit` bytes; they are the leading byte
   * outcomes of the input, in order; it stops early only at the first
   * would-block or fault (the two alike), which it consumes; it never writes.
   */
  lemma {:induction false} ReadUpToSpec(u: Uart, limit: nat)
    ensures var r := ReadUpTo(u, limit);
      var n := |r.bytes|;
      && n <= limit
      && n <= |u.input|
      && (forall k :: 0 <= k < n ==> u.input[k] == Byte(r.bytes[k]))
      && (n < limit ==> n == |u.input| || !u.input[n].Byte?)
      && r.port.input == u.input[if n < limit && n < |u.input| then n + 1 else n ..]
      && r.port.written == u.written && r.port.writeFaults == u.writeFaults
    decreases limit
  {
    if limit > 0 && u.input != [] && u.input[0].Byte? {
      var rd := ReadByte(u);
      ReadUpToSpec(rd.port, limit - 1);
      var rest := ReadUpTo(rd.port, limit - 1);
      var n := |rest.bytes|;
      forall k | 0 <= k < n + 1
        ensures u.input[k] == Byte(([rd.outcome.b] + rest.bytes)[k])
      {
        if k > 0 {
          assert u.input[k] == rd.port.input[k - 1];
        }
      }
      if n < limit - 1 && n < |rd.port.input| {
        assert rd.port.input[n + 1..] == u.input[n + 2..];
      } else {
        assert rd.port.input[n..] == u.input[n + 1..];
      }
    }
  }

  datatype Exchanged = Exchanged(result: Result<nat>, port: Uart, recv: Image)

  /** One `exchange_packets`: write the whole send image, then read into the receive image. */
  function Exchange(send: Image, u: Uart, recv: Image): Exchanged {
    var w := WriteAll(u, send);
    match w.fault
    case Some(e) => Exchanged(Err(Comm(e)), w.port, recv)
    case None =>
      var r := ReadUpTo(w.port, PacketMaxLen);
      Exchanged(Ok(|r.bytes|), r.port, r.bytes + recv[|r.bytes|..])
  }

  /**
   * A failed write ends the exchange with `Comm`, reads nothing and leaves the
   * receive image alone; a successful one hands over all 68 bytes of the send
   * image, whatever count it declares, and the count returned is at most 68,
   * with the bytes read at the front of the receive image and the rest as it was.
   */
  lemma ExchangeSpec(send: Image, u: Uart, recv: Image)
    ensures var x := Exchange(send, u, recv);
      && (x.result.Err? <==> NextWriteFault(u).Some?)
      && (x.result.Err? ==>
            && x.result.error == Comm(NextWriteFault(u).value)
            && x.recv == recv && x.port.input == u.input && x.port.written == u.written)
      && (x.result.Ok? ==>
            var n := x.result.value;
            && n <= PacketMaxLen
            && x.port.written == u.written + send
            && x.recv[..n] == ReadUpTo(WriteAll(u, send).port, PacketMaxLen).bytes
            && x.recv[n..] == recv[n..])
  {
    ReadUpToSpec(WriteAll(u, send).port, PacketMaxLen);
  }

  // ---------------------------------------------------------------------------
  // The interface object

  class SerialInterface {
    /** The UART this interface drives. */
    var serial: Uart

    /** `SerialInterface::new`. */
    constructor(port: Uart)
      ensures serial == port
    {
      serial := port;
    }

    /** `setup`: nothing to configure, always succeeds. */
    method Setup() returns (r: Result<()>)
      ensures r.Ok?
    {
      return Ok(());
    }

    /**
     * `read_many`: fills `buffer` from the front until it is full or a read
     * gives no byte; never fails.
     */
    method ReadMany(buffer: array<bv8>) returns (r: Result<nat>)
      modifies this, buffer
      ensures var run := ReadUpTo(old(serial), buffer.Length);
        && r == Ok(|run.bytes|)
        && serial == run.port
        && buffer[..] == run.bytes + old(buffer[..])[|run.bytes|..]
    {
      ghost var u0 := serial;
      ghost var old0 := buffer[..];
      var count := 0;
      while count < buffer.Length
        invariant 0 <= count <= buffer.Length
        invariant ReadUpTo(u0, buffer.Length).bytes == buffer[..count] + ReadUpTo(serial, buffer.Length - count).bytes
        invariant ReadUpTo(u0, buffer.Length).port == ReadUpTo(serial, buffer.Length - count).port
        invariant buffer[count..] == old0[count..]
      {
        var rd := ReadByte(serial);
        serial := rd.port;
        if !rd.outcome.Byte? {
          break;
        }
        buffer[count] := rd.outcome.b;
        count := count + 1;
      }
      assert buffer[..] == buffer[..count] + old0[count..];
      return Ok(count);
    }

    /** `exchange_packets`: write the send image, then read the reply into the receive image. */
    method ExchangePackets(send: IoPacket, recv: IoPacket) returns (r: Result<nat>)
      requires send.Valid() && recv.Valid() && send.image != recv.image
      modifies this, recv.image
      ensures var x := Exchange(old(send.image[..]), old(serial), old(recv.image[..]));
        r == x.result && serial == x.port && recv.image[..] == x.recv
    {
      var w := WriteAll(serial, send.image[..]);
      serial := w.port;
      if w.fault.Some? {
        return Err(Comm(w.fault.value));
      }
      r := ReadMany(recv.image);
    }
  }
}
