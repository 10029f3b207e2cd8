/** The read-modify-write rule for one 16-bit register value. */
module RegisterBits {
  /**
   * `(v | setBits) & !clearBits`, the value `modify_register` writes back:
   * every bit of `clearBits` ends up clear, every other bit of `setBits` set.
   */
  function ModifiedValue(v: bv16, clearBits: bv16, setBits: bv16): (r: bv16)
    ensures r & clearBits == 0
    ensures r & setBits == setBits & !clearBits
  {
    (v | setBits) & !clearBits
  }

  /** Bits in neither mask keep the value they had. */
  lemma ModifiedValueKeepsOtherBits(v: bv16, clearBits: bv16, setBits: bv16)
    ensures ModifiedValue(v, clearBits, setBits) & !(clearBits | setBits) == v & !(clearBits | setBits)
  {
  }

  /**
   * A bit in both masks ends up cleared, because the set happens before the
   * clear; clearing first and setting after would leave such a bit set.
   */
  lemma ModifyClearWins(v: bv16, clearBits: bv16, setBits: bv16)
    ensures ModifiedValue(v, clearBits, setBits) & (clearBits & setBits) == 0
    ensures (v & !clearBits) | setBits == ModifiedValue(v, clearBits, setBits) <==> clearBits & setBits == 0
  {
  }
}

/**
 * The px4io driver: one send packet and one receive packet, exchanged with the
 * coprocessor over the serial interface with a bounded number of attempts, and
 * the register reads and writes built on that exchange.
 */
module Driver {
  import opened Errors
  import opened Protocol
  import opened Packet
  import opened Serial
  import opened RegisterBits

  /** How a driver call ends: it returns a result, or the code panics (an index out of range). */
  datatype Outcome<T> = Returned(result: Result<T>) | Panicked

  /** A failed outcome carried over to a call with another result type. */
  function Failed<T, U>(o: Outcome<T>): (r: Outcome<U>)
    requires !(o.Returned? && o.result.Ok?)
    ensures r.Panicked? <==> o.Panicked?
    ensures r.Returned? ==> r.result.Err? && r.result.error == o.result.error
  {
    if o.Panicked? then Panicked else Returned(Err(o.result.error))
  }

  /** The attempts `set_registers` and `get_registers` allow. */
  const TransactionAttempts: nat := 3

  /** A reply that checks is accepted unless its opcode reports corruption or an error. */
  predicate Accepted(img: Image) {
    CrcValid(img) == Some(true) && PacketCode(img) != PacketCodeCorrupt && PacketCode(img) != PacketCodeError
  }

  /** The state after a run of attempts, and how many exchanges it started. */
  datatype Attempted = Attempted(outcome: Outcome<()>, port: Uart, recv: Image, attempts: nat)

  /**
   * How one attempt ends, or None when it calls for another: a transport
   * error ends the run with that error, a reply whose count makes the CRC
   * check index past the packet panics, and an accepted reply ends it with Ok.
   */
  function Verdict(x: Exchanged): Option<Outcome<()>> {
    if x.result.Err? then Some(Returned(Err(x.result.error)))
    else if CrcValid(x.recv).None? then Some(Panicked)
    else if Accepted(x.recv) then Some(Returned(Ok(())))
    else None
  }

  /**
   * Up to `n` more exchanges of `send`, after `used` exchanges already made,
   * each reading into what the previous one left in the receive packet,
   * until one has a verdict; when none is left the run ends with
   * `ErrorResponse`. `attempts` counts every exchange started, `used` included.
   */
  function Attempts(send: Image, u: Uart, recv: Image, n: nat, used: nat): (r: Attempted)
    ensures used <= r.attempts <= used + n
    ensures n > 0 ==> used < r.attempts
    decreases n
  {
    if n == 0 then Attempted(Returned(Err(ErrorResponse)), u, recv, used)
    else
      var x := Exchange(send, u, recv);
      match Verdict(x)
      case Some(outcome) => Attempted(outcome, x.port, x.recv, used + 1)
      case None => Attempts(send, x.port, x.recv, n - 1, used + 1)
  }

  /** One attempt of a run: it ends the run with its verdict, or the rest of the run follows it. */
  lemma AttemptsUnfold(send: Image, u: Uart, recv: Image, n: nat, used: nat)
    requires n > 0
    ensures var x := Exchange(send, u, recv);
      var a := Attempts(send, u, recv, n, used);
      && (Verdict(x).Some? ==> a == Attempted(Verdict(x).value, x.port, x.recv, used + 1))
      && (Verdict(x).None? ==> a == Attempts(send, x.port, x.recv, n - 1, used + 1))
  {
  }

  /** `packet_exchange(retries)`: the receive packet is cleared once, before the first attempt. */
  function RetriedExchange(send: Image, u: Uart, retries: nat): Attempted {
    Attempts(send, u, ClearedImage(), retries, 0)
  }

  /** The request `set_registers` builds in the send packet. */
  function WriteRequest(send: Image, page: bv8, offset: bv8, values: seq<bv16>): Image
    requires |values| <= 16
  {
    SetValuesImage(send, PacketCodeWrite, page, offset, values)
  }

  /** The request `get_registers` builds in the send packet: a read declaring no values. */
  function ReadRequest(send: Image, page: bv8, offset: bv8): Image {
    SetValuesImage(send, PacketCodeRead, page, offset, [])
  }

  // ---------------------------------------------------------------------------
  // Properties of the exchange

  /**
   * The verdicts an exchange can have: a failed write gives `Comm`, so never
   * `Unresponsive` nor `ErrorResponse`; Ok only for an accepted reply, and a
   * panic only where the CRC check indexes past the packet.
   */
  lemma VerdictOutcomes(send: Image, u: Uart, recv: Image)
    ensures var x := Exchange(send, u, recv);
      && (Verdict(x).Some? ==>
            && (Verdict(x).value.Returned? && Verdict(x).value.result.Err? ==> Verdict(x).value.result.error.Comm?)
            && (Verdict(x).value == Returned(Ok(())) ==> Accepted(x.recv))
            && (Verdict(x).value.Panicked? ==> CrcValid(x.recv).None?))
      && (x.result.Ok? && Accepted(x.recv) ==> Verdict(x) == Some(Returned(Ok(()))))
      && (x.result.Ok? && CrcValid(x.recv).Some? && !Accepted(x.recv) ==> Verdict(x).None?)
  {
  }

  /** A reply is accepted exactly when its CRC checks and its opcode is 0x00 or 0xC0. */
  lemma AcceptedCodes(img: Image)
    ensures Accepted(img) <==> CrcValid(img) == Some(true) && (PacketCode(img) == 0x00 || PacketCode(img) == 0xC0)
  {
  }

  /**
   * A failed write ends the run at once with `Comm`, after that one attempt,
   * leaving the receive packet as it was.
   */
  lemma WriteFaultEndsRun(send: Image, u: Uart, recv: Image, n: nat, used: nat)
    requires n > 0 && NextWriteFault(u).Some?
    ensures Attempts(send, u, recv, n, used)
      == Attempted(Returned(Err(Comm(NextWriteFault(u).value))), WriteAll(u, send).port, recv, used + 1)
  {
    AttemptsUnfold(send, u, recv, n, used);
  }

  /**
   * How a run allowed `total` attempts may end: never with `Unresponsive`;
   * Ok only for an accepted last reply; `ErrorResponse` only once all `total`
   * attempts were used; a panic only for a reply whose CRC check indexes
   * past the packet.
   */
  predicate RunOutcomeOk(r: Attempted, total: nat) {
    && r.outcome != Returned(Err(Unresponsive))
    && (r.outcome == Returned(Ok(())) ==> Accepted(r.recv))
    && (r.outcome == Returned(Err(ErrorResponse)) ==> r.attempts == total)
    && (r.outcome.Panicked? ==> CrcValid(r.recv).None?)
  }

  /**
   * Every run ends in Ok, `ErrorResponse`, a `Comm` error from the transport,
   * or a panic, as `RunOutcomeOk` describes.
   */
  lemma {:induction false} AttemptsOutcomes(send: Image, u: Uart, recv: Image, n: nat, used: nat)
    ensures RunOutcomeOk(Attempts(send, u, recv, n, used), used + n)
    decreases n
  {
    if n > 0 {
      var x := Exchange(send, u, recv);
      AttemptsUnfold(send, u, recv, n, used);
      if Verdict(x).Some? {
        VerdictOutcomes(send, u, recv);
      } else {
        AttemptsOutcomes(send, x.port, x.recv, n - 1, used + 1);
      }
    }
  }

  /** The attempts of a run whose write succeeded: all of them, but the last when the run ended on a failed write. */
  function WritesDone(r: Attempted): nat {
    if r.outcome.Returned? && r.outcome.result.Err? && r.outcome.result.error.Comm? && r.attempts > 0
    then r.attempts - 1 else r.attempts
  }

  /** The send image repeated `k` times. */
  function Repeat(send: seq<bv8>, k: nat): seq<bv8> {
    if k == 0 then [] else Repeat(send, k - 1) + send
  }

  /** An exchange logs the whole send image if its write succeeded and nothing otherwise. */
  lemma ExchangeWritten(send: Image, u: Uart, recv: Image)
    ensures var x := Exchange(send, u, recv);
      x.port.written == u.written + (if x.result.Ok? then send else [])
  {
    ExchangeSpec(send, u, recv);
  }

  /**
   * The write log of a run that started from `u` after `used` attempts holds
   * what `u` had logged followed by one whole send image per later attempt
   * whose write succeeded, and nothing else.
   */
  predicate LogsWrites(send: Image, u: Uart, used: nat, r: Attempted) {
    used <= WritesDone(r) && r.port.written == u.written + Repeat(send, WritesDone(r) - used)
  }

  /** Every run logs its writes as `LogsWrites` describes. */
  lemma {:induction false} AttemptsWrites(send: Image, u: Uart, recv: Image, n: nat, used: nat)
    ensures LogsWrites(send, u, used, Attempts(send, u, recv, n, used))
    decreases n
  {
    if n > 0 {
      var x := Exchange(send, u, recv);
      if Verdict(x).None? {
        AttemptsWrites(send, x.port, x.recv, n - 1, used + 1);
        NextAttemptWrites(send, u, recv, n, used);
      } else {
        LastAttemptWrites(send, u, recv, n, used);
      }
    }
  }

  /** The write log of a run whose first attempt calls for another, from the log of the rest of the run. */
  lemma NextAttemptWrites(send: Image, u: Uart, recv: Image, n: nat, used: nat)
    requires n > 0 && Verdict(Exchange(send, u, recv)).None?
    requires var x := Exchange(send, u, recv);
      LogsWrites(send, x.port, used + 1, Attempts(send, x.port, x.recv, n - 1, used + 1))
    ensures LogsWrites(send, u, used, Attempts(send, u, recv, n, used))
  {
    var x := Exchange(send, u, recv);
    var rest := Attempts(send, x.port, x.recv, n - 1, used + 1);
    AttemptsUnfold(send, u, recv, n, used);
    ExchangeWritten(send, u, recv);
    LogsAfterOneWrite(send, u, x.port, used, rest);
  }

  /** The write log of a run that ends on its first attempt. */
  lemma LastAttemptWrites(send: Image, u: Uart, recv: Image, n: nat, used: nat)
    requires n > 0 && Verdict(Exchange(send, u, recv)).Some?
    ensures LogsWrites(send, u, used, Attempts(send, u, recv, n, used))
  {
    var r := Attempts(send, u, recv, n, used);
    var x := Exchange(send, u, recv);
    AttemptsUnfold(send, u, recv, n, used);
    ExchangeWritten(send, u, recv);
    VerdictOutcomes(send, u, recv);
    if x.result.Err? {
      assert WritesDone(r) == used;
    } else {
      assert WritesDone(r) == used + 1;
      assert Repeat(send, 1) == send;
    }
  }

  /** A run that follows one successful write of `send` logs that write in front of its own. */
  lemma LogsAfterOneWrite(send: Image, u: Uart, v: Uart, used: nat, rest: Attempted)
    requires v.written == u.written + send
    requires LogsWrites(send, v, used + 1, rest)
    ensures LogsWrites(send, u, used, rest)
  {
    var k := WritesDone(rest) - (used + 1);
    RepeatAfter(u.written, v.written, rest.port.written, send, k);
  }

  /** A log that grew by one copy and then by `k` more grew by `k + 1` copies. */
  lemma RepeatAfter(w0: seq<bv8>, w1: seq<bv8>, w2: seq<bv8>, send: seq<bv8>, k: nat)
    requires w1 == w0 + send && w2 == w1 + Repeat(send, k)
    ensures w2 == w0 + Repeat(send, k + 1)
  {
    RepeatFront(send, k);
    assert (w0 + send) + Repeat(send, k) == w0 + (send + Repeat(send, k));
  }

  /** Repeating once more can be read as one copy in front. */
  lemma {:induction false} RepeatFront(send: seq<bv8>, k: nat)
    ensures Repeat(send, k + 1) == send + Repeat(send, k)
  {
    if k > 0 {
      RepeatFront(send, k - 1);
    }
  }

  /**
   * Retry recovery: when the first two replies are rejected (their CRC fails
   * or their opcode reports corruption or an error) and the third is accepted,
   * the run ends in Ok after exactly 3 attempts. Each attempt reads into
   * what the one before left in the receive packet: it is not cleared again.
   */
  lemma RecoversAfterTwoRejections(send: Image, u: Uart, retries: nat)
    requires retries >= 3
    requires var x1 := Exchange(send, u, ClearedImage());
      var x2 := Exchange(send, x1.port, x1.recv);
      var x3 := Exchange(send, x2.port, x2.recv);
      && x1.result.Ok? && CrcValid(x1.recv).Some? && !Accepted(x1.recv)
      && x2.result.Ok? && CrcValid(x2.recv).Some? && !Accepted(x2.recv)
      && x3.result.Ok? && Accepted(x3.recv)
    ensures var x1 := Exchange(send, u, ClearedImage());
      var x2 := Exchange(send, x1.port, x1.recv);
      var x3 := Exchange(send, x2.port, x2.recv);
      RetriedExchange(send, u, retries) == Attempted(Returned(Ok(())), x3.port, x3.recv, 3)
  {
    var x1 := Exchange(send, u, ClearedImage());
    var x2 := Exchange(send, x1.port, x1.recv);
    VerdictOutcomes(send, u, ClearedImage());
    VerdictOutcomes(send, x1.port, x1.recv);
    VerdictOutcomes(send, x2.port, x2.recv);
    AttemptsUnfold(send, u, ClearedImage(), retries, 0);
    AttemptsUnfold(send, x1.port, x1.recv, retries - 1, 1);
    AttemptsUnfold(send, x2.port, x2.recv, retries - 2, 2);
  }

  /** With no attempts allowed nothing is exchanged and the result is `ErrorResponse`. */
  lemma NoRetriesNoExchange(send: Image, u: Uart)
    ensures RetriedExchange(send, u, 0) == Attempted(Returned(Err(ErrorResponse)), u, ClearedImage(), 0)
  {
  }

  /**
   * If the device sends nothing back, the first attempt succeeds anyway: the
   * cleared receive packet carries opcode 0 and a CRC that checks.
   */
  lemma SilentReplyAccepted(send: Image, u: Uart, retries: nat)
    requires 1 <= retries
    requires NextWriteFault(u).None?
    requires u.input == [] || !u.input[0].Byte?
    ensures var r := RetriedExchange(send, u, retries);
      r.outcome == Returned(Ok(())) && r.attempts == 1 && r.recv == ClearedImage()
  {
    var w := WriteAll(u, send);
    assert ReadUpTo(w.port, PacketMaxLen).bytes == [];
    assert [] + ClearedImage()[0..] == ClearedImage();
    ClearedIsCrcValid();
  }

  /** A reply of one whole accepted packet is delivered, intact, on the first attempt. */
  lemma FullReplyDelivered(send: Image, u: Uart, reply: Image, retries: nat)
    requires 1 <= retries
    requires NextWriteFault(u).None?
    requires Accepted(reply)
    requires |u.input| >= PacketMaxLen
    requires forall k :: 0 <= k < PacketMaxLen ==> u.input[k] == Byte(reply[k])
    ensures var r := RetriedExchange(send, u, retries);
      r.outcome == Returned(Ok(())) && r.attempts == 1 && r.recv == reply
      && r.port.input == u.input[PacketMaxLen..]
  {
    var w := WriteAll(u, send);
    var run := ReadUpTo(w.port, PacketMaxLen);
    ReadUpToSpec(w.port, PacketMaxLen);
    ExchangeSpec(send, u, ClearedImage());
    assert run.bytes == reply;
    var x := Exchange(send, u, ClearedImage());
    assert x.recv == reply + ClearedImage()[PacketMaxLen..];
    assert x.recv == reply;
    assert Verdict(x) == Some(Returned(Ok(())));
    assert x.port.input == u.input[PacketMaxLen..];
  }

  // ---------------------------------------------------------------------------
  // The one-register operations, on values

  /** How a driver call ends, with the send packet, the UART and the receive packet it leaves. */
  datatype Driven<T> = Driven(outcome: Outcome<T>, send: Image, port: Uart, recv: Image)

  /** A register read: how it ends, and the contents of the destination buffer after it. */
  datatype Fetched = Fetched(d: Driven<()>, values: seq<bv16>)

  /**
   * `get_registers` into a buffer holding `values`: a read request, then,
   * once a reply is accepted, its first `|values|` register slots copied
   * into the buffer; more than 32 slots panic in the copy.
   */
  function Fetch(send: Image, u: Uart, page: bv8, offset: bv8, values: seq<bv16>): Fetched {
    var request := ReadRequest(send, page, offset);
    Copied(request, RetriedExchange(request, u, TransactionAttempts), values)
  }

  /** The copy `get_registers` makes once the exchange of `request` has run as `a`. */
  function Copied(request: Image, a: Attempted, values: seq<bv16>): Fetched {
    var accepted := a.outcome == Returned(Ok(()));
    var outcome := if accepted && |values| > MaxPacketRegisters then Panicked else a.outcome;
    var got := if accepted && |values| <= MaxPacketRegisters then Registers(a.recv)[..|values|] else values;
    Fetched(Driven(outcome, request, a.port, a.recv), got)
  }

  /** `get_one_register`: `get_registers` into a one-slot buffer, then that slot. */
  function ReadOne(send: Image, u: Uart, page: bv8, offset: bv8): Driven<bv16> {
    var f := Fetch(send, u, page, offset, [0]);
    var outcome := if f.d.outcome.Returned? && f.d.outcome.result.Ok? then Returned(Ok(f.values[0])) else Failed(f.d.outcome);
    Driven(outcome, f.d.send, f.d.port, f.d.recv)
  }

  /**
   * `set_registers`: a write request carrying `values`, exchanged; more than
   * 16 values panic while the request is built, before anything is sent.
   */
  function Store(send: Image, u: Uart, recv: Image, page: bv8, offset: bv8, values: seq<bv16>): Driven<()> {
    if |values| > 16 then Driven(Panicked, send, u, recv)
    else
      var request := WriteRequest(send, page, offset, values);
      var a := RetriedExchange(request, u, TransactionAttempts);
      Driven(a.outcome, request, a.port, a.recv)
  }

  /** `set_one_register`: `set_registers` with a single value. */
  function WriteOne(send: Image, u: Uart, recv: Image, page: bv8, offset: bv8, value: bv16): Driven<()> {
    Store(send, u, recv, page, offset, [value])
  }

  /** `modify_register`: read the register, and only if that succeeds write back its modified value. */
  function Modify(send: Image, u: Uart, page: bv8, offset: bv8, clearBits: bv16, setBits: bv16): Driven<()> {
    var read := ReadOne(send, u, page, offset);
    if read.outcome.Returned? && read.outcome.result.Ok? then
      WriteOne(read.send, read.port, read.recv, page, offset, ModifiedValue(read.outcome.result.value, clearBits, setBits))
    else Driven(Failed(read.outcome), read.send, read.port, read.recv)
  }

  /**
   * A register write of more than 16 values panics before anything is sent
   * (the model keeps the state it had, as nothing runs after a panic): up to
   * 32 values, the CRC of the frame `set_values` builds would run past the
   * packet; beyond that the copy into the 32 slots overruns. Otherwise it sends a write request declaring
   * `|values|` registers for `page`/`offset`, carrying `values` in the first
   * slots (the other slots keep what the send packet held) with a CRC that
   * checks; it ends in Ok only for an accepted reply and never with
   * `Unresponsive`.
   */
  lemma StoreSpec(send: Image, u: Uart, recv: Image, page: bv8, offset: bv8, values: seq<bv16>)
    ensures var d := Store(send, u, recv, page, offset, values);
      && (|values| > 16 ==> d == Driven(Panicked, send, u, recv))
      && (16 < |values| <= MaxPacketRegisters ==>
            PacketCrc(Serialize((|values| as bv8) | PacketCodeWrite, 0, page, offset, SetValuesRegs(send, values))).None?)
      && (|values| <= 16 ==>
            && CrcValid(d.send) == Some(true) && PacketCode(d.send) == PacketCodeWrite
            && ValidRegisterCount(d.send) as nat == |values| && d.send[2] == page && d.send[3] == offset
            && Registers(d.send)[..|values|] == values
            && Registers(d.send)[|values|..] == Registers(send)[|values|..]
            && d.outcome != Returned(Err(Unresponsive))
            && (d.outcome == Returned(Ok(())) ==> Accepted(d.recv)))
  {
    if 16 < |values| <= MaxPacketRegisters {
      SetValuesOverflowPanics(send, PacketCodeWrite, page, offset, values);
    }
    if |values| <= 16 {
      SetValuesSpec(send, PacketCodeWrite, page, offset, values);
      AttemptsOutcomes(WriteRequest(send, page, offset, values), u, ClearedImage(), TransactionAttempts, 0);
    }
  }

  /**
   * A register read sends a read request for `page`/`offset` declaring no
   * values, with a CRC that checks, and never ends with `Unresponsive`. The
   * buffer changes only when a reply is accepted, and then it holds the
   * reply's first register slots, whatever count the reply declares; an
   * accepted reply into more than 32 slots panics, and any other panic is a
   * reply whose CRC check indexes past the packet.
   */
  lemma FetchSpec(send: Image, u: Uart, page: bv8, offset: bv8, values: seq<bv16>)
    ensures var f := Fetch(send, u, page, offset, values);
      && CrcValid(f.d.send) == Some(true) && PacketCode(f.d.send) == PacketCodeRead
      && ValidRegisterCount(f.d.send) == 0 && f.d.send[2] == page && f.d.send[3] == offset
      && FetchOutcomeOk(f, values)
  {
    var request := ReadRequest(send, page, offset);
    var a := RetriedExchange(request, u, TransactionAttempts);
    SetValuesSpec(send, PacketCodeRead, page, offset, []);
    AttemptsOutcomes(request, u, ClearedImage(), TransactionAttempts, 0);
    CopiedOutcomes(request, a, values);
  }

  /**
   * How a register read into a buffer holding `values` may end: never with
   * `Unresponsive`; Ok only for an accepted reply into at most 32 slots,
   * which then hold the reply's first register slots; the buffer unchanged
   * otherwise; a panic only for more than 32 slots or a reply whose CRC
   * check indexes past the packet.
   */
  predicate FetchOutcomeOk(f: Fetched, values: seq<bv16>) {
    && f.d.outcome != Returned(Err(Unresponsive))
    && (f.d.outcome == Returned(Ok(())) ==>
          Accepted(f.d.recv) && |values| <= MaxPacketRegisters && f.values == Registers(f.d.recv)[..|values|])
    && (f.d.outcome != Returned(Ok(())) ==> f.values == values)
    && (f.d.outcome.Panicked? ==> |values| > MaxPacketRegisters || CrcValid(f.d.recv).None?)
  }

  /** The copy keeps what the run promises about its outcome. */
  lemma CopiedOutcomes(request: Image, a: Attempted, values: seq<bv16>)
    requires RunOutcomeOk(a, TransactionAttempts)
    ensures FetchOutcomeOk(Copied(request, a, values), values)
  {
  }

  /**
   * A one-register read yields a value only for an accepted reply, and then
   * it is the reply's register slot 0; it never panics in the copy.
   */
  lemma ReadOneSpec(send: Image, u: Uart, page: bv8, offset: bv8)
    ensures var d := ReadOne(send, u, page, offset);
      && d.send == ReadRequest(send, page, offset)
      && d.outcome != Returned(Err(Unresponsive))
      && (d.outcome.Returned? && d.outcome.result.Ok? ==>
            Accepted(d.recv) && d.outcome.result.value == Registers(d.recv)[0])
      && (d.outcome.Panicked? ==> CrcValid(d.recv).None?)
  {
    FetchSpec(send, u, page, offset, [0]);
  }

  /**
   * `modify_register` is a read followed, only when the read succeeds, by a
   * write of the read value with `setBits` set and then `clearBits` cleared:
   * a failed read ends the call with the read's own error or panic, and the
   * write starts from the UART the read left and sends that one value.
   */
  lemma ModifySpec(send: Image, u: Uart, page: bv8, offset: bv8, clearBits: bv16, setBits: bv16)
    ensures var read := ReadOne(send, u, page, offset);
      var m := Modify(send, u, page, offset, clearBits, setBits);
      && (read.outcome.Panicked? ==> m == Driven(Panicked, read.send, read.port, read.recv))
      && (read.outcome.Returned? && read.outcome.result.Err? ==>
            m == Driven(Returned(Err(read.outcome.result.error)), read.send, read.port, read.recv))
      && (read.outcome.Returned? && read.outcome.result.Ok? ==>
            var v := read.outcome.result.value;
            && m == WriteOne(read.send, read.port, read.recv, page, offset, (v | setBits) & !clearBits)
            && ValidRegisterCount(m.send) == 1 && PacketCode(m.send) == PacketCodeWrite
            && Registers(m.send)[0] & clearBits == 0
            && Registers(m.send)[0] & setBits == setBits & !clearBits)
  {
    var read := ReadOne(send, u, page, offset);
    if read.outcome.Returned? && read.outcome.result.Ok? {
      var v := read.outcome.result.value;
      StoreSpec(read.send, read.port, read.recv, page, offset, [ModifiedValue(v, clearBits, setBits)]);
    }
  }

  // ---------------------------------------------------------------------------
  // The driver object

  class IoMcuDriver {
    /** The device interface. */
    const di: SerialInterface
    const recvPacket: IoPacket
    const sendPacket: IoPacket

    predicate Valid() {
      sendPacket.Valid() && recvPacket.Valid() && sendPacket.image != recvPacket.image
    }

    /** `new_with_interface`: both packets start as default packets. */
    constructor NewWithInterface(deviceInterface: SerialInterface)
      ensures Valid() && di == deviceInterface
      ensures fresh(sendPacket.image) && fresh(recvPacket.image)
      ensures sendPacket.image[..] == DefaultImage() && recvPacket.image[..] == DefaultImage()
    {
      di := deviceInterface;
      recvPacket := new IoPacket.Default();
      sendPacket := new IoPacket.Default();
    }

    /** `setup`: the interface's setup, which always succeeds. */
    method Setup() returns (r: Result<()>)
      ensures r.Ok?
    {
      r := di.Setup();
    }

    /** One pass of the `packet_exchange` loop: exchange the packets and judge the reply. */
    method ExchangeOnce(ghost send: Image) returns (v: Option<Outcome<()>>)
      requires Valid() && sendPacket.image[..] == send
      modifies di, recvPacket.image
      ensures var x := Exchange(send, old(di.serial), old(recvPacket.image[..]));
        v == Verdict(x) && di.serial == x.port && recvPacket.image[..] == x.recv
    {
      var got := di.ExchangePackets(sendPacket, recvPacket);
      if got.Err? {
        return Some(Returned(Err(got.error)));
      }
      var valid := recvPacket.IsCrcValid();
      if valid.None? {
        // the CRC check indexes past the packet and panics
        return Some(Panicked);
      }
      if valid.value {
        var opcode := PacketCode(recvPacket.image[..]);
        if opcode != PacketCodeCorrupt && opcode != PacketCodeError {
          return Some(Returned(Ok(())));
        }
      }
      return None;
    }

    /**
     * `packet_exchange(retries)` for a u8 `retries`: clear the receive packet,
     * then attempt exchanges of the send packet as `Attempts` describes.
     */
    method PacketExchange(retries: nat) returns (r: Outcome<()>)
      requires Valid() && retries <= 0xFF
      modifies di, recvPacket.image
      ensures var a := RetriedExchange(sendPacket.image[..], old(di.serial), retries);
        r == a.outcome && di.serial == a.port && recvPacket.image[..] == a.recv
    {
      recvPacket.Clear();
      ghost var send := sendPacket.image[..];
      ghost var total := Attempts(send, di.serial, recvPacket.image[..], retries, 0);
      var i := 0;
      while i < retries
        invariant 0 <= i <= retries
        invariant sendPacket.image[..] == send
        invariant total == Attempts(send, di.serial, recvPacket.image[..], retries - i, i)
      {
        AttemptsUnfold(send, di.serial, recvPacket.image[..], retries - i, i);
        var verdict := ExchangeOnce(send);
        if verdict.Some? {
          return verdict.value;
        }
        i := i + 1;
      }
      return Returned(Err(ErrorResponse));
    }

    /**
     * `set_registers`: build a write request carrying `values` and exchange it
     * with 3 attempts. More than 16 values panic inside `set_values` (the CRC
     * walks past the packet, or the copy overruns the 32 slots).
     */
    method SetRegisters(page: bv8, offset: bv8, values: seq<bv16>) returns (r: Outcome<()>)
      requires Valid()
      modifies di, sendPacket.image, recvPacket.image
      ensures Driven(r, sendPacket.image[..], di.serial, recvPacket.image[..])
        == Store(old(sendPacket.image[..]), old(di.serial), old(recvPacket.image[..]), page, offset, values)
    {
      if |values| > 16 {
        return Panicked;
      }
      sendPacket.SetValues(PacketCodeWrite, page, offset, values);
      r := PacketExchange(TransactionAttempts);
    }

    /** `set_one_register`: `set_registers` with a single value. */
    method SetOneRegister(page: bv8, offset: bv8, value: bv16) returns (r: Outcome<()>)
      requires Valid()
      modifies di, sendPacket.image, recvPacket.image
      ensures Driven(r, sendPacket.image[..], di.serial, recvPacket.image[..])
        == WriteOne(old(sendPacket.image[..]), old(di.serial), old(recvPacket.image[..]), page, offset, value)
    {
      r := SetRegisters(page, offset, [value]);
    }

    /**
     * `get_registers`: send a read request and, once a reply is accepted, copy
     * its first `values.Length` register slots, whatever count the reply
     * declares. More than 32 destination slots panic in the copy.
     */
    method GetRegisters(page: bv8, offset: bv8, values: array<bv16>) returns (r: Outcome<()>)
      requires Valid()
      modifies di, sendPacket.image, recvPacket.image, values
      ensures Fetched(Driven(r, sendPacket.image[..], di.serial, recvPacket.image[..]), values[..])
        == Fetch(old(sendPacket.image[..]), old(di.serial), page, offset, old(values[..]))
    {
      sendPacket.SetValues(PacketCodeRead, page, offset, []);
      r := PacketExchange(TransactionAttempts);
      if r != Returned(Ok(())) {
        return;
      }
      if values.Length > MaxPacketRegisters {
        // the slice of the 32 registers is out of range
        return Panicked;
      }
      ghost var regs := Registers(recvPacket.image[..]);
      forall i | 0 <= i < values.Length {
        values[i] := RegisterAt(recvPacket.image[..], i);
      }
      assert values[..] == regs[..values.Length];
    }

    /** `get_one_register`: `get_registers` into a one-slot buffer, returning register slot 0 of the reply. */
    method GetOneRegister(page: bv8, offset: bv8) returns (r: Outcome<bv16>)
      requires Valid()
      modifies di, sendPacket.image, recvPacket.image
      ensures Driven(r, sendPacket.image[..], di.serial, recvPacket.image[..])
        == ReadOne(old(sendPacket.image[..]), old(di.serial), page, offset)
    {
      var readBuf := new bv16[1](_ => 0);
      assert readBuf[..] == [0];
      var got := GetRegisters(page, offset, readBuf);
      if got.Returned? && got.result.Ok? {
        r := Returned(Ok(readBuf[0]));
      } else {
        r := Failed(got);
      }
    }

    /**
     * `modify_register`: read the register, set `setBits`, then clear
     * `clearBits`, and write it back; a failed read writes nothing.
     */
    method ModifyRegister(page: bv8, offset: bv8, clearBits: bv16, setBits: bv16) returns (r: Outcome<()>)
      requires Valid()
      modifies di, sendPacket.image, recvPacket.image
      ensures Driven(r, sendPacket.image[..], di.serial, recvPacket.image[..])
        == Modify(old(sendPacket.image[..]), old(di.serial), page, offset, clearBits, setBits)
    {
      var got := GetOneRegister(page, offset);
      if got.Returned? && got.result.Ok? {
        var regVal := got.result.value | setBits;
        regVal := regVal & !clearBits;
        r := SetOneRegister(page, offset, regVal);
      } else {
        r := Failed(got);
      }
    }
  }

  /** `new_serial_driver`: wrap the UART, build the driver and return it if its setup succeeds, which it always does. */
  method NewSerialDriver(uart: Uart) returns (r: Option<IoMcuDriver>)
    ensures r.Some?
    ensures r.Some? ==>
      && r.value.Valid() && r.value.di.serial == uart
      && r.value.sendPacket.image[..] == DefaultImage() && r.value.recvPacket.image[..] == DefaultImage()
  {
    var iface := new SerialInterface(uart);
    var driver := new IoMcuDriver.NewWithInterface(iface);
    var setup := driver.Setup();
    if setup.Ok? {
      return Some(driver);
    }
    return None;
  }
}
