/**
  Receive path of one UART channel.

  The receive buffer is filled by a background transfer (DTC) that the driver
  arms for the whole buffer. The driver never stores a head index: it asks
  the transfer engine how many bytes are still outstanding (`remaining`) and
  derives `head = SIZE - remaining`. The only index the consumer owns is the
  tail. `remaining` is taken as part of the state with `1 <= remaining <= SIZE`;
  the moment at which it is 0 is folded into `Transfer`, which also performs
  the re-arm done by the RX-complete callback.
 */
module SerialRx {
  import opened Ring

  /** `buf` is `_rx_buffer[ch]` (its length is SERIAL_RX_BUFFER_SIZE),
      `tail` is `_rx_buffer_tail[ch]`, `remaining` is what the transfer
      engine reports as `transfer_length_remaining`. */
  datatype RxState = RxState(buf: seq<byte>, tail: nat, remaining: nat)

  predicate Valid(s: RxState) {
    && |s.buf| >= 2
    && s.tail < |s.buf|
    && 1 <= s.remaining <= |s.buf|
  }

  /** `get_rx_buffer_head`: the slot the transfer engine writes next. */
  function Head(s: RxState): (h: nat)
    requires Valid(s)
    ensures h < |s.buf|
    ensures h == 0 <==> s.remaining == |s.buf|
  {
    |s.buf| - s.remaining
  }

  /** `available`: the number of received bytes the consumer has not read. */
  function Available(s: RxState): (n: nat)
    requires Valid(s)
    ensures n < |s.buf|
    ensures n == 0 <==> Head(s) == s.tail
    ensures Offset(s.tail, n, |s.buf|) == Head(s)
  {
    ModWrap(|s.buf| + Head(s) - s.tail, |s.buf|);
    (|s.buf| + Head(s) - s.tail) % |s.buf|
  }

  /** The unread bytes, oldest first: the slots from the tail up to (not
      including) the head. */
  function Pending(s: RxState): (q: seq<byte>)
    requires Valid(s)
    ensures |q| == Available(s)
  {
    seq(Available(s), k requires 0 <= k < Available(s) => s.buf[Offset(s.tail, k, |s.buf|)])
  }

  /** `peek`: the oldest unread byte, or -1 when nothing is unread. */
  function Peek(s: RxState): (r: int)
    requires Valid(s)
    ensures -1 <= r < 256
    ensures r == -1 <==> Available(s) == 0
    ensures r != -1 ==> r == s.buf[s.tail]
  {
    if Head(s) == s.tail then -1 else s.buf[s.tail]
  }

  /** `read`: as `peek`, and a byte that is returned is consumed by moving
      the tail one slot on. The buffer and the transfer are not touched. */
  function Read(s: RxState): (r: (RxState, int))
    requires Valid(s)
    ensures Valid(r.0)
    ensures r.1 == Peek(s)
    ensures r.0.buf == s.buf && r.0.remaining == s.remaining
    ensures Available(s) == 0 ==> r.0 == s
    ensures Available(s) > 0 ==> r.0.tail == Inc(s.tail, |s.buf|)
    ensures Available(s) > 0 ==> Available(r.0) == Available(s) - 1
  {
    if Head(s) == s.tail then
      (s, -1)
    else
      var c: int := s.buf[s.tail];
      ModWrap(s.tail + 1, |s.buf|);
      (s.(tail := (s.tail + 1) % |s.buf|), c)
  }

  /** `peek` reports the front of the unread queue, and -1 exactly when the
      queue is empty. */
  lemma PeekIsOldestPending(s: RxState)
    requires Valid(s)
    ensures Peek(s) == -1 <==> Pending(s) == []
    ensures Peek(s) != -1 ==> Peek(s) == Pending(s)[0]
  {
    if Available(s) > 0 {
      assert Offset(s.tail, 0, |s.buf|) == s.tail;
    }
  }

  /** A successful `read` removes exactly the front of the unread queue. */
  lemma ReadPopsPending(s: RxState)
    requires Valid(s) && Available(s) > 0
    ensures Read(s).1 == Pending(s)[0]
    ensures Pending(Read(s).0) == Pending(s)[1..]
  {
    PeekIsOldestPending(s);
    var s' := Read(s).0;
    var n := |s.buf|;
    forall k | 0 <= k < Available(s')
      ensures Pending(s')[k] == Pending(s)[1..][k]
    {
      OffsetFromInc(s.tail, k, n);
    }
  }

  /** Arming a receive transfer of the whole buffer (`R_SCI_UART_Read` with
      SERIAL_RX_BUFFER_SIZE): the head returns to slot 0. */
  function Rearm(s: RxState): (r: RxState)
    requires Valid(s)
    ensures Valid(r)
    ensures Head(r) == 0
    ensures r.buf == s.buf && r.tail == s.tail
  {
    s.(remaining := |s.buf|)
  }

  /** Hardware step: the transfer engine stores one received byte at the
      head. When that was the last outstanding byte of the transfer, the
      RX-complete callback re-arms a new transfer over the same buffer. */
  function Transfer(s: RxState, b: byte): (r: RxState)
    requires Valid(s)
    ensures Valid(r)
    ensures |r.buf| == |s.buf| && r.tail == s.tail
    ensures Head(r) == Inc(Head(s), |s.buf|)
    ensures r.buf[Head(s)] == b
    ensures forall j :: 0 <= j < |s.buf| && j != Head(s) ==> r.buf[j] == s.buf[j]
  {
    var t := s.(buf := s.buf[Head(s) := b]);
    if s.remaining == 1 then Rearm(t) else t.(remaining := s.remaining - 1)
  }

  /** While there is room, a received byte joins the back of the unread queue
      and nothing already queued changes. */
  lemma TransferAppends(s: RxState, b: byte)
    requires Valid(s) && Available(s) < |s.buf| - 1
    ensures Available(Transfer(s, b)) == Available(s) + 1
    ensures Pending(Transfer(s, b)) == Pending(s) + [b]
  {
    var s' := Transfer(s, b);
    var n := |s.buf|;
    var a := Available(s);
    OffsetSucc(s.tail, a, n);
    DistUnique(s.tail, Head(s'), a + 1, n);
    assert |Pending(s')| == a + 1;
    forall k | 0 <= k <= a
      ensures Pending(s')[k] == (Pending(s) + [b])[k]
    {
      if k < a {
        OffsetInjective(s.tail, k, a, n);
      }
    }
  }

  /** Overrun: a byte arriving while SIZE - 1 bytes are unread moves the head
      onto the tail, so every unread byte (and the new one) disappears from
      `available`. The driver has no check against this. */
  lemma OverrunEmpties(s: RxState, b: byte)
    requires Valid(s) && Available(s) == |s.buf| - 1
    ensures Available(Transfer(s, b)) == 0
    ensures Peek(Transfer(s, b)) == -1
  {
    OffsetSucc(s.tail, Available(s) - 1, |s.buf|);
    assert Inc(Head(s), |s.buf|) == Offset(s.tail, 0, |s.buf|);
  }

  /** Actions on the receive path: a byte arriving on the line, or the
      application calling `read`. */
  datatype RxEvent = Arrive(b: byte) | Consume

  /** One event: the state after it, and the bytes a `read` returned (none
      for an arrival, and none for a `read` that returned -1). */
  function Step(s: RxState, ev: RxEvent): (r: (RxState, seq<byte>))
    requires Valid(s)
    ensures Valid(r.0) && |r.0.buf| == |s.buf|
    ensures ev.Arrive? ==> r.1 == []
    ensures ev.Consume? ==> |r.1| <= 1 && (r.1 == [] <==> Available(s) == 0)
  {
    match ev
    case Arrive(b) => (Transfer(s, b), [])
    case Consume =>
      var r := Read(s);
      (r.0, Returned(r.1))
  }

  /** What a `read` result contributes to the bytes received: nothing for -1. */
  function Returned(c: int): (r: seq<byte>)
    requires -1 <= c < 256
    ensures |r| <= 1 && (c >= 0 <==> r == [c])
  {
    if c == -1 then [] else [c]
  }

  /** Runs the events in order; the second component lists the bytes that
      `read` returned, in order. */
  function RunRx(s: RxState, evs: seq<RxEvent>): (r: (RxState, seq<byte>))
    requires Valid(s)
    ensures Valid(r.0) && |r.0.buf| == |s.buf|
    decreases |evs|
  {
    if evs == [] then
      (s, [])
    else
      var st := Step(s, evs[0]);
      var rest := RunRx(st.0, evs[1..]);
      (rest.0, st.1 + rest.1)
  }

  /** An arrival finds at least one free slot besides the one separating
      head from tail. */
  predicate Fits(s: RxState, ev: RxEvent)
    requires Valid(s)
  {
    ev.Arrive? ==> Available(s) < |s.buf| - 1
  }

  /** Every arrival in the run fits. */
  predicate NoOverrun(s: RxState, evs: seq<RxEvent>)
    requires Valid(s)
    decreases |evs|
  {
    evs == [] || (Fits(s, evs[0]) && NoOverrun(Step(s, evs[0]).0, evs[1..]))
  }

  /** The byte an event brings in, if any. */
  function Arrival(ev: RxEvent): (r: seq<byte>)
    ensures ev.Arrive? ==> r == [ev.b]
    ensures ev.Consume? ==> r == []
  {
    if ev.Arrive? then [ev.b] else []
  }

  /** The bytes that arrive during a run, in arrival order. */
  function Arrivals(evs: seq<RxEvent>): (r: seq<byte>) {
    if evs == [] then [] else Arrival(evs[0]) + Arrivals(evs[1..])
  }

  /** One event keeps the FIFO equation: what it returns followed by what is
      then unread is what was unread before followed by what it brought in. */
  lemma StepFifo(s: RxState, ev: RxEvent)
    requires Valid(s) && Fits(s, ev)
    ensures Step(s, ev).1 + Pending(Step(s, ev).0) == Pending(s) + Arrival(ev)
  {
    match ev
    case Arrive(b) =>
      TransferAppends(s, b);
    case Consume =>
      ReadStep(s);
  }

  /** Receive FIFO: without overrun, the bytes read followed by the bytes
      still unread are exactly the bytes that were unread at the start
      followed by the bytes that arrived, in order. Nothing is lost,
      duplicated or reordered. */
  lemma {:induction false} RxFifo(s: RxState, evs: seq<RxEvent>)
    requires Valid(s) && NoOverrun(s, evs)
    ensures RunRx(s, evs).1 + Pending(RunRx(s, evs).0) == Pending(s) + Arrivals(evs)
    decreases |evs|
  {
    if evs != [] {
      var st := Step(s, evs[0]);
      var rest := RunRx(st.0, evs[1..]);
      StepFifo(s, evs[0]);
      RxFifo(st.0, evs[1..]);
      AppendChain(st.1, rest.1, Pending(rest.0), Pending(s), Pending(st.0), Arrival(evs[0]), Arrivals(evs[1..]));
    }
  }

  /** The sequence algebra of one induction step of `RxFifo`: a step
      equation followed by the equation for the rest of the run. */
  lemma AppendChain(out: seq<byte>, outRest: seq<byte>, last: seq<byte>,
                    before: seq<byte>, mid: seq<byte>, arrived: seq<byte>, arrivedRest: seq<byte>)
    requires out + mid == before + arrived
    requires outRest + last == mid + arrivedRest
    ensures (out + outRest) + last == before + (arrived + arrivedRest)
  {
    calc {
      (out + outRest) + last;
      out + (outRest + last);
      out + (mid + arrivedRest);
      (out + mid) + arrivedRest;
      (before + arrived) + arrivedRest;
    }
  }

  /** One `read`: what it returns followed by what is then unread is what was
      unread before it. */
  lemma ReadStep(s: RxState)
    requires Valid(s)
    ensures Returned(Read(s).1) + Pending(Read(s).0) == Pending(s)
  {
    if Available(s) > 0 {
      ReadPopsPending(s);
      assert Pending(s) == [Pending(s)[0]] + Pending(s)[1..];
    }
  }

  /** The receive part of `begin` as written: a fresh buffer, a transfer
      armed over all of it, and the tail left at whatever value the previous
      session had reached (`_rx_buffer_tail` is only zero before the first
      `begin`). */
  function BeginAsWritten(priorTail: nat, mem: seq<byte>): (r: RxState)
    requires |mem| >= 2 && priorTail < |mem|
    ensures Valid(r) && r.buf == mem && Head(r) == 0
    ensures r.tail == priorTail
  {
    RxState(mem, priorTail, |mem|)
  }

  /** After `begin` as written, the slots from the old tail to the end of the
      new buffer read as unread data although nothing has been received. */
  lemma BeginAsWrittenAvailable(priorTail: nat, mem: seq<byte>)
    requires |mem| >= 2 && priorTail < |mem|
    ensures Available(BeginAsWritten(priorTail, mem)) == if priorTail == 0 then 0 else |mem| - priorTail
    ensures priorTail > 0 ==> Pending(BeginAsWritten(priorTail, mem)) == mem[priorTail..]
  {
    var r := BeginAsWritten(priorTail, mem);
    if priorTail > 0 {
      assert Pending(r) == mem[priorTail..];
    }
  }

  /** Re-opening a channel after one byte was received and read: with
      nothing received since, `available` reports SIZE - 1 bytes and `peek`
      returns the uninitialised content of the new buffer. */
  lemma BeginAsWrittenReportsPhantomBytes()
    ensures var first := BeginAsWritten(0, [0, 0, 0, 0]);
            var used := Read(Transfer(first, 65)).0;
            var again := BeginAsWritten(used.tail, [7, 7, 7, 7]);
            && Available(first) == 0
            && used.tail == 1
            && Available(again) == 3
            && Peek(again) == 7
  {
    var first := BeginAsWritten(0, [0, 0, 0, 0]);
    var t := Transfer(first, 65);
    assert Head(t) == 1;
  }

  /** The receive part of `begin` with the tail reset together with the
      head: a freshly opened channel has nothing to read. */
  function Begin(mem: seq<byte>): (r: RxState)
    requires |mem| >= 2
    ensures Valid(r) && r.buf == mem
    ensures Available(r) == 0 && Pending(r) == [] && Peek(r) == -1
  {
    RxState(mem, 0, |mem|)
  }

  /** Both versions agree on the first `begin`, when the static tail is still
      zero; they differ only when a channel is opened again. */
  lemma BeginAgreesOnFirstCall(mem: seq<byte>)
    requires |mem| >= 2
    ensures BeginAsWritten(0, mem) == Begin(mem)
  {
  }
}
