/**
  Transmit path. The driver keeps ONE transmit ring for all channels (the
  globals `tx_buff`, `to_send_i`, `send_i`, `tx_status`): `write` stores at
  the producer index `to_send_i`, the hardware sends one byte at a time from
  the send index `send_i`, and the TX-complete callback chains the next byte.
  Both indices start at -1. Each call to `R_SCI_UART_Write` is modelled as
  appending the byte it is given to `sent`, the bytes handed to the line.
 */
module SerialTx {
  import opened Ring

  datatype TxStatus = Stopped | Started

  /** `buf` is `tx_buff` (length SERIAL_TX_BUFFER_SIZE), `toSend` is
      `to_send_i`, `send` is `send_i`, `status` is `tx_status`. */
  datatype TxState = TxState(buf: seq<byte>, toSend: int, send: int, status: TxStatus, sent: seq<byte>)

  predicate Valid(s: TxState) {
    && |s.buf| >= 2
    && -1 <= s.toSend < |s.buf|
    && -1 <= s.send < |s.buf|
  }

  /** The state before any `write`: static storage is zeroed, both indices
      are -1 and the line is idle. */
  function Init(n: nat): (s: TxState)
    requires n >= 2
    ensures Valid(s) && |s.buf| == n
    ensures s.sent == [] && Queued(s) == []
    ensures WriteEnabled(s)
  {
    TxState(seq(n, _ => 0), -1, -1, Stopped, [])
  }

  /** The busy-wait at the top of `write` ends once the producer index is not
      the slot just before the send index. */
  function WriteEnabled(s: TxState): (b: bool)
    requires Valid(s)
    ensures s.send >= 0 && s.toSend >= 0 ==> (b <==> Inc(s.toSend, |s.buf|) != s.send)
  {
    s.toSend != Previous(s.send, |s.buf|)
  }

  /** `write(c)`, for a state in which its busy-wait has ended. */
  function Write(s: TxState, c: byte): (r: (TxState, int))
    requires Valid(s) && WriteEnabled(s)
    ensures Valid(r.0) && |r.0.buf| == |s.buf|
    ensures r.1 == 1
    ensures r.0.toSend == Inc(s.toSend, |s.buf|) && r.0.buf[r.0.toSend] == c
    ensures forall j :: 0 <= j < |s.buf| && j != r.0.toSend ==> r.0.buf[j] == s.buf[j]
    ensures s.toSend >= 0 && s.send >= 0 ==> r.0.toSend != s.send
    ensures s.status == Stopped ==>
              && r.0.status == Started
              && r.0.send == Inc(s.send, |s.buf|)
              && r.0.sent == s.sent + [r.0.buf[r.0.send]]
    ensures s.status == Started ==>
              r.0.status == Started && r.0.send == s.send && r.0.sent == s.sent
  {
    var n := |s.buf|;
    var toSend := Inc(s.toSend, n);
    var buf := s.buf[toSend := c];
    if s.status == Stopped then
      var send := Inc(s.send, n);
      (TxState(buf, toSend, send, Started, s.sent + [buf[send]]), 1)
    else
      (s.(buf := buf, toSend := toSend), 1)
  }

  /** The TX-complete branch of the UART callback: chain the next queued
      byte, or stop when the byte just sent was the last one written. */
  function OnTxComplete(s: TxState): (r: TxState)
    requires Valid(s)
    ensures Valid(r) && r.buf == s.buf && r.toSend == s.toSend
    ensures s.send != s.toSend ==>
              && r.send == Inc(s.send, |s.buf|)
              && r.status == s.status
              && r.sent == s.sent + [s.buf[r.send]]
    ensures s.send == s.toSend ==>
              r.status == Stopped && r.send == s.send && r.sent == s.sent
  {
    if s.send != s.toSend then
      var send := Inc(s.send, |s.buf|);
      s.(send := send, sent := s.sent + [s.buf[send]])
    else
      s.(status := Stopped)
  }

  /** The bytes written but not yet handed to the line, oldest first: the
      slots after the send index up to and including the producer index. */
  function Queued(s: TxState): (q: seq<byte>)
    requires Valid(s)
    ensures |q| < |s.buf|
    ensures s.send == s.toSend ==> q == []
  {
    if s.send < 0 || s.toSend < 0 then
      []
    else
      var d := Dist(s.send, s.toSend, |s.buf|);
      seq(d, k requires 0 <= k < d => s.buf[Offset(s.send, k + 1, |s.buf|)])
  }

  /** The ring invariant relating a state to the bytes `written` so far:
      the indices are -1 together and only before the first write, an idle
      line has nothing queued, and what was sent followed by what is queued
      is exactly what was written. */
  predicate Consistent(s: TxState, written: seq<byte>) {
    && Valid(s)
    && (s.send == -1 <==> s.toSend == -1)
    && (s.send == -1 ==> s.status == Stopped)
    && (s.status == Stopped ==> s.send == s.toSend)
    && written == s.sent + Queued(s)
  }

  lemma InitConsistent(n: nat)
    requires n >= 2
    ensures Consistent(Init(n), [])
  {
  }

  /** The busy-wait blocks exactly when SIZE - 1 bytes are queued, i.e. when
      the next producer slot would be the one being sent. */
  lemma WriteEnabledIff(s: TxState, written: seq<byte>)
    requires Consistent(s, written)
    ensures WriteEnabled(s) <==> |Queued(s)| < |s.buf| - 1
  {
    var n := |s.buf|;
    if s.send >= 0 {
      PreviousInverts(s.send, s.toSend, n);
      var d := Dist(s.send, s.toSend, n);
      if d + 1 < n {
        OffsetSucc(s.send, d, n);
        OffsetInjective(s.send, d + 1, 0, n);
      } else {
        OffsetSucc(s.send, d - 1, n);
        assert Offset(s.send, d, n) == Inc(Offset(s.send, d - 1, n), n);
      }
    }
  }

  /** A blocked writer is waiting on a line that is busy, so a TX-complete
      event is still due; that event unblocks it. */
  lemma BlockedWriteUnblocks(s: TxState, written: seq<byte>)
    requires Consistent(s, written) && !WriteEnabled(s)
    ensures s.status == Started
    ensures WriteEnabled(OnTxComplete(s))
  {
    WriteEnabledIff(s, written);
    OnTxCompletePreserves(s, written);
    WriteEnabledIff(OnTxComplete(s), written);
  }

  /** On a busy line, `write` appends its byte to the queue and leaves the
      queued bytes in place. */
  lemma WriteQueues(s: TxState, written: seq<byte>, c: byte)
    requires Consistent(s, written) && WriteEnabled(s) && s.status == Started
    ensures Queued(Write(s, c).0) == Queued(s) + [c]
  {
    var s' := Write(s, c).0;
    var n := |s.buf|;
    WriteEnabledIff(s, written);
    var d := Dist(s.send, s.toSend, n);
    OffsetSucc(s.send, d, n);
    DistUnique(s.send, s'.toSend, d + 1, n);
    assert |Queued(s')| == d + 1;
    forall k | 0 <= k <= d
      ensures Queued(s')[k] == (Queued(s) + [c])[k]
    {
      if k < d {
        OffsetInjective(s.send, k + 1, d + 1, n);
      }
    }
  }

  /** `write` keeps the ring invariant, with its byte appended to what was
      written. */
  lemma WritePreserves(s: TxState, written: seq<byte>, c: byte)
    requires Consistent(s, written) && WriteEnabled(s)
    ensures Consistent(Write(s, c).0, written + [c])
  {
    if s.status == Started {
      WriteQueues(s, written, c);
    }
  }

  /** On a line with bytes queued, the TX-complete event takes the oldest
      queued byte off the queue. */
  lemma OnTxCompleteDequeues(s: TxState, written: seq<byte>)
    requires Consistent(s, written) && s.send != s.toSend
    ensures Queued(s) != []
    ensures Queued(s) == [OnTxComplete(s).sent[|s.sent|]] + Queued(OnTxComplete(s))
  {
    var s' := OnTxComplete(s);
    var n := |s.buf|;
    var d := Dist(s.send, s.toSend, n);
    OffsetFromInc(s.send, d - 1, n);
    DistUnique(s'.send, s.toSend, d - 1, n);
    var x := s'.sent[|s.sent|];
    assert |Queued(s')| == d - 1;
    assert Offset(s.send, 1, n) == s'.send;
    forall k | 0 <= k < d
      ensures Queued(s)[k] == ([x] + Queued(s'))[k]
    {
      if k > 0 {
        OffsetFromInc(s.send, k, n);
      }
    }
  }

  /** The TX-complete event keeps the ring invariant without changing what
      was written: it only moves the oldest queued byte onto the line. */
  lemma OnTxCompletePreserves(s: TxState, written: seq<byte>)
    requires Consistent(s, written)
    ensures Consistent(OnTxComplete(s), written)
    ensures |Queued(OnTxComplete(s))| == if s.send == s.toSend then 0 else |Queued(s)| - 1
  {
    if s.send != s.toSend {
      var s' := OnTxComplete(s);
      var x := s'.sent[|s.sent|];
      OnTxCompleteDequeues(s, written);
      assert s'.sent == s.sent + [x];
      calc {
        written;
        s.sent + Queued(s);
        s.sent + ([x] + Queued(s'));
        (s.sent + [x]) + Queued(s');
        s'.sent + Queued(s');
      }
    }
  }

  /** A write to an idle line sends exactly the byte just written. */
  lemma WriteOnIdleSendsIt(s: TxState, written: seq<byte>, c: byte)
    requires Consistent(s, written) && WriteEnabled(s) && s.status == Stopped
    ensures Write(s, c).0.sent == s.sent + [c]
  {
  }

  /** The actions on the transmit ring: the application's `write`, and the
      hardware's TX-complete event. */
  datatype TxEvent = WriteByte(c: byte) | TxDone

  /** `write` may run once its busy-wait has ended; a TX-complete event may
      always occur. */
  predicate Allowed(s: TxState, ev: TxEvent)
    requires Valid(s)
  {
    ev.WriteByte? ==> WriteEnabled(s)
  }

  /** One event applied to the ring. */
  function Step(s: TxState, ev: TxEvent): (r: TxState)
    requires Valid(s) && Allowed(s, ev)
    ensures Valid(r) && |r.buf| == |s.buf|
    ensures s.sent <= r.sent && |r.sent| <= |s.sent| + 1
    ensures ev.WriteByte? ==> r.toSend == Inc(s.toSend, |s.buf|) && r.buf[r.toSend] == ev.c
    ensures ev.TxDone? ==> r.buf == s.buf && r.toSend == s.toSend
  {
    match ev
    case WriteByte(c) => Write(s, c).0
    case TxDone => OnTxComplete(s)
  }

  /** A run in which every `write` finds its busy-wait ended. */
  predicate Enabled(s: TxState, evs: seq<TxEvent>)
    requires Valid(s)
    decreases |evs|
  {
    evs == [] || (Allowed(s, evs[0]) && Enabled(Step(s, evs[0]), evs[1..]))
  }

  function Run(s: TxState, evs: seq<TxEvent>): (r: TxState)
    requires Valid(s) && Enabled(s, evs)
    ensures Valid(r) && |r.buf| == |s.buf|
    decreases |evs|
  {
    if evs == [] then s else Run(Step(s, evs[0]), evs[1..])
  }

  /** The byte an event passes to `write`, if any. */
  function WrittenBy(ev: TxEvent): (r: seq<byte>)
    ensures ev.WriteByte? ==> r == [ev.c]
    ensures ev.TxDone? ==> r == []
  {
    if ev.WriteByte? then [ev.c] else []
  }

  /** The bytes passed to `write` during a run, in call order. */
  function Written(evs: seq<TxEvent>): (r: seq<byte>) {
    if evs == [] then [] else WrittenBy(evs[0]) + Written(evs[1..])
  }

  /** One event keeps the ring invariant, extending what was written by the
      byte it writes. */
  lemma StepPreserves(s: TxState, written: seq<byte>, ev: TxEvent)
    requires Consistent(s, written) && Allowed(s, ev)
    ensures Consistent(Step(s, ev), written + WrittenBy(ev))
  {
    match ev
    case WriteByte(c) =>
      WritePreserves(s, written, c);
    case TxDone =>
      OnTxCompletePreserves(s, written);
      assert written + WrittenBy(ev) == written;
  }

  /** Any interleaving of writes and TX-complete events keeps the ring
      invariant, extending what was written by the run's writes. */
  lemma {:induction false} RunPreserves(s: TxState, written: seq<byte>, evs: seq<TxEvent>)
    requires Consistent(s, written) && Enabled(s, evs)
    ensures Consistent(Run(s, evs), written + Written(evs))
    decreases |evs|
  {
    if evs != [] {
      var s1 := Step(s, evs[0]);
      var w1 := written + WrittenBy(evs[0]);
      assert w1 + Written(evs[1..]) == written + Written(evs);
      assert Run(s, evs) == Run(s1, evs[1..]);
      StepPreserves(s, written, evs[0]);
      RunPreserves(s1, w1, evs[1..]);
    }
  }

  /** Transmit FIFO: from the initial state, the bytes handed to the line
      are always a prefix of the bytes written, in write order; the rest are
      queued, and an idle line has sent everything. */
  lemma TxFifo(n: nat, evs: seq<TxEvent>)
    requires n >= 2 && Enabled(Init(n), evs)
    ensures Run(Init(n), evs).sent <= Written(evs)
    ensures Run(Init(n), evs).sent + Queued(Run(Init(n), evs)) == Written(evs)
    ensures Run(Init(n), evs).status == Stopped ==> Run(Init(n), evs).sent == Written(evs)
  {
    RunPreserves(Init(n), [], evs);
    var r := Run(Init(n), evs);
    assert [] + Written(evs) == Written(evs);
    assert Written(evs) == r.sent + Queued(r);
    assert (r.sent + Queued(r))[..|r.sent|] == r.sent;
  }

  /** `k` TX-complete events with no write in between. */
  function Complete(s: TxState, k: nat): (r: TxState)
    requires Valid(s)
    ensures Valid(r)
    decreases k
  {
    if k == 0 then s else Complete(OnTxComplete(s), k - 1)
  }

  /** Draining: once writes stop, one TX-complete per queued byte plus the
      final one leave the line idle with everything written sent. */
  lemma {:induction false} CompleteDrains(s: TxState, written: seq<byte>)
    requires Consistent(s, written)
    ensures Complete(s, |Queued(s)| + 1).status == Stopped
    ensures Complete(s, |Queued(s)| + 1).sent == written
    decreases |Queued(s)|
  {
    OnTxCompletePreserves(s, written);
    if s.send != s.toSend {
      CompleteDrains(OnTxComplete(s), written);
    }
  }
}
