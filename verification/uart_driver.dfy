/**
  One UART channel as the application and the interrupt layer see it: its
  receive state, the (global) transmit ring and the frame configuration, with
  the vendor callback's dispatch on event kinds and the state set up by
  `begin`. Every transition is one atomic step.
 */
module UartDriver {
  import opened Ring
  import Rx = SerialRx
  import Tx = SerialTx
  import Frame = FrameConfig

  /** The event kinds the vendor layer delivers to the callback. */
  datatype UartEvent =
    | RxComplete
    | ErrParity | ErrFraming | ErrOverflow
    | TxComplete
    | RxChar | BreakDetect | TxDataEmpty

  predicate IsLineError(ev: UartEvent) {
    ev.ErrParity? || ev.ErrFraming? || ev.ErrOverflow?
  }

  datatype Driver = Driver(rx: Rx.RxState, tx: Tx.TxState, cfg: Frame.UartCfg)

  predicate Valid(d: Driver) {
    Rx.Valid(d.rx) && Tx.Valid(d.tx)
  }

  /** `WrapperCallback`: a completed receive window re-arms the transfer, a
      completed transmission chains the next byte or stops the line, and
      every other event (line errors included) is ignored. */
  function WrapperCallback(d: Driver, ev: UartEvent): (r: Driver)
    requires Valid(d)
    ensures Valid(r) && r.cfg == d.cfg
    ensures ev.RxComplete? ==> r.tx == d.tx && Rx.Head(r.rx) == 0
    ensures ev.RxComplete? ==> r.rx.buf == d.rx.buf && r.rx.tail == d.rx.tail
    ensures ev.TxComplete? ==> r.rx == d.rx && r.tx == Tx.OnTxComplete(d.tx)
    ensures !ev.RxComplete? && !ev.TxComplete? ==> r == d
  {
    match ev
    case RxComplete => d.(rx := Rx.Rearm(d.rx))
    case TxComplete => d.(tx := Tx.OnTxComplete(d.tx))
    case _ => d
  }

  /** Parity, framing and overflow errors are dropped: what the application
      can read and what is queued or sent are exactly as before. */
  lemma LineErrorsChangeNothing(d: Driver, ev: UartEvent)
    requires Valid(d) && IsLineError(ev)
    ensures Rx.Available(WrapperCallback(d, ev).rx) == Rx.Available(d.rx)
    ensures Rx.Pending(WrapperCallback(d, ev).rx) == Rx.Pending(d.rx)
    ensures Tx.Queued(WrapperCallback(d, ev).tx) == Tx.Queued(d.tx)
    ensures WrapperCallback(d, ev).tx.sent == d.tx.sent
  {
  }

  /** No callback breaks the transmit ring invariant, and only TX-complete
      hands a byte to the line. */
  lemma CallbackKeepsTxConsistent(d: Driver, ev: UartEvent, written: seq<byte>)
    requires Valid(d) && Tx.Consistent(d.tx, written)
    ensures Tx.Consistent(WrapperCallback(d, ev).tx, written)
    ensures !ev.TxComplete? ==> WrapperCallback(d, ev).tx.sent == d.tx.sent
  {
    if ev.TxComplete? {
      Tx.OnTxCompletePreserves(d.tx, written);
    }
  }

  /** `begin(baudrate, config)`: the frame fields chosen by `config` on top
      of the default configuration, and a receive transfer armed over a new
      buffer of the same size. `_rx_buffer_tail` is static and `begin` does not
      touch it, so on a re-`begin` the slots from the old tail to the end of the
      new buffer count as unread. The transmit ring is global and is left as
      it was. */
  function Begin(d: Driver, base: Frame.UartCfg, config: Frame.SerialConfig, mem: seq<byte>): (r: Driver)
    requires Valid(d) && |mem| == |d.rx.buf|
    ensures Valid(r)
    ensures r.cfg == Frame.ApplyFrame(base, config)
    ensures r.rx.buf == mem && Rx.Head(r.rx) == 0 && r.rx.tail == d.rx.tail
    ensures Rx.Available(r.rx) == (|mem| - d.rx.tail) % |mem|
    ensures d.rx.tail == 0 ==> Rx.Available(r.rx) == 0 && Rx.Peek(r.rx) == -1
    ensures d.rx.tail > 0 ==> Rx.Peek(r.rx) == mem[d.rx.tail]
    ensures d.rx.tail > 0 ==> Rx.Pending(r.rx) == mem[d.rx.tail..]
    ensures r.tx == d.tx
  {
    Rx.BeginAsWrittenAvailable(d.rx.tail, mem);
    Driver(Rx.BeginAsWritten(d.rx.tail, mem), d.tx, Frame.ApplyFrame(base, config))
  }

  /** `begin` with the receive tail reset together with the head: the
      channel starts with nothing to read whatever the previous session
      consumed. */
  function BeginCorrected(d: Driver, base: Frame.UartCfg, config: Frame.SerialConfig, mem: seq<byte>): (r: Driver)
    requires Valid(d) && |mem| == |d.rx.buf|
    ensures Valid(r)
    ensures r.cfg == Frame.ApplyFrame(base, config)
    ensures r.rx.buf == mem && Rx.Available(r.rx) == 0 && Rx.Peek(r.rx) == -1
    ensures Rx.Pending(r.rx) == []
    ensures r.tx == d.tx
  {
    Driver(Rx.Begin(mem), d.tx, Frame.ApplyFrame(base, config))
  }

  /** The two agree exactly when the previous session left the tail at 0, as
      before the first `begin`. */
  lemma BeginDiffersOnlyAfterReads(d: Driver, base: Frame.UartCfg, config: Frame.SerialConfig, mem: seq<byte>)
    requires Valid(d) && |mem| == |d.rx.buf|
    ensures Begin(d, base, config, mem) == BeginCorrected(d, base, config, mem) <==> d.rx.tail == 0
  {
  }

  /** `begin(baudrate)` opens the channel as 8 data bits, no parity, one stop
      bit, whatever the default configuration says. */
  function BeginDefault(d: Driver, base: Frame.UartCfg, mem: seq<byte>): (r: Driver)
    requires Valid(d) && |mem| == |d.rx.buf|
    ensures Valid(r)
    ensures r.cfg == Frame.UartCfg(Frame.DataBits8, Frame.ParityOff, Frame.StopBits1)
    ensures r.rx == Rx.BeginAsWritten(d.rx.tail, mem) && r.tx == d.tx
  {
    Begin(d, base, Frame.Serial8N1, mem)
  }
}
