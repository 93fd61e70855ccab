/**
  The frame format chosen in `begin`: the `config` argument selects one of
  six presets, each of which sets the data bits, the parity and the stop bits
  of the UART configuration. Any other value leaves the three fields as they
  were in the board's default configuration. The numeric values of the
  SERIAL_8xx presets live in a header that is not part of this model; the
  argument is modelled as one of the six presets or some other value.
 */
module FrameConfig {

  datatype DataBits = DataBits7 | DataBits8 | DataBits9

  datatype Parity = ParityOff | ParityEven | ParityOdd

  datatype StopBits = StopBits1 | StopBits2

  /** The framing fields of the vendor's `uart_cfg_t`. */
  datatype UartCfg = UartCfg(dataBits: DataBits, parity: Parity, stopBits: StopBits)

  /** The `config` argument of `begin`. */
  datatype SerialConfig =
    | Serial8N1 | Serial8N2
    | Serial8E1 | Serial8E2
    | Serial8O1 | Serial8O2
    | Unrecognized(code: int)

  /** The `switch (config)` of `begin`, applied to a copy `base` of the
      default configuration. The letter of a preset names the parity (None,
      Even, Odd) and its final digit the number of stop bits. */
  function ApplyFrame(base: UartCfg, config: SerialConfig): (r: UartCfg)
    ensures config.Unrecognized? ==> r == base
    ensures !config.Unrecognized? ==> r.dataBits == DataBits8
    ensures config == Serial8N1 || config == Serial8N2 ==> r.parity == ParityOff
    ensures config == Serial8E1 || config == Serial8E2 ==> r.parity == ParityEven
    ensures config == Serial8O1 || config == Serial8O2 ==> r.parity == ParityOdd
    ensures config == Serial8N1 || config == Serial8E1 || config == Serial8O1 ==> r.stopBits == StopBits1
    ensures config == Serial8N2 || config == Serial8E2 || config == Serial8O2 ==> r.stopBits == StopBits2
  {
    match config
    case Serial8N1 => UartCfg(DataBits8, ParityOff, StopBits1)
    case Serial8N2 => UartCfg(DataBits8, ParityOff, StopBits2)
    case Serial8E1 => UartCfg(DataBits8, ParityEven, StopBits1)
    case Serial8E2 => UartCfg(DataBits8, ParityEven, StopBits2)
    case Serial8O1 => UartCfg(DataBits8, ParityOdd, StopBits1)
    case Serial8O2 => UartCfg(DataBits8, ParityOdd, StopBits2)
    case Unrecognized(_) => base
  }

  /** The preset that produces an 8-bit frame: the inverse of `ApplyFrame`
      on presets. */
  function PresetFor(cfg: UartCfg): (p: SerialConfig)
    requires cfg.dataBits == DataBits8
    ensures !p.Unrecognized?
  {
    match (cfg.parity, cfg.stopBits)
    case (ParityOff, StopBits1) => Serial8N1
    case (ParityOff, StopBits2) => Serial8N2
    case (ParityEven, StopBits1) => Serial8E1
    case (ParityEven, StopBits2) => Serial8E2
    case (ParityOdd, StopBits1) => Serial8O1
    case (ParityOdd, StopBits2) => Serial8O2
  }

  /** The six presets and the six 8-bit frames correspond one to one: each
      preset is recovered from the frame it sets, and each 8-bit frame is
      set by its preset whatever the default configuration was. */
  lemma PresetsBijective(base: UartCfg, p: SerialConfig, cfg: UartCfg)
    ensures !p.Unrecognized? ==> PresetFor(ApplyFrame(base, p)) == p
    ensures cfg.dataBits == DataBits8 ==> ApplyFrame(base, PresetFor(cfg)) == cfg
  {
  }

  /** Distinct presets never select the same frame. */
  lemma PresetsDistinct(base: UartCfg, p: SerialConfig, q: SerialConfig)
    requires !p.Unrecognized? && !q.Unrecognized?
    ensures ApplyFrame(base, p) == ApplyFrame(base, q) <==> p == q
  {
    PresetsBijective(base, p, ApplyFrame(base, p));
    PresetsBijective(base, q, ApplyFrame(base, q));
  }
}
