# UART buffer discipline of the Renesas Arduino core

A Dafny model of the byte-buffer logic of the UART driver in
`cores/arduino/Serial.cpp`: the DMA-fed receive path (`available`, `peek`,
`read`, `get_rx_buffer_head`), the interrupt-chained transmit ring (`write` and
the TX-complete branch of `WrapperCallback`), the callback's dispatch on event
kinds, and the frame-format `switch (config)` of `begin`.

The model is a sequential state machine over immutable records. Application
calls and hardware actions are separate pure transition functions, and any
interleaving of them is a sequence of atomic steps:

- `ring.dfy` (module `Ring`) holds the index helpers. The driver's headers
  define `inc`, `previous` and the two buffer sizes, and those headers are not
  part of this model. The following are modelling assumptions:
  - each size is a parameter `N >= 2`;
  - `inc(i) = (i + 1) mod N`;
  - `previous(i) = (i + N - 1) mod N`.

  Every index passed to them is at least -1, so C's `%` and Dafny's `%` agree.
- `serial_rx.dfy` (module `SerialRx`) is the receive path. The driver never
  stores a head. It is `SIZE - remaining`, where `remaining` is the length the
  transfer engine still has to move, taken with `1 <= remaining <= SIZE`. The
  consumer owns only the tail. `Transfer` is the hardware step: it stores one
  byte at the head. When that byte completes the transfer, the same step also
  performs the re-arm done by the RX-complete callback, so `remaining` goes back
  to `SIZE`.
- `serial_tx.dfy` (module `SerialTx`) is the transmit ring. It is global, not
  per channel, with:
  - `to_send_i` and `send_i`, both starting at -1;
  - a STOPPED/STARTED status.

  Each call to `R_SCI_UART_Write` appends the byte it is given to `sent`. The
  busy-wait at the top of `write` becomes the precondition `WriteEnabled`.
  `Consistent(s, written)` is the ring invariant: the bytes sent, followed by
  the bytes queued, are exactly the bytes written.
- `frame_config.dfy` (module `FrameConfig`) is the preset-to-frame mapping.
- `uart_driver.dfy` (module `UartDriver`) combines these into one channel. It
  holds `WrapperCallback`'s event dispatch and `begin`.

Hardware effects, the vendor layer and busy-waits are represented like this:

- **Transfer engine:** it is the source of `remaining`, a field of `RxState`.
  `Transfer` advances it.
- **`R_SCI_UART_Write`:** it is "emit one byte", i.e. append to `sent`.
- **Busy-waits and `while(1)` halts:** the halts on a failed vendor call are
  preconditions. The `write` busy-wait is the `WriteEnabled` precondition.
  `BlockedWriteUnblocks` shows that a blocked writer always has a TX-complete
  event still due, and that this event releases it.

Two behaviours of the code that the model keeps as they are:

- On receive overrun the head lands on the tail, so `available()` falls to 0
  and every unread byte is lost (`OverrunEmpties`).
- `flush` watches `_tx_buffer_head/_tx_buffer_tail/_sending`, which `write`
  never updates, so it does not wait for the ring that `write` fills (see
  "Left out").

`UartDriver.Begin` is `begin` as written: the static `_rx_buffer_tail` survives
a re-`begin` (see "Findings"). `UartDriver.BeginCorrected` is the version with
the tail reset.

## Model

| member | source | states |
|---|---|---|
| Ring.Inc | cores/arduino/Serial.cpp:321-325 | the result is a valid slot: the next index, with the last slot wrapping to 0 and the initial -1 going to 0 |
| Ring.Previous | cores/arduino/Serial.cpp:320 | the result is a valid slot: the index before, with 0 wrapping to the last slot; for the initial -1 it is `N - 2` |
| Ring.PreviousInverts | cores/arduino/Serial.cpp:320-321 | on valid slots, `previous(i) == j` holds exactly when `inc(j) == i`, so the busy-wait condition is "the next producer slot is the send slot" |
| SerialRx.Head | cores/arduino/Serial.cpp:347-354 | the derived head `SIZE - remaining` always names a buffer slot; it is 0 exactly when a full window is outstanding |
| SerialRx.Available | cores/arduino/Serial.cpp:283-285 | the count lies in `[0, SIZE)` and is 0 exactly when head == tail; it is the number of forward steps from the tail to the head |
| SerialRx.Peek | cores/arduino/Serial.cpp:287-293 | returns -1 exactly when nothing is available, and otherwise the byte at the tail; the result is -1 or a byte value |
| SerialRx.Read | cores/arduino/Serial.cpp:295-303 | returns what `peek` would return; an empty read changes nothing; a non-empty read advances the tail by one slot (mod SIZE), lowers `available` by exactly 1 and leaves the buffer and the transfer untouched |
| SerialRx.PeekIsOldestPending | cores/arduino/Serial.cpp:287-293 | `peek` is -1 exactly when the unread queue is empty, and otherwise it is the oldest unread byte |
| SerialRx.ReadPopsPending | cores/arduino/Serial.cpp:295-303 | a successful `read` returns the oldest unread byte and leaves the rest of the unread queue in order |
| SerialRx.ReadStep | cores/arduino/Serial.cpp:295-303 | what a `read` returns, followed by what remains unread, is what was unread before the call |
| SerialRx.Rearm | cores/arduino/Serial.cpp:68-72 | re-arming a full-buffer receive moves the head to slot 0 and keeps the buffer and the tail |
| SerialRx.Transfer | cores/arduino/Serial.cpp:68-72 | a received byte is stored at the head, every other slot is unchanged, the head advances by one slot (wrapping through the re-arm), and the tail is not touched |
| SerialRx.TransferAppends | cores/arduino/Serial.cpp:283-285 | while fewer than `SIZE - 1` bytes are unread, an arrival raises `available` by 1 and appends exactly that byte to the unread queue |
| SerialRx.OverrunEmpties | cores/arduino/Serial.cpp:283-293 | an arrival with `SIZE - 1` bytes unread makes `available` 0 and `peek` -1, so all unread data disappears |
| SerialRx.Step | cores/arduino/Serial.cpp:295-303 | one arrival or `read`: an arrival returns nothing; a `read` returns one byte exactly when something was available, and nothing otherwise |
| SerialRx.StepFifo | cores/arduino/Serial.cpp:283-303 | for one event that does not overrun, the bytes it returns, followed by what is then unread, equal what was unread before followed by the byte it brought in |
| SerialRx.RunRx | cores/arduino/Serial.cpp:283-303 | any sequence of arrivals and reads keeps the receive state well formed |
| SerialRx.RxFifo | cores/arduino/Serial.cpp:283-303 | without overrun, the bytes read, followed by those still unread, equal the bytes unread at the start followed by the arrivals, in order |
| SerialRx.BeginAsWritten | cores/arduino/Serial.cpp:242-255 | `begin` as written: a new buffer and a transfer armed over it (head 0), with the tail kept from before |
| SerialRx.BeginAsWrittenAvailable | cores/arduino/Serial.cpp:242-255 | after `begin` as written with old tail `t > 0`, `available()` is `SIZE - t` and the unread bytes are exactly the new buffer's slots from `t` to the end; with `t = 0` nothing is unread |
| SerialRx.BeginAsWrittenReportsPhantomBytes | cores/arduino/Serial.cpp:242-255 | with the code as written, `begin`, one byte received and read, `end`, then `begin` again leaves `available()` at 3 and `peek` returning buffer garbage |
| SerialRx.Begin | cores/arduino/Serial.cpp:242-255 | with the tail reset as well, a freshly begun channel has `available()` 0, `peek` -1 and an empty unread queue |
| SerialRx.BeginAgreesOnFirstCall | cores/arduino/Serial.cpp:34 | when the static tail is still 0, as before the first `begin`, the two versions coincide |
| SerialTx.Init | cores/arduino/Serial.cpp:42-48 | the power-up transmit state is well formed, has nothing sent or queued, and lets the first `write` through |
| SerialTx.InitConsistent | cores/arduino/Serial.cpp:42-48 | the initial state satisfies the ring invariant with nothing written |
| SerialTx.Write | cores/arduino/Serial.cpp:318-330 | stores `c` at `inc(to_send_i)` and leaves every other slot unchanged; never overwrites the slot being sent; returns 1; on a STOPPED line it becomes STARTED, advances `send_i` and sends exactly one byte; on a STARTED line it sends nothing and keeps `send_i` |
| SerialTx.OnTxComplete | cores/arduino/Serial.cpp:79-89 | with bytes still queued, it advances `send_i`, sends exactly `tx_buff[send_i]` and keeps the status; otherwise it becomes STOPPED and sends nothing; the buffer and `to_send_i` are untouched |
| SerialTx.Queued | cores/arduino/Serial.cpp:320-327 | fewer than `SIZE` bytes are ever queued, and none when the two indices meet |
| SerialTx.WriteEnabled | cores/arduino/Serial.cpp:320 | once writing has started, `write`'s busy-wait ends exactly when the next producer slot is not the slot being sent |
| SerialTx.WriteEnabledIff | cores/arduino/Serial.cpp:320 | under the ring invariant, `write`'s busy-wait blocks exactly when `SIZE - 1` bytes are queued |
| SerialTx.BlockedWriteUnblocks | cores/arduino/Serial.cpp:79-88 | a blocked `write` implies the line is STARTED, and one TX-complete event re-enables it |
| SerialTx.WriteQueues | cores/arduino/Serial.cpp:320-322 | on a busy line, `write` appends its byte to the queue and leaves the queued bytes as they were |
| SerialTx.WritePreserves | cores/arduino/Serial.cpp:318-330 | `write(c)` keeps the ring invariant, with `c` appended to the bytes written |
| SerialTx.OnTxCompleteDequeues | cores/arduino/Serial.cpp:79-88 | with bytes queued, TX-complete sends the oldest queued byte and removes it from the queue |
| SerialTx.OnTxCompletePreserves | cores/arduino/Serial.cpp:79-88 | TX-complete keeps the ring invariant, and the queue shrinks by one byte (or is already empty) |
| SerialTx.WriteOnIdleSendsIt | cores/arduino/Serial.cpp:323-327 | a `write` on a STOPPED line sends exactly the byte it was given |
| SerialTx.Step | cores/arduino/Serial.cpp:318-330 | one `write` or TX-complete: the bytes sent only grow, by at most one; a `write` stores its byte at the next producer slot; TX-complete changes neither the buffer nor `to_send_i` |
| SerialTx.StepPreserves | cores/arduino/Serial.cpp:318-330 | one `write` or TX-complete keeps the ring invariant, with the written byte, if any, appended to what was written |
| SerialTx.Run | cores/arduino/Serial.cpp:79-88 | any enabled interleaving of writes and TX-complete events keeps the ring size and the state well formed |
| SerialTx.RunPreserves | cores/arduino/Serial.cpp:79-88 | every enabled interleaving of writes and TX-complete events keeps the ring invariant |
| SerialTx.TxFifo | cores/arduino/Serial.cpp:318-330 | starting from power-up, the bytes sent are always a prefix of the bytes written, in write order; the rest are queued, and a STOPPED line has sent everything |
| SerialTx.CompleteDrains | cores/arduino/Serial.cpp:79-88 | once writes stop, one TX-complete per queued byte plus one more leaves the line STOPPED with every written byte sent |
| FrameConfig.ApplyFrame | cores/arduino/Serial.cpp:203-234 | every preset gives 8 data bits; parity is OFF/EVEN/ODD for N/E/O; stop bits follow the preset's final digit; any other value leaves the default configuration unchanged |
| FrameConfig.PresetFor | cores/arduino/Serial.cpp:203-234 | every 8-bit frame corresponds to one of the six presets |
| FrameConfig.PresetsBijective | cores/arduino/Serial.cpp:203-234 | presets and 8-bit frames correspond one to one in both directions, whatever the default configuration |
| FrameConfig.PresetsDistinct | cores/arduino/Serial.cpp:203-234 | two presets select the same frame exactly when they are the same preset |
| UartDriver.WrapperCallback | cores/arduino/Serial.cpp:62-98 | RX-complete re-arms the receive window (head 0, buffer and tail kept); TX-complete runs the transmit step and leaves the receive side alone; every other event leaves the driver unchanged |
| UartDriver.LineErrorsChangeNothing | cores/arduino/Serial.cpp:73-77 | parity, framing and overflow events change neither what can be read nor what is queued or sent |
| UartDriver.CallbackKeepsTxConsistent | cores/arduino/Serial.cpp:62-98 | no callback event breaks the transmit ring invariant, and only TX-complete sends a byte |
| UartDriver.Begin | cores/arduino/Serial.cpp:199-255 | the configuration is the default with the selected preset applied; a transfer is armed over the new buffer (head 0) while the tail keeps its old value, so `available()` is `(SIZE - tail) mod SIZE` and, after earlier reads, the unread bytes are the new buffer's slots from the old tail on; the global transmit ring is untouched |
| UartDriver.BeginCorrected | cores/arduino/Serial.cpp:242-255 | with the tail reset as well, `begin` leaves nothing to read: `available()` 0, `peek` -1, empty unread queue |
| UartDriver.BeginDiffersOnlyAfterReads | cores/arduino/Serial.cpp:242-255 | `begin` as written and the corrected version give the same state exactly when the tail was 0 |
| UartDriver.BeginDefault | cores/arduino/Serial.cpp:258-260 | `begin(baudrate)` always opens the channel as 8N1, with the same receive and transmit effect as `begin` |

## Left out

- Pin discovery and muxing (`setPins`, the `g_APinDescription` scan in `begin`) and IRQ registration (`setUpUartIrqs`) are left out: they are hardware routing, not buffer logic.
- The vendor calls `R_SCI_UART_Open`, `BaudCalculate`, `BaudSet` and `Close` (and so `end`) are left out. `R_DTC_InfoGet` appears only as the `remaining` field. `R_SCI_UART_Read` appears only as the re-arm in `Rearm` and as the transfer that `BeginAsWritten` and `Begin` arm over the new buffer (line 253). `R_SCI_UART_Write` appears only as "append one byte to `sent`".
- The `while(1)` halts after a failed vendor call are treated as preconditions: a halted device has no behaviour to verify.
- Baud rate, `bit_mod`, `err_rate` and the `p_callback` field of the configuration are left out. `FrameConfig.UartCfg` holds only the three framing fields.
- The numeric values of the SERIAL_8xx constants come from a header that is not part of this model. `SerialConfig` distinguishes the six presets from every other value.
- The width of `rx_buffer_index_t` is not modelled. The derived head and the tail are assumed to fit in it, so the casts to it at lines 300 and 353 do not truncate. The `unsigned int` cast at line 284 never wraps because `SIZE + head - tail` is positive.
- `remaining == 0`, the moment between the end of a receive transfer and the re-arm, is not a state of the model. `Transfer` performs both in one step. In that moment the head is `(rx_buffer_index_t)SIZE`. With the tail at 0, `available()` (line 284) is then 0, while `peek` and `read` (lines 288 and 296) see head != tail and return `buf[0]`, which delivers an already-read byte again.
- `flush` and `_tx_udr_empty_irq` are left out. They use `_tx_buffer_head`, `_tx_buffer_tail` and `_sending`, which `write` never updates, so `flush` does not observe the ring that `write` fills. `CompleteDrains` states the drain property of the actual ring instead.
- Interrupt concurrency is left out: each `write`, `read`, `peek`, arrival and callback is one atomic step. This hides that `write` advances `to_send_i` (line 321) before storing the byte (line 322): a TX-complete in between sends the stale slot and the new byte is never sent. It also hides that `send_i` and `tx_status` are not `volatile` although line 320 polls them.
- Several channels sharing the one global transmit ring are not modelled. A single channel is modelled.
- The `_uarts` registry, the constructors and `operator bool`, which always returns true, are left out.
- The heap allocation of buffers in `begin` is left out: the new receive buffer is a parameter. The unused `_tx_buffer` allocation is not modelled.

## Findings

| source | as written | input that shows it | evidently intended | confidence | as-written member | corrected member |
|---|---|---|---|---|---|---|
| cores/arduino/Serial.cpp:242-255 | `begin` arms a receive transfer over a new buffer, which puts the head at 0, but leaves `_rx_buffer_tail[_channel]` at its old value | SIZE 4: `begin`, one byte arrives, `read` (the tail becomes 1), `end()`, then `begin` again with nothing received: `available()` is 3 and `peek()` returns the new buffer's uninitialised content | after `begin`, `available()` is 0 and `peek()` is -1 until a byte arrives | medium; not executed | SerialRx.BeginAsWrittenReportsPhantomBytes | UartDriver.BeginCorrected |
