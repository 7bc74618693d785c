# STM32F4 USB HID: frame layer and application decisions

This project models, in Dafny, the hand-written logic of an STM32F4 firmware
that acts as a USB mouse driven by a matrix keypad and also receives text
commands from a PC:

- the communication layer of `usb_comm.c`. A receive callback pushes every
  byte handed to it by the lower communication layer into a 2048-byte
  receive FIFO. It counts a frame in `gotFrame` when the byte is a carriage return and the push succeeded.
  `GetFrame` is a non-blocking poll that pops one frame, strips the carriage
  return and NUL-terminates the result. It returns 0 (frame), 1 (no frame
  pending) or 2 (the FIFO ran dry before a terminator). A transmit callback
  and `Getc` each pop one byte;
- the decision logic of `main.c`: the 4-byte mouse report built from the
  current key, whether the periodic USB callback sends it, the LED1/LED2
  cycle driven by a wrapping `uint8_t` counter, and the `:LED0 ON` /
  `:LED0 OFF` commands received as frames.

Modules:

- `Bytes` (`bytes.dfy`) holds `uint8`/`int8` as bounded integers, the
  two's-complement store of a signed value into a byte, and the wrapping
  increment and decrement.
- `Fifo` (`fifo.dfy`) is the FIFO as its callers use it. It is a bounded
  sequence. A push into a full FIFO fails and changes nothing. A pop from an
  empty FIFO fails and changes nothing.
- `UsbComm` (`usb_comm.dfy`) has the module state (both FIFOs and `gotFrame`)
  and the callbacks. `Poll` is the poll as a pure function on the state.
  `GetFrame` is the poll as the C loop performs it on the caller's buffer, and
  it is proved to agree with `Poll`.
- `FrameStream` (`frame_stream.dfy`) treats the receive callback as the only
  producer and the frame poll as the only consumer, with whole operations
  interleaved. It proves the counting invariant and arrival order.
- `App` (`app.dfy`) covers the key-to-report map, the send decision, the LED
  cycle and the LED0 command match.

The model follows the code as written:

- `GetFrame` has no length check (a TODO at `usb_comm.c:122`). Its
  precondition asks the caller for a buffer that holds every byte the call
  pops.
- On error 2 the bytes already popped are lost and `gotFrame` is left as it
  was.
- The command match uses `strcmp` on the NUL-terminated buffer. A payload with
  an embedded zero byte is compared only up to that byte: `":LED0 ON\0xyz"`
  turns LED0 on.
- `USB_COMM_Init` re-registers both FIFOs but does not reset `gotFrame`.

## Model

| member | source | states |
|---|---|---|
| Fifo.Push | STM32F4_USB_HID/app/src/usb_comm.c:164-167 | a push succeeds exactly when the FIFO is not full; it then appends the byte at the tail; a failed push leaves the FIFO unchanged |
| Fifo.Pop | STM32F4_USB_HID/app/src/usb_comm.c:179 | a pop fails exactly when the FIFO is empty; otherwise it yields the oldest byte and the rest stay in order |
| Fifo.PushThenPopInOrder | STM32F4_USB_HID/app/src/usb_comm.c:138-164 | bytes pushed while there is room come out after the bytes already buffered, in the order pushed |
| UsbComm.Init | STM32F4_USB_HID/app/src/usb_comm.c:64-76 | both FIFOs empty with capacity 2048; the frame counter keeps its value |
| UsbComm.SplitFrame | STM32F4_USB_HID/app/src/usb_comm.c:138-147 | a frame ends exactly when a terminator is buffered; the payload is the bytes before the first terminator, which it does not contain |
| UsbComm.SplitFrameUnique | STM32F4_USB_HID/app/src/usb_comm.c:138-147 | any split into a terminator-free payload, a terminator and a rest is the split the poll makes |
| UsbComm.RxCallback | STM32F4_USB_HID/app/src/usb_comm.c:162-170 | the byte is appended if the FIFO has room; the counter goes up by one, wrapping at 256, exactly when the byte is a carriage return and the push succeeded; into a full FIFO nothing changes |
| UsbComm.TxCallback | STM32F4_USB_HID/app/src/usb_comm.c:177-185 | status 1 with the oldest transmit byte removed when the transmit FIFO is non-empty; otherwise status 0 and nothing changes |
| UsbComm.Getc | STM32F4_USB_HID/app/src/usb_comm.c:100-114 | returns and removes the oldest received byte, touching nothing else |
| UsbComm.Poll | STM32F4_USB_HID/app/src/usb_comm.c:124-157 | counter zero: no frame and nothing changes; terminator buffered: the FIFO loses exactly payload plus terminator and the counter drops by one; no terminator: frame error, FIFO emptied, counter kept |
| UsbComm.GetFrame | STM32F4_USB_HID/app/src/usb_comm.c:122-157 | the C loop returns Poll's status code and state; on 0, len is the payload length, buf holds the payload, then a zero byte, and is otherwise untouched; on 1 and 2, len is 0; on 2, buf holds the lost bytes |
| FrameStream.InitCountMatches | STM32F4_USB_HID/app/src/usb_comm.c:54-76 | after startup and initialisation the counter matches the buffered terminators and no frame is reported |
| FrameStream.RxCallbackKeepsCount | STM32F4_USB_HID/app/src/usb_comm.c:162-170 | a receive keeps the counter equal to the number of buffered carriage returns, unless it is the 256th pending one |
| FrameStream.PollKeepsCount | STM32F4_USB_HID/app/src/usb_comm.c:129-150 | while the counter matches, a poll never returns error 2 and keeps the counter matching |
| FrameStream.CounterWrapHidesFrames | STM32F4_USB_HID/app/src/usb_comm.c:129-168 | with 255 frames pending, one more carriage return wraps the counter to 0 and the poll reports no frame though 256 are buffered |
| FrameStream.RunKeepsConsistent | STM32F4_USB_HID/app/src/usb_comm.c:124-170 | over any interleaving of receives and polls without counter wrap, delivered payloads each followed by a terminator, then the FIFO contents, equal the accepted bytes; no error 2 occurs |
| FrameStream.DeliveredInArrivalOrder | STM32F4_USB_HID/app/src/usb_comm.c:138-164 | from startup, the delivered frames, re-terminated, form a prefix of the bytes the receive callback accepted |
| FrameStream.AtCommandScenario | STM32F4_USB_HID/app/src/usb_comm.c:124-170 | "AT\r" then a poll delivers "AT"; "AT" alone delivers nothing until "\r" arrives, and then "AT" |
| Bytes.ToUnsigned | STM32F4_USB_HID/app/main.c:199-201 | an int8_t stored into a uint8_t keeps its value modulo 256; negatives land at 128 or above |
| App.GetHidPosition | STM32F4_USB_HID/app/main.c:126-204 | exactly 4 bytes with wheel 0; x and y each decode to -10, 0 or 10 (bytes 246, 0, 10); button 0x04 exactly for `*`, 0x01 exactly for `#`; all zero exactly for key 5 and unlisted keys |
| App.DigitKeysFollowKeypad | STM32F4_USB_HID/app/main.c:133-173 | digit key d moves the cursor by 10 times its column and row offset from the centre of the 3x3 keypad, with no button |
| App.ButtonKeysMoveDownRight | STM32F4_USB_HID/app/main.c:175-191 | `*` and `#` set a button and also move by (10, 10) |
| App.UsbSoftTimerCallback | STM32F4_USB_HID/app/main.c:210-219 | a report is sent exactly for keys other than 5 and unlisted ones; the all-zero report is never sent; what is sent is the key's report |
| App.EveryButtonPressIsSent | STM32F4_USB_HID/app/main.c:175-219 | a report with a button bit set is always sent, because both button keys also move; every sent report has nonzero x or y |
| App.LedsFor | STM32F4_USB_HID/app/main.c:228-245 | LED1 is on exactly when counter mod 3 is 1, LED2 exactly when it is 2; never both |
| App.SoftTimerCallback | STM32F4_USB_HID/app/main.c:224-249 | sets the LEDs from the counter before incrementing it with wrap-around; never both LEDs on |
| App.CallAdvancesCycle | STM32F4_USB_HID/app/main.c:228-248 | below 255, each call advances the cycle off, LED1, LED2, off by one step |
| App.WrapRepeatsAllOff | STM32F4_USB_HID/app/main.c:226-248 | the 255 to 0 wrap shows the all-off state twice in a row, breaking the cycle |
| App.CounterAfterWraps | STM32F4_USB_HID/app/main.c:226-248 | after k calls the counter is the start plus k modulo 256 |
| App.CStringOfTerminated | STM32F4_USB_HID/app/main.c:106-109 | a zero byte after the payload and whatever follows it do not change the string strcmp compares |
| App.ApplyLedCommand | STM32F4_USB_HID/app/main.c:106-111 | ":LED0 ON" turns LED0 on, ":LED0 OFF" turns it off, any other string leaves it unchanged |
| App.LedCommandsExact | STM32F4_USB_HID/app/main.c:106-111 | each command frame sets LED0 to the state it names |
| App.LedCommandComparesUpToZero | STM32F4_USB_HID/app/main.c:106-111 | any nonzero byte appended to ":LED0 ON" defeats the match; bytes after an embedded zero byte are ignored |
| App.MainLoopFrame | STM32F4_USB_HID/app/main.c:80-112 | with the 255-byte command buffer, the comm state becomes the poll's, and LED0 changes only on a received frame, as the command match on that frame says |

## Left out

- The FIFO implementation (`fifo.h`) is not part of this model. The FIFO is described by what `usb_comm.c` relies on. Its capacity is assumed to be the full `len` field, 2048 bytes. A pop from an empty FIFO is assumed not to write the caller's byte.
- UsbComm.Init: that both FIFOs start empty rests on `FIFO_Add` resetting the FIFO it registers; `usb_comm.c:67-74` itself only sets each FIFO's buffer and length.
- `USB_COMM_Putc` is a no-op, because its push is commented out. `USB_COMM_Puts` calls the foreign `VCP_DataTx`. Nothing in the model fills the transmit FIFO, so in the firmware `TxCallback` always returns 0.
- All `printf`/`println` output is left out. So are `main`'s initialisation, the USB device stack (`USBD_Init`, `USBD_HID_SendReport`), LED, GPIO and keypad drivers, and the LED3 toggle driven by `TIMER_DelayTimer`. The report that `USBD_HID_SendReport` would send is returned as a value instead.
- The soft-timer and tick module (`TIMER_*`) is not part of this model. The two callbacks are modelled as one call each, with the counter as an explicit parameter.
- The commented-out button debounce in `getHIDPosition` is left out, as are its unused statics.
- Preemption of the main loop by interrupts is left out. Each callback and each poll is one atomic step. The interrupt-side and main-loop sides of the FIFO are not modelled at the level of indices and counts.
- App.MainLoopFrame: the main loop calls `COMM_GetFrame` (`main.c:102`) and `COMM_Init` (`main.c:59`), whose header is not part of this model; they are assumed to resolve to `USB_COMM_GetFrame` and `USB_COMM_Init`. The same source tree also has a UART driver (`hal/src/uart2.c`) that could sit behind them, and `main.c:87-91` registers only the HID class with the USB stack.
- UsbComm.Getc: the busy-wait until a byte arrives is replaced by the precondition that the receive FIFO is non-empty.
- UsbComm.GetFrame: the source has no length check, so the model requires a buffer that holds every byte the call pops, and at most 256 of them. The model does not say what happens when the caller's buffer overflows.
- FrameStream.RxCallbackKeepsCount: the counting invariant is claimed only while fewer than 256 frames are pending. Past that, the `uint8_t` counter wraps, as `FrameStream.CounterWrapHidesFrames` shows.
- FrameStream.RunKeepsConsistent: this holds only for interleavings in which the counter never wraps. `Getc` is not an event, because it would consume frame bytes without updating the counter.
