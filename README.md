# RS41HUP payload firmware: the transmit engine of main.c

This project models the core of the RS41HUP high-altitude balloon payload
firmware (`main.c`). The core has two halves that share a set of globals:

- **The symbol-clock interrupt** (`TIM2_IRQHandler`). On every tick it:
  - runs the disable-by-button check;
  - asks the RTTY, 4FSK or 2FSK symbol generator for the next symbol, writes
    it to the radio's tone register 0x73, and moves the cursor through the
    transmit buffer;
  - counts down the pause between transmissions and sets `tx_enable` when
    the pause is over;
  - blinks the green LED.
- **The main loop.** When the previous transmission and its pause are over,
  it moves through the modes STARTUP → RTTY → FSK_4 → STARTUP:
  - `collect_telemetry_data` takes the readings and the GPS report;
  - `send_rtty_packet` prints the telemetry sentence
    `$$$$$callsign,count,hh:mm:ss,lat,lon,alt,speed,sats,volt*10,temp*CRC\n`
    into `buf_rtty`, checksummed with `gps_CRC16_checksum`
    (CRC-16/CCITT-FALSE), and starts the transmission;
  - `send_mfsk_packet` puts the binary frame into `buf_mfsk` and starts the
    4FSK transmission.

The model is built in layers:

- `ctypes.dfy`: C integer types, C's truncating division, `(uint8_t)` casts,
  `%d` of an unsigned value, and `strlen`.
- `format.dfy`: the `printf` conversions the sentence uses (`%d`, `%u`,
  `%02u`, `%04ld`, `%04X`) and the parsers that read them back.
- `crc16.dfy`: `gps_CRC16_checksum`, both as a fold over the bytes and as a
  method with the source's two nested loops over a `char` array.
- `sentence.dfy`: the RTTY sentence as a function of the telemetry. It also
  holds a ground-station decoder; the decoder is proved to read every field
  back and to reject a line whose checksum field disagrees with its body.
- `globals.dfy`: the globals, the build-time configuration, their values at
  power-up, and the invariant that both halves keep.
- `tick.dfy`: one interrupt as a function over the globals, with its
  properties.
- `mainloop.dfy`: one turn of the main loop and its three helpers, with their
  properties.
- `interleave.dfy`: the firmware as an interleaving of the two atomic
  actions. Every interleaving from power-up keeps the invariant.
- `firmware.dfy`: the same operations in the source's imperative form.
  - The globals are the fields of a `Payload` object, and the two buffers
    are `array<byte>`s.
  - `sprintf` writes into the array byte by byte.
  - Every method is proved to leave exactly the state that the functional
    model of its operation gives.

The symbol generators, the GPS receiver, the ADC and the radio's
temperature sensor are outside the core. What they return is an input of
each step. Every register write, GPIO write, `radio_enable_tx` and
generator call is appended to an event log (reading the temperature is
not logged), so the properties can speak about what the
firmware drives and in which order.

In four places the code behaves differently from what a description of the firmware would suggest (only the third touches a source comment, "End of the packet" at main.c:146); the model follows the code:

- **Armed cut-off during RTTY.** While `disable_armed` is set, the RTTY
  branch skips all of its handling, including moving the cursor. The RTTY
  transmission therefore never ends, and the main loop never leaves RTTY
  mode (`Tick.ArmedRttyStalls`).
- **4FSK ignores the cut-off.** The 4FSK and 2FSK branches never consult
  `disable_armed` (`Tick.FskIgnoresDisable`).
- **One byte past `packet_length`.** The 4FSK packet sends bytes `0` to
  `packet_length` inclusive: `current_mfsk_byte++ == packet_length` ends the
  packet only after the byte at index `packet_length` has been sent.
- **`tx_on` and `tx_enable`.** `tx_on` implies `tx_enable`. Both are clear
  during the pause between transmissions, and `tx_on` is set by the main
  loop, not by the interrupt.

## Model

| member | source | states |
|---|---|---|
| CTypes.CDiv | main.c:308 | C's `/` truncates toward zero: the remainder lies in [0, b) for a non-negative dividend and in (-b, 0] for a negative one |
| CTypes.AsSigned32 | main.c:336-338 | `%d` of an `unsigned int` prints the two's-complement reading of its bits: equal modulo 2^32, and equal outright below 2^31 |
| CTypes.StrLen | main.c:379 | `strlen`: no NUL before the result, and a NUL at the result unless the end is reached |
| Crc16.GpsCrc16Checksum | main.c:376-389 | the method returns the CRC-16/CCITT-FALSE fold (preset 0xFFFF, generator 0x1021) of the bytes from `start` up to the first NUL; the caller must supply a NUL at or after `start` |
| Crc16.UpdateByte | main.c:380-386 | one turn of the outer loop: the byte goes into the high half of the register, then eight shift-and-conditional-XOR steps follow |
| Crc16.CheckValue | main.c:376-389 | "123456789" checks to 0x29B1, the catalogued check value of CRC-16/CCITT-FALSE |
| Crc16.EmptyChecksum | main.c:377-379 | an empty string checks to 0xFFFF |
| Crc16.ChecksumStopsAtNul | main.c:379 | nothing after the first NUL takes part in the checksum |
| Crc16.FoldAppend | main.c:379-387 | folding over a concatenation continues from the register the first part left |
| Crc16.ChecksumContinues | main.c:379-387 | the register is the loop's only state: the checksum of s + t continues from the checksum of s |
| Format.Decimal | main.c:336-347 | `%d`: a leading '-' exactly for negative values, followed by the digits of the magnitude |
| Format.DigitsRoundTrip | main.c:336-347 | the digits of a number denote that number |
| Format.DecimalRoundTrip | main.c:336-347 | a ground station that parses a `%d` field gets the printed value back |
| Format.ZeroPadded | main.c:336 | `%02u` and `%04ld`: digits only, padded with zeros to at least the width |
| Format.ZeroPaddedRoundTrip | main.c:336 | a zero-padded field parses back to its value |
| Format.DigitsLength | main.c:336 | a number below 10^k prints in at most k digits |
| Format.DecimalLength32 | main.c:336 | `%d` of any 32-bit value takes at most 11 characters |
| Format.Hex4 | main.c:351 | `%04X` of a 16-bit value: exactly four upper-case hexadecimal digits |
| Format.Hex4RoundTrip | main.c:351 | four hexadecimal digits parse back to the checksum value |
| Sentence.Degrees | main.c:329 | `lat_d = abs(raw / 10^7)` with truncating division is at most 180 |
| Sentence.DegreesBracket | main.c:329 | the whole degrees are abs(raw) divided by 10^7, rounded down |
| Sentence.Fraction | main.c:330 | `lat_fl` is below 10000, so `%04ld` prints exactly four digits |
| Sentence.FractionBracket | main.c:330 | `lat_fl` is the part of abs(raw) below the whole degrees, in thousands of raw units |
| Sentence.DegreesFraction | main.c:329-330 | degrees · 10000 + fraction = abs(raw) / 1000 |
| Sentence.CoordinateSign | main.c:340-341 | the coordinate starts with '-' exactly when the raw value is negative, including between 0 and -1 degree |
| Sentence.HalfDegreeSouth | main.c:340 | a raw latitude of -5000000 prints as "-0.5000" |
| Sentence.CoordinateRoundTrip | main.c:329-341 | reading a printed coordinate back gives raw / 1000 truncated toward zero, sign included |
| Sentence.CoordinateLength | main.c:340-341 | a coordinate takes at most nine characters |
| Sentence.SplitJoin | main.c:336 | cutting the comma-joined fields at the separator gives the fields back when none holds a comma |
| Sentence.ClockRoundTrip | main.c:336-339 | `%02u:%02u:%02u` parses back to hours, minutes and seconds |
| Sentence.ByteOf | main.c:46 | a character is stored as a zero byte exactly when it is NUL |
| Sentence.BodyBytes | main.c:336-347 | the body holds no NUL, so `strlen` and the checksum see all of it |
| Sentence.PacketBytes | main.c:336-351 | the framed sentence holds no NUL, so the transmission ends at its terminator |
| Sentence.FrameLength | main.c:351 | framing adds `*`, four hex digits and a newline to the five `$` and the body |
| Sentence.FieldLengths | main.c:336-347 | every field takes at most 14 characters |
| Sentence.PacketFits | main.c:336-351 | the sentence and its terminator fit the 200-byte `buf_rtty` |
| Sentence.AltitudeMetres | main.c:342 | `alt_raw / 1000` is again a 32-bit value |
| Sentence.DecodeChecksChecksum | main.c:350-351 | a frame is accepted only when its checksum field is the CRC of its body |
| Sentence.DecodeBodyRoundTrip | main.c:336-347 | every field of the body reads back: callsign, signed frame count, time, coordinates to 10^-4 degree, altitude in metres, speed, satellites, ten times the voltage and the temperature |
| Sentence.DecodePacket | main.c:336-351 | decoding the sentence send_rtty_packet prints gives back exactly the reading of the telemetry it was printed from |
| Globals.SymbolPeriod | main.c:126 | `1000/RTTY_SPEED` lies between 1 and 1000 ms |
| Globals.DelayReload | main.c:126 | the reload `TX_DELAY / (1000/RTTY_SPEED)` is at most TX_DELAY |
| Globals.DelayReloadBracket | main.c:126 | the pause counts the whole symbol periods in TX_DELAY: it lasts at most TX_DELAY and falls short by less than one period |
| Globals.Boot | main.c:35-64 | the static initialisers and the assignments before the loop (main.c:259-261): STARTUP mode, `tx_on` clear, `tx_enable` set, `tx_buffer` at `buf_rtty`; the invariant holds |
| Globals.SentenceInvTransfer | main.c:115-193 | the RTTY sentence invariant survives any change that keeps the main-side globals and does not move the cursor forward |
| Tick.ToUint8 | main.c:161 | `(uint8_t)` of the symbol: reduction modulo 256, the identity on 0..255 |
| Tick.ButtonPhaseFrame | main.c:95-113 | the button check touches only the button count, the baseline, the latch and the log; it never clears the latch |
| Tick.ButtonRelease | main.c:103-112 | a reading at or below the baseline resets the count, takes the new baseline, leaves the latch as it was and drives the cut-off line exactly when the latch was set |
| Tick.RttyPhaseFrame | main.c:117-137 | an RTTY tick moves the cursor only at the end of a character and only while not armed; the packet ends exactly when the next byte is the terminator |
| Tick.RttyPhaseStep | main.c:117-137 | each RTTY tick logs the generator call; while armed nothing else happens; a one bit writes `RTTY_DEVIATION` to the tone register and lights the red LED (if enabled), a zero bit writes 0 and clears it, a character end lights it and advances the cursor; the terminator clears `tx_on` and `tx_enable` and reloads the delay, any other next byte leaves them |
| Tick.FskPhaseFrame | main.c:138-189 | a 4FSK/2FSK tick never moves `tx_buffer`, never writes the main-side globals, never sets `tx_on`, and only appends to the log |
| Tick.ByteEndFrame | main.c:143-157 | the same for the end of a byte |
| Tick.TxPhaseFrame | main.c:115-193 | symbol transmission never writes the main-side globals or the buffer `tx_buffer` points into |
| Tick.DelayBlinkFrame | main.c:199-219 | the delay and LED phases keep `tx_on`, the cursor and the latch; `cun` stays in 1..200 |
| Tick.TickLeavesMainState | main.c:91-221 | an interrupt never writes the mode, telemetry, buffers or `packet_length`, never sets `tx_on`, and only appends to the log |
| Tick.DisableLatch | main.c:95-113 | once armed, the cut-off stays armed |
| Tick.ButtonPhaseInv | main.c:95-113 | the button check keeps the invariant |
| Tick.ImageNul | main.c:123 | in the sentence image the only NUL is the terminator |
| Tick.RttyPhaseInv | main.c:117-137 | an RTTY tick keeps the invariant: the cursor stays inside the sentence |
| Tick.RttyAdvanceInv | main.c:123 | moving the cursor onto a non-NUL byte keeps it inside the sentence |
| Tick.FskPhaseInv | main.c:138-162 | a 4FSK tick keeps the invariant |
| Tick.TxPhaseInv | main.c:115-193 | symbol transmission keeps the invariant |
| Tick.DelayBlinkInv | main.c:199-219 | the delay and LED phases keep the invariant |
| Tick.TickInv | main.c:91-221 | every interrupt keeps the invariant |
| Tick.FskPhaseStep | main.c:141-162 | a symbol from the generator call on `tx_buffer[i]` is written to register 0x73 and the index stays; on the sentinel the packet ends exactly when the index had reached `packet_length`, and then the log gains exactly that call and the idle write of 0 (index 0, `tx_enable` cleared, delay reloaded); otherwise the index moves on by one, `tx_on`, `tx_enable` and the delay stay, and the log gains the call on `tx_buffer[i]`, the call on `tx_buffer[i+1]` and, when that call yields a symbol, its write to 0x73 |
| Tick.FskIgnoresDisable | main.c:138-189 | arming the cut-off changes nothing about a 4FSK/2FSK tick |
| Tick.ByteEndIgnoresDisable | main.c:143-157 | the same for the end of a byte |
| Tick.PauseTick | main.c:199-202 | while `tx_on` is clear, each tick decrements the delay modulo 2^32; on reaching zero it sets `tx_enable` and wraps to 0xFFFFFFFF |
| Tick.PauseLength | main.c:199-202 | a pause from delay d lasts d ticks, or 2^32 ticks when d is 0 |
| Tick.PauseCount | main.c:199-201 | the countdown reaches 1 exactly on the last tick of the pause |
| Tick.PauseRun | main.c:199-202 | over a pause, `tx_enable` keeps its value on the first PauseLength - 1 ticks and is set on the last one, when the delay wraps to 0xFFFFFFFF |
| Tick.ArmedRttyTick | main.c:117-137 | while armed in RTTY, a tick leaves `tx_on`, the cursor and the main-side globals unchanged |
| Tick.ArmedRttyStalls | main.c:117-137 | while armed in RTTY, no run of ticks ever ends the transmission or moves the cursor |
| Tick.ButtonPress | main.c:95-112 | a reading above the baseline raises the 16-bit count by one, wrapping to 0, and the baseline is kept unless the count wrapped; the cut-off is armed exactly once the count exceeds RTTY_SPEED/3, and every such tick lights the red LED |
| Tick.TxPhaseButton | main.c:115-193 | symbol transmission leaves the button state alone |
| Tick.DelayBlinkButton | main.c:199-219 | the delay and LED phases leave the button state alone |
| Tick.BlinkStep | main.c:204-219 | the countdown `cun` drops by one (32-bit); on reaching zero it restarts at 200 and `pun` flips, the flip to off driving green high and the flip to on driving it low only with the GPS flag bit set, both only while the LEDs are enabled |
| Tick.BlinkDark | main.c:210-214 | without a GPS lock an LED phase only appends to the log and never switches the green LED on |
| Tick.BlinkPeriod | main.c:204-219 | from a countdown of k the LED state holds for k - 1 phases and flips on the k-th, restarting the countdown at 200 |
| Tick.BlinksDark | main.c:210-214 | without a GPS lock no run of LED phases switches the green LED on |
| Tick.PressTick | main.c:95-113 | one whole interrupt with the line above the baseline: the count goes up by one, the baseline stays, and the latch is set exactly past a third of the symbol rate |
| Tick.PressRun | main.c:95-113 | k consecutive pressed ticks from a released button leave the count at k, and arm the cut-off exactly when k > RTTY_SPEED/3 (or it was armed already) |
| MainLoop.VoltageOf | main.c:302 | the voltage is at most the raw ADC reading |
| MainLoop.VoltageBracket | main.c:302 | the voltage is ADCVal[0]·600/4096 rounded down |
| MainLoop.CollectSpec | main.c:298-322 | the frame count rises by one modulo 2^32; flag bit 0x80 is set exactly with a 3D fix while the other bits keep their values; with a fix the report is kept and the LEDs are off exactly above 1000 m; without one the LEDs are on and the position is nulled; nothing else changes |
| MainLoop.FlagBits | main.c:305-315 | `|= 0x80` sets bit 0x80 and `&= ~0x80` clears it, each keeping the other seven bits |
| MainLoop.SendCountWraps | main.c:300 | the frame counter wraps to 0 after 2^32 - 1 |
| MainLoop.Render | main.c:336-351 | `sprintf` leaves the string, its terminator and the old buffer contents behind them |
| MainLoop.Head | main.c:336-347 | the first `sprintf` prints five `$` and the body, all non-NUL bytes |
| MainLoop.HeadChecksum | main.c:350 | `gps_CRC16_checksum(buf_rtty + 5)` after the first `sprintf` is the checksum of the body alone |
| MainLoop.SendRttySpec | main.c:325-361 | after send_rtty_packet, `buf_rtty` starts with the sentence of the current telemetry and its NUL, and `CRC_rtty` is the checksum of the body |
| MainLoop.SendRttyFrame | main.c:353-359 | send_rtty_packet points `tx_buffer` at the start of `buf_rtty`, sets `start_bits`, logs one `radio_enable_tx`, sets `tx_on`, leaves `buf_mfsk` as it was and changes nothing else |
| MainLoop.SendMfskSpec | main.c:364-373 | send_mfsk_packet puts the frame at the start of `buf_mfsk`, sets `packet_length` to its length, points `tx_buffer` at `buf_mfsk`, logs one `radio_enable_tx`, sets `tx_on` and changes nothing else |
| MainLoop.MainStepMode | main.c:272-294 | when not ready nothing changes; when ready the mode moves to the next one, and a transmission starts exactly when that mode transmits |
| MainLoop.ModeCycle | main.c:275-289 | the modes form a cycle of three: no mode is its own successor, and three steps come back |
| MainLoop.SendCountOnlyAtStartup | main.c:275-281 | the frame counter advances exactly on the ready turn that leaves STARTUP |
| MainLoop.MainWritesOnlyWhenReady | main.c:273-274 | the buffers, `packet_length`, `CRC_rtty` and `tx_buffer` change only on a ready turn |
| MainLoop.MainStepInv | main.c:272-294 | a turn of the loop keeps the invariant |
| MainLoop.StartRttyInv | main.c:325-361 | starting RTTY establishes the sentence invariant with the cursor on the first byte |
| MainLoop.ImageLength | main.c:336-351 | the sentence image has between 2 and 200 bytes |
| Interleave.Step | main.c:91-294 | each atomic action keeps the invariant |
| Interleave.Run | main.c:91-294 | every run of actions keeps the invariant |
| Interleave.RunFromBoot | main.c:91-294 | from power-up, under every interleaving: a transmission runs only with `tx_enable` set, the RTTY cursor stays inside the current sentence before its terminator, and the 4FSK index stays within 0..`packet_length`, which is below 200 given a 4FSK frame shorter than the buffer |
| Interleave.StepWhileTransmitting | main.c:115-193 | while a transmission runs, no action writes the buffers, `packet_length`, `CRC_rtty`, the mode, or the buffer `tx_buffer` points into |
| Interleave.TransmissionStarts | main.c:274-289 | only a main-loop turn from a ready state sets `tx_on`, into a transmitting mode |
| Interleave.StepLogGrows | main.c:91-294 | each action only appends to the event log |
| Interleave.MainLogGrows | main.c:272-294 | a turn of the loop only appends to the event log |
| Interleave.RunLogGrows | main.c:91-294 | a run only appends to the event log |
| Firmware.Sprintf | main.c:336-351 | writing a string into an array leaves exactly what `MainLoop.Render` describes |
| Firmware.MfskTestBits | main.c:366 | the frame is written at the start of `buf_mfsk`, with the rest untouched, and its length is returned |
| Firmware.RttyBufferSteps | main.c:350-351 | the checksum taken over the array after the first `sprintf` is the body's checksum, and the framed sentence fits the buffer |
| Firmware.HeadFits | main.c:336-347 | the head fits `buf_rtty` with its terminator |
| Firmware.Payload.constructor | main.c:35-64 | the object starts in the power-up state `Globals.Boot` |
| Firmware.Payload.Tick | main.c:91-221 | one interrupt leaves exactly the state `Tick.TickStep` gives and keeps the globals invariant |
| Firmware.Payload.ButtonCheck | main.c:95-113 | the button check in place equals `Tick.ButtonPhase` |
| Firmware.Payload.SymbolStep | main.c:115-193 | symbol transmission in place equals `Tick.TxPhase` |
| Firmware.Payload.Peek | main.c:123 | `*tx_buffer` reads the byte of the buffer `tx_buffer` points into |
| Firmware.Payload.EndOfPacket | main.c:124-127 | the end of a packet in place equals `Tick.EndPacket` |
| Firmware.Payload.RttySymbol | main.c:117-137 | an RTTY tick in place equals `Tick.RttyPhase` |
| Firmware.Payload.RttyNextCharacter | main.c:121-129 | the cursor moves on and the packet ends exactly on the terminator |
| Firmware.Payload.FskSymbol | main.c:138-189 | a 4FSK/2FSK tick in place equals `Tick.FskPhase` |
| Firmware.Payload.FskNextByte | main.c:143-157 | the end of a byte in place equals `Tick.FskByteEnd` |
| Firmware.Payload.DelayCountdown | main.c:199-202 | the countdown in place equals `Tick.DelayPhase` |
| Firmware.Payload.Blink | main.c:204-219 | the LED logic in place equals `Tick.BlinkPhase` |
| Firmware.Payload.MainLoopStep | main.c:272-294 | one turn of the loop in place equals `MainLoop.MainStep` and re-establishes the globals invariant |
| Firmware.Payload.CollectTelemetryData | main.c:298-322 | collect_telemetry_data in place equals `MainLoop.Collect` |
| Firmware.Payload.ReadSensors | main.c:300-303 | the count and the readings in place equal `MainLoop.TakeReadings` |
| Firmware.Payload.CheckGpsFix | main.c:305-321 | the fix handling in place equals `MainLoop.CheckFix` |
| Firmware.Payload.SendRttyPacket | main.c:325-361 | send_rtty_packet in place equals `MainLoop.SendRtty` |
| Firmware.Payload.PrintSentence | main.c:336-351 | after the two `sprintf` calls and the checksum, the array holds `MainLoop.RttyBuffer` and the returned CRC is `MainLoop.RttyCrc` |
| Firmware.Payload.SendMfskPacket | main.c:364-373 | send_mfsk_packet in place equals `MainLoop.SendMfsk` |

## Left out

- The GPS receiver: `ublox_get_last_data` and the `USART1_IRQHandler` that feeds the parser (main.c:76-84). The last report is an input of the main-loop step; the field widths of the report are assumed (`fix`, `sats_raw` and the time fields 8-bit, `alt_raw` and `speed_raw` 32-bit).
- Hardware initialisation before the loop (main.c:224-269): clocks, ports, timer, SPI, and the radio's register writes and first `radio_enable_tx`. None of these is logged. Interrupts that arrive after `init_timer` (main.c:231) and before the loop are the leading `TickAction`s of a run from `Globals.Boot`, which `Interleave.RunFromBoot` covers; while `tx_on` is clear they do not read `tx_buffer` or `tx_enable`, and they change only the delay countdown (with the `tx_enable` it may set), the LED and button state and the event log.
- The symbol generators `send_rtty`, `send_mfsk` and `send_2fsk`, and `mfsk_test_bits`, are not part of this model. What a generator returns on a tick is an input, and the 4FSK frame is given as a byte sequence shorter than the buffer.
- `radio_read_temperature` and the ADC readings `ADCVal[0]` and `ADCVal[1]` are inputs (assumed 16-bit); the temperature read is not logged as an event.
- The floating-point baseline `ADCVal[1] * 1.1` (main.c:111) is an input of the tick, already converted back to an integer.
- Preemption: the interrupt and the loop are modelled as atomic steps that interleave. The loop's `__WFI()` wait is a turn that changes nothing, and an interrupt arriving in the middle of a helper is not modelled.
- `TIM_GetITStatus` and `TIM_ClearITPendingBit` (main.c:92-93): the update flag is an input, and clearing it is not modelled.
- The second `sprintf(buf_rtty, "%s*%04X\n", buf_rtty, ...)` copies the buffer onto itself, which C leaves undefined. The model prints the framed sentence the call evidently intends.
- `abs(INT_MIN)`: raw latitude and longitude are limited to ±180·10^7, which a receiver reports, so `abs` never overflows.
- The mode FSK_2 is modelled in the interrupt, but the loop never selects it, so the invariant excludes it.
- Sentence.DecodePacket: requires a callsign without ','. Without that requirement the ground-station split would not recover the fields.
- Sentence.ByteOf: states only that NUL is the one character stored as 0, not which byte each other character becomes.
- Firmware.Payload.Peek: returns 0 for an offset past the end of the array; the invariant shows the firmware never reads there.
