# MSP430 DCF77 clock: RTC, UART and buttons in Dafny

A Dafny model of the three working firmware modules of an MSP430 clock meant to
receive the DCF77 longwave time signal:

- **Software real-time clock** (`rtc.c`, module `Rtc`). The clock keeps a
  time-of-week value (`tstruct`: second, minute, hour, day of week, each a
  `uint8_t`) in a two-slot buffer. `tptr` selects the valid slot. The timer A0
  interrupt fires nominally `RTC_SAMPLING_FREQV` = 512 times a second
  (rtc.h:7) and divides that tick count by 512. On each full
  count it writes the successor time (`inc_one_second`) into the other slot
  and toggles `tptr`. `rtc_set_time` stores a new time and sets `treset`. The
  next tick then restarts the divider.
- **Serial port helpers** (`uart.c`, module `Uart`). This covers the hex-digit
  conversions `h2c` and `c2h` and the 16-slot circular transmit buffer.
  `uart_putc` fills the buffer. `uart_start_tx` drains it one character at a
  time into the transmit register. `uart_puts` calls `uart_putc` for each
  character of a C string.
- **Buttons** (`button.c`, module `Button`). The port 1 interrupt latches the
  three active-low buttons on bits 3..5. `get_button` reports the first
  pressed button by priority and clears the latch.

Each interrupt handler becomes a pure step function on an immutable state
value. `Rtc.Tick` is the timer interrupt. `Uart.StartTx` is also what the
transmit interrupt calls, and `Uart.TxInterrupts` repeats it. `Button.Latch`
is the port interrupt. Writes to the transmit register `UCA0TXBUF` are
recorded in the `sent` field of `Uart.Port`. The port input `P1IN` is the
parameter of `Button.Latch`.

Fixed-width C integers appear as bounded integers (`MachineInts.uint8`,
`uint16`). Their wrap-around is written out where the code can reach it:
`inc_one_second` increments 8-bit fields, so an out-of-range second of 255
wraps to 0 without carrying. `unsigned int` is 16 bits on the MSP430. The ring
indices are masked with `& 0x0F`. For non-negative values this is the
remainder modulo 16, and `Uart.Masked` models it that way.

The central abstraction for the transmit buffer is `Uart.Stream`: the
characters already sent, followed by the queued ones, oldest first. Every
buffer operation is stated against it. A successful put appends one
character, a start of transmission leaves it unchanged, and draining empties
the queue into `sent` in order.

## Model

| member | source | states |
|---|---|---|
| Rtc.IncOneSecond | rtc.c:39-64 | Without a carry only the second increments. Each higher field changes only when every field below it wrapped to 0. 59 seconds carries into the minute, 59 minutes into the hour, hour 23 into the day, and day 6 wraps to 0. An out-of-range second of 255 wraps to 0 without carrying (8-bit field). |
| Rtc.IncOneSecondWeekCounter | rtc.c:39-64 | For an in-range time (second and minute below 60, hour below 24, day below 7), the successor is in range. Its seconds-since-start-of-week value is the input's plus one, modulo 604800. |
| Rtc.IncOneSecondIsWeekSuccessor | rtc.c:39-64 | For an in-range time, the successor equals the time decoded from (week seconds + 1) mod 604800 by an independent div/mod decomposition. |
| Rtc.InitValid | rtc.c:31-34 | The power-on state has both slots zero, slot 0 valid and a resync pending. It satisfies the state invariant. |
| Rtc.OtherSlot | rtc.c:122 | `tptr ^ 0x01` maps a slot index in {0,1} to the other one. |
| Rtc.GetTime | rtc.c:78-82 | Returns one of the two buffer slots: the one `tptr` selects, so when the slots differ it returns slot 0 exactly when `tptr` is 0. |
| Rtc.SetCurrentTime | rtc.c:69-82 | Setting the time just read leaves both slots, `tptr` and the divider unchanged; only the resync request is raised. |
| Rtc.SetTime | rtc.c:69-75 | After setting `t`, getting the time returns `t` and `treset` is set. `tptr`, the divider and the other slot are unchanged. |
| Rtc.Tick | rtc.c:104-138 | A resync tick zeroes the divider, clears `treset` and changes nothing else. A counting tick below 512 only increments the divider. The 512th tick restarts the divider and writes the successor of the valid time into the other slot. It then makes that slot valid and leaves the old slot untouched. Any tick leaves the divider in [0, 512) and `tptr` in {0,1}. |
| Rtc.Ticks | rtc.c:104-138 | Any positive number of timer interrupts leaves the buffer well formed, `tptr` in {0,1}, the divider below 512 and no resync pending. |
| Rtc.CountingTicks | rtc.c:106-126 | Fewer than a full second of counting ticks advance only the divider, by exactly their number. |
| Rtc.OneSecondPerSamplingPeriod | rtc.c:104-138 | From a restarted divider, the time is unchanged for the first 511 ticks. On the 512th tick it becomes the successor of the starting time, and the divider is back at 0. |
| Rtc.SetThenOneSecond | rtc.c:69-138 | After `rtc_set_time(t)` the clock reads `t` after each of ticks 1 through 512 (the resync tick and the following 511). After tick 513 it reads `t` plus one second. |
| Uart.LowNibble | uart.c:51 | `h & 0xF` on a 16-bit unsigned value lies in 0..15. |
| Uart.HexToChar | uart.c:49-54 | `h2c` yields the digit that spells the low nibble of its argument, taken from the table "0123456789ABCDEF": 0..9 become '0'..'9' and 10..15 become 'A'..'F'. |
| Uart.CharToHex | uart.c:56-62 | `c2h` yields a value in -1..15. It yields -1 exactly for characters that are not hexadecimal digits of either case. For a digit it yields the position of the digit's upper-case spelling in the table "0123456789ABCDEF". |
| Uart.HexToCharLowNibble | uart.c:49-54 | `h2c` depends only on the low four bits of its argument. |
| Uart.HexRoundTrip | uart.c:49-62 | `c2h(h2c(h))` is the low nibble of `h`. |
| Uart.CharRoundTrip | uart.c:49-62 | For every hexadecimal digit `c`, `h2c(c2h(c))` is the upper-case spelling of `c`. |
| Uart.CharToHexCaseInsensitive | uart.c:59-60 | For k < 6, `c2h('a'+k) == c2h('A'+k) == 10+k`. |
| Uart.InitIdle | uart.c:39-42 | The power-on buffer is valid, idle and empty, and nothing has been accepted. |
| Uart.Count | uart.c:35-40 | The occupancy `(inptr - outptr) mod 16` is at most 15. It is 0 exactly when the two indices are equal. |
| Uart.NextIndex | uart.c:120 | `(p + 1) & UART_TX_BUFMASK` stays in 0..15: it is `p + 1` below 15, and 15 wraps to 0. |
| Uart.Full | uart.c:124 | The full test `new_ptr == uart_tx_outptr` holds exactly when 15 characters are queued. |
| Uart.StartTx | uart.c:95-114 | On an empty buffer it returns -1, clears the transmit flag and changes nothing else. Otherwise it returns 0, sets the flag and moves `outptr` one slot on. It sends `buffer[(outptr+1) & 0xF]`, the oldest queued character, which leaves the queue. Sent-plus-queued is unchanged, and the indices stay within 0..15. |
| Uart.DequeueShifts | uart.c:105-111 | Advancing `outptr` removes exactly the oldest queued character, which is the one in the slot after `outptr`. |
| Uart.EnqueueAppends | uart.c:120-126 | Storing into the slot after `inptr` and advancing `inptr` appends the character at the end of the queue and grows the occupancy by one. |
| Uart.PutChar | uart.c:117-129 | It returns -1 exactly when the buffer is full, and then changes nothing. Otherwise it returns 0, appends `c` to sent-plus-queued and leaves the port transmitting. If the port was already transmitting, `c` only joins the queue and the occupancy grows by one. If the port was idle, `c` is sent at once. Idle-implies-empty is preserved. |
| Uart.TxInterrupts | uart.c:156-165 | Any number of transmit interrupts preserve sent-plus-queued and the index bounds. |
| Uart.DrainSendsInOrder | uart.c:95-114 | As many transmit interrupts as there are queued characters send exactly the queued characters, oldest first, and empty the buffer (FIFO order). |
| Uart.CStringLength | uart.c:135 | The C string ends at the first NUL, or at the end of the sequence. No earlier character is NUL. |
| Uart.PutString | uart.c:132-139 | The count returned is at most the string length. Either all counted characters were accepted, or the last counted one was rejected by a full buffer. In the second case the returned count includes the rejected character. Stopping before the terminator implies such a rejection. When the string fits in the 15 - Count free slots, every character is accepted and the full length is returned. On a transmitting port nothing is sent and the flag stays set. On a transmitting port, if the string is longer than the 15 - Count free slots, the count returned is 16 - Count (the free slots plus the rejected character) and the buffer is full. On an idle, empty port the first character is sent at once. |
| Button.GetButton | button.c:26-47 | It returns 1 if bit 3 is set, else 2 if bit 4 is set, else 3 if bit 5 is set, and 0 otherwise. A non-zero result clears the latch. A zero result keeps the latch, including when only unrelated bits are set. |
| Button.GetButtonIsFirstPressed | button.c:26-47 | The reported code equals an independent reference decode: one more than the index of the first set bit in the priority list (bit 3, bit 4, bit 5), or 0. |
| Button.GetButtonTwice | button.c:30-44 | After a successful `get_button`, an immediate second call returns 0 with an empty latch. |
| Button.UnknownBitsIgnored | button.c:28-46 | A non-zero latch with none of the three button bits returns 0 and is left unchanged. |
| Button.Latch | button.c:61-66 | The latch, `~P1IN` masked with the three button bits, has no bits outside the three buttons. A button bit is set exactly when its pin reads low (active low). |
| Button.PressedPinReported | button.c:61-63 | Latching the port input and then calling `get_button` reports the first button whose pin reads low. It reports 0 exactly when all three pins read high. |

## Left out

- The DCF77 decoder: `dcf77_init` in dcf77.c has an empty body. dcf77.h declares only debug variables and a parity switch. There is no symbol detector, synchronisation state machine or minute-frame decoder in the code to model.
- lcd.c and main.c: GPIO bit-banging with busy-wait delays. main.c is a standalone LCD demo.
- Hardware set-up, including the actual timer period (`rtc_timer_init` programs `CCR0 = 32768/8/512` in up mode, so the real tick rate differs from the nominal 512 Hz): `uart_init`, `tx_output_enable` (its body is commented out), `rtc_timer_init` and `buttons_init`. These only write configuration registers.
- Hardware register effects outside the model: the RTC and UART LEDs, the interrupt-enable bits in `IE2`, the port interrupt flags in `P1IFG`, and the `__bic_SR_register_on_exit` low-power exit. Dropping the transmit interrupt enable `UCA0TXIE` is harmless: `uart_putc` re-enables it through `uart_start_tx` whenever the queue becomes non-empty. So `TxInterrupts` may fire while `UCA0TXIE` would be off, and `StartTx` on an empty queue changes nothing but the transmit flag.
- The receive interrupt `USCI0RX_ISR`: it answers '?' with a fixed string through `uart_puts`, which is modelled. Reading `UCA0RXBUF` is input from hardware.
- Interleaving of interrupts with the main loop. Each handler and each call is one atomic step. The double time buffer and the flags shared with the interrupt handlers (not declared `volatile` in the source) serve that interleaving, which the model does not cover.
- comm/test.py: a host-side serial test script.
- Bit-level masking: `& 0x0F` on the ring indices (`Uart.Masked`) and `h & 0xF` in `h2c` (`Uart.LowNibble`) are modelled as the remainder modulo 16, which equals the bitwise and for the non-negative 16-bit values the code uses. The equality itself is not proved.
- Character width: a Dafny `char` is a Unicode code point, wider than the 8-bit C `char` of `c2h`. This changes no result, because every character outside '0'..'9', 'A'..'F' and 'a'..'f' yields -1 either way.
- C string memory: the argument of `uart_puts` is a Dafny sequence. The terminator is the first NUL or the end of the sequence. Reading past the end of a C array is not modelled.
