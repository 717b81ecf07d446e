# random_number_over_serial, modelled in Dafny

A model of the logical core of the Raspberry Pi Pico firmware
`random_number_over_serial`. The firmware samples the RP2040 ring oscillator
sixteen times per value and folds the draws into a number below 10000. It
renders that number as decimal ASCII in a fixed 20-byte buffer with no
leading zeros. About once every 1000 timer ticks it writes the digits and
`"\n\r"` to a USB CDC serial port.

Files (verify the five together: `dafny verify *.dfy`):

- `types.dfy` — `u8`, `u16`, `u64` as bounded integers.
- `decimal.dfy` — the reference decimal notation. `Digits(n)` gives the
  canonical digits (no leading zero, none for zero). `Value` reads digits
  back. `Pad(n, w)` gives the last `w` digits, zero-padded.
- `format.dfy` — `format_u64`. `FillDigits` is its first loop, over an array,
  proved against `Pad(n, 20)`: the last 20 decimal digits of `n`.
  `FormatU64` allocates both buffers, calls `FillDigits`, runs the second
  loop with the `started` flag, and returns the buffer. It is proved against
  `Formatted(n)`: zero bytes, then the ASCII canonical digits.
- `entropy.dfy` — `random_generator`. The oscillator's draws are a parameter.
  The accumulator is a `u16`. `|` is written out bit by bit as `BitOr`.
  `<<` on a `u16` is written arithmetically as `Shl16`: multiplication by
  2ⁱ, truncated to 16 bits. The method is proved against `Accumulate` (Σ bitᵢ·2ⁱ)
  reduced modulo 10000.
- `firmware.dfy` — the main loop. It has the timer gate (`Gate`), the frame
  emission (`EmitFrame`) onto a `SerialPort` object, and the flush drain
  (`Drain`). `Scheduler.Iterate` composes these into one pass of `loop`.

Inputs from hardware and from the USB stack are parameters:

- `draws`: the 16 oscillator bits.
- `flushes`: the outcome of each `flush` attempt.
- `accepts`: the outcome of each `write`. Slot `i` is for byte `i` of the
  buffer; slot 20 is for the terminator.
- `counter` and `after`: the two timer readings of one pass.

Two details of the code the model keeps as written:

- The gate is strict: a frame needs `counter - ptime > 1000`, not `>= 1000`.
- The value 0 renders as an empty digit run, so its frame is only `"\n\r"`.

## Model

| member | source | states |
|---|---|---|
| `Format.FormatU64` | random_number_over_serial/src/main.rs:103-120 | the returned 20 bytes are `Formatted(n)`: zero bytes, then the canonical decimal digits of `n` in ASCII |
| `Format.FillDigits` | random_number_over_serial/src/main.rs:107-110 | after the 20 divide-by-ten steps the buffer holds `n`'s last 20 digits, least significant at index 19 |
| `Format.DigitsFit` | random_number_over_serial/src/main.rs:105-110 | every `u64` has at most 20 decimal digits, so no digit is lost to the buffer |
| `Format.U64MaxNeedsWidth` | random_number_over_serial/src/main.rs:105-106 | `U64_MAX` has exactly 20 digits, so the largest `u64` needs all 20 places |
| `Format.PadFits` | random_number_over_serial/src/main.rs:107-110 | the padded digits of a `u64` are zeros followed by exactly its canonical digits |
| `Format.PadLayout` | random_number_over_serial/src/main.rs:112-117 | the padded digits are zero before the start of the number and non-zero at it, so `started` flips exactly there |
| `Format.FormattedFromPad` | random_number_over_serial/src/main.rs:112-117 | each output byte is 0 before the first non-zero digit and digit + 48 from it on |
| `Format.FormattedZero` | random_number_over_serial/src/main.rs:104-117 | the buffer for 0 is 20 zero bytes: no digit is ever written |
| `Format.FormattedLayout` | random_number_over_serial/src/main.rs:103-119 | 20 bytes; zero bytes form a prefix, ASCII digits the rest; the digits start inside the buffer iff `n > 0`, and their first is not '0' |
| `Format.VisibleDigits` | random_number_over_serial/src/main.rs:112-117 | the non-zero bytes are exactly the contiguous suffix from the start of the number, and spell the canonical digits |
| `Format.FormatRoundTrip` | random_number_over_serial/src/main.rs:103-119 | the non-zero run is ASCII digits with no leading '0' and reads back as `n` |
| `Format.FormattedInjective` | random_number_over_serial/src/main.rs:103-119 | distinct values give distinct buffers |
| `Format.FourDigitBound` | random_number_over_serial/src/main.rs:112-117 | a value below 10000 shows at most four digit bytes |
| `Format.AsciiRoundTrip` | random_number_over_serial/src/main.rs:115 | adding 48 to each digit is undone by decoding ASCII digits |
| `Decimal.DigitsValue` | random_number_over_serial/src/main.rs:107-110 | the canonical digits read back as the number |
| `Decimal.DigitsCanonical` | random_number_over_serial/src/main.rs:112-117 | the canonical digits have no leading zero and are empty exactly for 0 |
| `Decimal.DigitsUnique` | random_number_over_serial/src/main.rs:112-117 | any digit sequence without a leading zero is the canonical digits of its value |
| `Decimal.DigitsLength` | random_number_over_serial/src/main.rs:105-110 | `n` has at most `w` digits iff `n < 10^w` |
| `Decimal.PadDigits` | random_number_over_serial/src/main.rs:107-110 | a number of at most `w` digits padded to `w` places is zeros followed by its canonical digits |
| `Entropy.RandomGenerator` | random_number_over_serial/src/main.rs:122-128 | returns `Accumulate(draws) % 10000`, which is below 10000 |
| `Entropy.OrStep` | random_number_over_serial/src/main.rs:124-126 | OR-ing draw `i` shifted by `i` into the accumulator adds draw `i` at bit `i`, and the result stays within 16 bits |
| `Entropy.BitOrDisjoint` | random_number_over_serial/src/main.rs:125 | OR into a position above every set bit equals addition |
| `Entropy.BitOrBound` | random_number_over_serial/src/main.rs:123-125 | OR of two `k`-bit numbers is a `k`-bit number, so the `u16` accumulator never overflows |
| `Entropy.ShiftedDraw` | random_number_over_serial/src/main.rs:125 | `(bit as u16) << i` with `i < 16` is bit × 2ⁱ; no bit is shifted out |
| `Entropy.AccumulateSnoc` | random_number_over_serial/src/main.rs:124-126 | one more draw adds bit × 2^(number of earlier draws) |
| `Entropy.AccumulateBound` | random_number_over_serial/src/main.rs:123-126 | `k` draws accumulate to less than 2^k |
| `Entropy.AccumulateToBits` | random_number_over_serial/src/main.rs:124-126 | the bits of a `k`-bit number, first least significant, accumulate back to it |
| `Entropy.ToBitsAccumulate` | random_number_over_serial/src/main.rs:124-126 | bit `i` of the accumulator is draw `i`: the draws are recovered exactly |
| `Entropy.AccumulateOnes` | random_number_over_serial/src/main.rs:124-126 | `k` draws that are all set accumulate to 2^k − 1 |
| `Entropy.AllOnes` | random_number_over_serial/src/main.rs:124-127 | sixteen draws that are all set give the accumulator 65535 and the value 5535 |
| `Entropy.DrawsFive` | random_number_over_serial/src/main.rs:124-127 | draws 1, 0, 1 and thirteen zeros give 5 |
| `Entropy.AccumulatorWraps` | random_number_over_serial/src/main.rs:127 | an accumulator of 10000 gives 0 |
| `Firmware.GateElapsed` | random_number_over_serial/src/main.rs:84 | on a timer that has not wrapped, the gate opens iff more than 1000 ticks have passed |
| `Firmware.EmitFrame` | random_number_over_serial/src/main.rs:85-97 | the port gains exactly `Delivered(data, accepts)`: each accepted non-zero byte in order, then the terminator if accepted |
| `Firmware.KeptAll` | random_number_over_serial/src/main.rs:86-93 | when every byte write is accepted, the written bytes are all non-zero bytes of the buffer |
| `Firmware.KeptSubsequence` | random_number_over_serial/src/main.rs:86-93 | the accepted digit bytes are the non-zero bytes with some dropped |
| `Firmware.DeliveredWithinFrame` | random_number_over_serial/src/main.rs:86-97 | delivered bytes are always a subsequence of the ideal frame, and equal it when every write succeeds |
| `Firmware.FrameOfValue` | random_number_over_serial/src/main.rs:85-97 | the ideal frame of a value is its ASCII canonical digits then `"\n\r"`, so it always ends in the terminator |
| `Firmware.FrameLength` | random_number_over_serial/src/main.rs:85-97 | for a value below 10000 the frame has at most 4 digits plus the terminator |
| `Firmware.FrameOfZero` | random_number_over_serial/src/main.rs:85-97 | the frame of 0 is only `"\n\r"` |
| `Firmware.TerminatedIffAccepted` | random_number_over_serial/src/main.rs:94-97 | the delivered bytes of a formatted value end in `"\n\r"` iff the terminator write was accepted |
| `Firmware.SerialPort.constructor` | random_number_over_serial/src/main.rs:51 | a new port has received nothing |
| `Firmware.SerialPort.Write` | random_number_over_serial/src/main.rs:88-96 | an accepted write appends its bytes; a refused one changes nothing |
| `Firmware.Drain` | random_number_over_serial/src/main.rs:71-81 | retries `flush` until the first success; every earlier attempt failed |
| `Firmware.Scheduler.constructor` | random_number_over_serial/src/main.rs:61-63 | `ptime` starts at the first timer reading |
| `Firmware.Scheduler.Iterate` | random_number_over_serial/src/main.rs:69-99 | a value is drawn on every pass; a frame is written iff the gate is open; `ptime` moves to the second reading only then, and the port gains exactly that frame's delivered bytes |
| `Firmware.ScenarioFive` | random_number_over_serial/src/main.rs:83-97 | draws 1,0,1,0,…,0 produce the frame `"5\n\r"` |
| `Firmware.ScenarioWrap` | random_number_over_serial/src/main.rs:83-97 | an accumulator of 10000 produces the frame `"\n\r"` |
| `Firmware.ScenarioAllOnes` | random_number_over_serial/src/main.rs:83-97 | sixteen draws that are all set produce the frame `"5535\n\r"` |

## Left out

- Clock, PLL, watchdog and pin bring-up (main.rs:14-39): vendor HAL calls with no logic of their own.
- USB bus, CDC class and device construction, vendor/product IDs and strings (main.rs:42-59): configuration of an external USB stack.
- `usb_dev.poll` (main.rs:70, 77): the USB stack's internals are external; the model does not call it.
- Drain: modelled under the assumption that some flush eventually succeeds (`true in flushes`). If the host never drains, the real loop spins forever and no value is produced; the model states no such liveness result.
- The ring oscillator (main.rs:65-66, 125): `get_random_bit` is a hardware read; its sixteen results are the parameter `draws`. The linear ownership of the oscillator handle is not modelled.
- The hardware timer (main.rs:61-62, 84, 98): its readings are parameters. `counter - ptime` is modelled as wrapping `u64` subtraction. A debug build would halt on underflow instead, which a monotonic counter never reaches.
- Firmware.SerialPort.Write: models each write as wholly accepted or wholly refused. A partial `Ok(1)` for the two-byte terminator write is not modelled.
- `panic_halt` and the `.unwrap()` calls on peripherals: start-up failures are out of scope.
- The infinite loop itself: the model gives one pass (`Scheduler.Iterate`). Repeated passes are left to the caller.
