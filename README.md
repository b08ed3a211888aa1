# ARTF_RTC register codec in Dafny

This project models the real-time-clock driver `ARTF_RTC` of the Greenhouse
firmware. The driver talks to a serial (SPI) clock chip of the DeadOn RTC
kind. Setting the date and time splits each field into a ones digit and a
tens digit and packs them into one binary-coded-decimal (BCD) byte. The
tens digit goes in the high nibble. Each byte is written to its register in
a chip-select cycle of its own. Reading does the reverse: the driver reads
each register and adds the low nibble to ten times a masked tens field. The
width of that field depends on the register, and the hour maps its tens
code non-linearly.

Files:

- `codec.dfy`, module `RtcCodec`: per-field packing (`Pack`, `Encode`) and
  unpacking (`Decode`) as functions, with lemmas about them. The lemmas cover
  BCD layout, bounds, the hour codes and the exact round-trip range of each
  register.
- `bus.dfy`, module `RtcBus`: one chip-select cycle (`Cycle`) and a
  simulated clock chip `RtcChip`. The chip has a 128-entry register file and
  a log of every cycle it has seen. A cycle whose address has bit 7 set
  writes register `address - 0x80`. A cycle with a lower address reads
  register `address`.
- `driver.dfy`, module `ArtfRtcDriver`: the driver class `ArtfRtc` with
  `Begin`, `SetDateTime` and `ReadDateTime`. `SetDateTime` and
  `ReadDateTime` each have the source's loop, including the
  `if (i == 3) i++` skip of the day-of-week register. The module also holds the specification functions for the cycle sequences and
  the registers, and the round-trip lemmas.

Two points where the code differs from what one might expect of such a
driver. Both are modelled as the code does them:

- The year is packed exactly as the caller passes it. Nothing subtracts 1900
  on write, and nothing adds a century on read. A four-digit year is not
  reduced modulo 100. For 2023 the tens "digit" is 202, so the packed value
  3235 leaves the bus as its low byte 0xA3, which reads back as 103
  (`RtcCodec.FourDigitYear`).
- The hour's tens remap on write (2 to `B00000010`, 1 to `B00000001`) is the
  identity (`RtcCodec.HourTensCode`). On read, tens code 3 adds 3, not 30
  (`RtcCodec.HourCodeThree`).

The `int` argument of `SPI.transfer` is narrowed to its low eight bits
(`RtcCodec.ToByte`). This follows the Arduino SPI library's `uint8_t`
parameter. The SPI library is not part of this model.

## Model

| member | source | states |
|---|---|---|
| `RtcCodec.TimeRegistersListed` | ARTF_RTC/ARTF_RTC.cpp:26-31 | a register is visited by the driver's loops exactly when it is one of 0, 1, 2, 4, 5, 6, the registers in visiting order |
| `RtcCodec.HourTensCode` | ARTF_RTC/ARTF_RTC.cpp:36-46 | the hour's tens remap returns its input: code 0b10 for 2, 0b01 for 1, anything else unchanged |
| `RtcCodec.Pack` | ARTF_RTC/ARTF_RTC.cpp:33-48 | the stored `a + (b << 4)` has the ones digit as its value mod 16 and the tens digit above it, and fits in a 32-bit C `int` for every packable value |
| `RtcCodec.ToByte` | ARTF_RTC/ARTF_RTC.cpp:51 | the byte sent equals the argument when it fits in eight bits, and always keeps its low nibble |
| `RtcCodec.Encode` | ARTF_RTC/ARTF_RTC.cpp:33-51 | the byte `setDateTime` sends has the ones digit in its low nibble, and for values below 160 the tens digit in its high nibble |
| `RtcCodec.EncodeNibbles` | ARTF_RTC/ARTF_RTC.cpp:33-51 | the byte sent has the ones digit in its low nibble and the tens digit modulo 16 in its high nibble |
| `RtcCodec.EncodeIsBcd` | ARTF_RTC/ARTF_RTC.cpp:33-51 | for 0..99 the byte is `(v/10)*16 + v%10`, at most 0x99; its low nibble is the ones digit and its high nibble the tens digit |
| `RtcCodec.HourTensCodeOfHour` | ARTF_RTC/ARTF_RTC.cpp:36-48 | for hours 0..23 the tens code in bits 4-5 is `hours/10`, at most 2, and the byte is below 0x40 (bits 6-7 clear) |
| `RtcCodec.HourTens` | ARTF_RTC/ARTF_RTC.cpp:93-101 | on the tens codes 0, 1 and 2 that hours 0..23 produce, the special-cased hour map is plain ten times the code; code 3, the only other value of bits 4-5, adds just 3 |
| `RtcCodec.Decode` | ARTF_RTC/ARTF_RTC.cpp:89-123 | decoding is total over all 256 bytes and bounded: 85 for seconds and minutes, 35 for hours, 45 for the day, 25 for the month, 165 for the year |
| `RtcCodec.DecodeMaxReached` | ARTF_RTC/ARTF_RTC.cpp:89-123 | each bound of Decode is reached by some byte, so no bound is loose |
| `RtcCodec.DecodeMatchesMasks` | ARTF_RTC/ARTF_RTC.cpp:89-123 | on every eight-bit value, Decode equals the driver's own mask-and-shift computation (`DecodeMasked`) |
| `RtcCodec.HourCodeThree` | ARTF_RTC/ARTF_RTC.cpp:93-102 | an hour byte with tens code 3 decodes as its low nibble plus 3 |
| `RtcCodec.RoundTripExactly` | ARTF_RTC/ARTF_RTC.cpp:33-123 | reading back a written field gives the value exactly when it is at most 79 (seconds, minutes), 29 (hour), 39 (day), 19 (month) or 159 (year) |
| `RtcCodec.TensRoundTrip` | ARTF_RTC/ARTF_RTC.cpp:89-123 | a register's tens field returns ten times the tens digit exactly when the digit fits the field |
| `RtcCodec.RoundTripField` | ARTF_RTC/ARTF_RTC.cpp:25-123 | every field of a civil time in range round-trips through its register |
| `RtcCodec.Examples` | ARTF_RTC/ARTF_RTC.cpp:33-123 | 45 seconds is sent as 0x45; hours 20, 10 and 5 are sent as 0x20, 0x10 and 0x05; each decodes back |
| `RtcCodec.FourDigitYear` | ARTF_RTC/ARTF_RTC.cpp:25-51 | year 2023 is sent as 0xA3 and reads back as 103: the century is neither removed nor restored |
| `RtcBus.AddressTarget` | ARTF_RTC/ARTF_RTC.cpp:50-86 | address `i + 0x80` writes register `i`, address `i` reads register `i` |
| `RtcBus.RtcChip.Transact` | ARTF_RTC/ARTF_RTC.cpp:85-88 | one select/address/data/deselect cycle is logged; a write stores the data byte in its register, a read returns the register and changes nothing |
| `RtcBus.Replay` | ARTF_RTC/ARTF_RTC.cpp:49-52 | replaying a sequence of cycles keeps the 128-register file size, and a register that no cycle of the sequence writes keeps its value |
| `RtcBus.ReplayAppend` | ARTF_RTC/ARTF_RTC.cpp:49-52 | replaying a log in two parts, one after the other, is replaying the whole log |
| `RtcBus.ReplayReads` | ARTF_RTC/ARTF_RTC.cpp:85-88 | a log of read cycles only leaves every register as it was |
| `ArtfRtcDriver.WriteCyclesOrder` | ARTF_RTC/ARTF_RTC.cpp:26-52 | setting the time takes exactly six cycles, at addresses 0x80, 0x81, 0x82, 0x84, 0x85, 0x86 in that order; register 3 is never addressed |
| `ArtfRtcDriver.ReadCyclesOrder` | ARTF_RTC/ARTF_RTC.cpp:78-88 | reading the time takes exactly six cycles, at addresses 0, 1, 2, 4, 5, 6 in that order, each with the dummy byte 0x00; register 3 is never addressed |
| `ArtfRtcDriver.DecodeFrame` | ARTF_RTC/ARTF_RTC.cpp:89-132 | the field of each timekeeping register is the decoded byte of that same register, placed in its `TimeElements` slot; register 3 is not read into any field |
| `ArtfRtcDriver.StoreSkipsDayOfWeek` | ARTF_RTC/ARTF_RTC.cpp:28-31 | skipping index 3 stores nothing: the registers below 3 and below 4 are the same |
| `ArtfRtcDriver.StoreStep` | ARTF_RTC/ARTF_RTC.cpp:48-52 | the write cycle of register `i` stores its packed field and leaves every other register as it was |
| `ArtfRtcDriver.ReplayWritePrefix` | ARTF_RTC/ARTF_RTC.cpp:26-53 | after the loop index reaches `i`, replaying the cycles issued so far stores exactly the packed fields of the timekeeping registers below `i` |
| `ArtfRtcDriver.ReplayWriteCycles` | ARTF_RTC/ARTF_RTC.cpp:23-54 | replaying the six write cycles of `setDateTime` gives exactly the register file `StoreFrame` describes |
| `ArtfRtcDriver.ReplayReadCycles` | ARTF_RTC/ARTF_RTC.cpp:78-88 | replaying the six read cycles of `readDateTime` changes no register |
| `ArtfRtcDriver.FrameRoundTripExactly` | ARTF_RTC/ARTF_RTC.cpp:23-124 | decoding the registers `setDateTime` leaves gives back all six fields exactly when every field fits its register |
| `ArtfRtcDriver.RoundTrip` | ARTF_RTC/ARTF_RTC.cpp:23-124 | for seconds and minutes 0..59, hours 0..23, day 1..31, month 1..12 and year 0..99, write then decode returns the six values, and register 3 keeps its value |
| `ArtfRtcDriver.ArtfRtc.constructor` | ARTF_RTC/ARTF_RTC.h:10 | the driver keeps the chip-select pin it is given |
| `ArtfRtcDriver.ArtfRtc.Begin` | ARTF_RTC/ARTF_RTC.cpp:16-19 | power-on issues exactly one cycle, address 0x8E with data 0x60, which sets control register 0x0E to 0x60 and changes nothing else |
| `ArtfRtcDriver.ArtfRtc.SetDateTime` | ARTF_RTC/ARTF_RTC.cpp:23-54 | the bus sees exactly the six write cycles in register order, and the registers become the packed fields, all others unchanged |
| `ArtfRtcDriver.ArtfRtc.ReadDateTime` | ARTF_RTC/ARTF_RTC.cpp:75-132 | the bus sees exactly the six read cycles in register order, no register changes, and the result is the decoded fields of registers 0, 1, 2, 4, 5, 6 |
| `ArtfRtcDriver.SetThenRead` | ARTF_RTC/ARTF_RTC.cpp:23-132 | setting a civil time and reading it back returns it, leaves register 3 unchanged, logs six write cycles followed by six read cycles, and leaves the registers those logged cycles produce when replayed |

## Left out

- `readDateTime`'s conversion through `makeTime` into a `time_t` (ARTF_RTC/ARTF_RTC.cpp:126-134). The Time library is not part of this model. `ReadDateTime` returns the six decoded fields that the driver places into `TimeElements`.
- `readDateTimeAsText`, `readDateAsText` and `readTimeAsText` (ARTF_RTC/ARTF_RTC.cpp:56-73). They format the `time_t` through the Time library and Arduino `String`, neither of which is part of this model.
- Pin and bus setup: `pinMode`, `SPI.begin`, bit order, data mode, and the `delay(10)` after configuration (ARTF_RTC/ARTF_RTC.cpp:10-14, 20). Chip-select and the two transfers of a cycle appear only as one `Cycle` entry in the chip's log. The pin number is not recorded in it.
- The SD-card wrapper `ARTF_SDCard`. It is file I/O over the SdFat library, which is not part of this model.
- Bus failures. The transfer primitive always returns a byte, as the driver assumes.
- The clock chip itself. `RtcChip` is a simple register file. During a write it shifts out the old register value, which the driver ignores. It has no oscillator, no ticking, no alarms and no special behaviour for the control register.
- ArtfRtcDriver.ArtfRtc.SetDateTime: requires every field to be non-negative, with `a + (b << 4)` fitting in a C `int`. Negative values (C's truncating division and the shift of a negative number) and overflowing values are not modelled.
- `RtcCodec.Packable` and `RtcCodec.Pack` assume a 32-bit C `int`. The source does not name the board, and on 16-bit-`int` boards (classic AVR) `a + (b << 4)` already overflows for values of 20480 and more, for example 30000 seconds. The byte sent is the low eight bits either way, so only the no-overflow precondition is wider than such a board allows.
