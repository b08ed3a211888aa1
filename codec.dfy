/**
 * Register codec of the ARTF_RTC driver: how one civil-time field is packed
 * into a binary-coded-decimal (BCD) register byte when the clock is set, and
 * how a register byte read back from the clock is unpacked into an integer.
 *
 * The seven timekeeping registers are indexed 0..6: seconds, minutes, hours,
 * day of week, day of month, month, year.  The driver never touches the day
 * of week register (index 3).
 */
module RtcCodec {

  /** One byte as it travels over the serial bus. */
  type Byte = x: int | 0 <= x < 0x100

  const Seconds := 0
  const Minutes := 1
  const Hours := 2
  const DayOfWeek := 3
  const Day := 4
  const Month := 5
  const Year := 6

  /** The registers the driver reads and writes, in the order it visits them. */
  const TimeRegisters: seq<int> := [Seconds, Minutes, Hours, Day, Month, Year]

  /**
   * Register `i` is one of the registers the driver visits, spelled out
   * case by case: the loops' proofs reason one register at a time, which
   * is cheaper for the solver than membership in `TimeRegisters`.
   * TimeRegistersListed shows the two agree.
   */
  predicate IsTimeRegister(i: int) {
    i == Seconds || i == Minutes || i == Hours || i == Day || i == Month || i == Year
  }

  /** The case-by-case predicate and the visiting order name the same registers. */
  lemma TimeRegistersListed(i: int)
    ensures IsTimeRegister(i) <==> i in TimeRegisters
  {
  }

  /**
   * The six decoded fields, as the driver keeps them in its `timedate` array
   * (slot 3, the day of week, is never filled).  The same record carries the
   * six arguments of `setDateTime`.
   */
  datatype TimeFields = TimeFields(second: int, minute: int, hour: int, day: int, month: int, year: int)

  /** The value `setDateTime` places in slot `i` of its `timedate` array. */
  function FieldAt(t: TimeFields, i: int): int {
    if i == Seconds then t.second
    else if i == Minutes then t.minute
    else if i == Hours then t.hour
    else if i == Day then t.day
    else if i == Month then t.month
    else if i == Year then t.year
    else 0
  }

  // ---------------------------------------------------------------------
  // Writing: digit split and BCD pack

  /**
   * The values the driver can pack without leaving defined C `int`
   * arithmetic, for a 32-bit `int`: not negative (the shift of a negative
   * tens digit is not defined) and small enough that `a + (b << 4)` fits
   * in 31 bits.
   */
  predicate Packable(v: int) {
    0 <= v && v / 10 * 16 + v % 10 <= 0x7FFF_FFFF
  }

  /**
   * The remapping of the hour's tens digit: 2 becomes the code 0b10, 1 the
   * code 0b01, and anything else is left as it is.  Each branch reproduces
   * its input, so the remap is the identity.
   */
  function HourTensCode(b: int): (code: int)
    ensures code == b
  {
    if b == 2 then 0x02
    else if b == 1 then 0x01
    else b
  }

  /**
   * The integer `a + (b << 4)` that `setDateTime` stores back into slot `i`:
   * the ones digit in the low nibble and the tens digit (remapped for the
   * hour) from bit 4 upwards.  For a non-negative `b`, `b << 4` is `b * 16`.
   */
  function Pack(i: int, v: int): (r: int)
    requires Packable(v)
    ensures 0 <= r <= 0x7FFF_FFFF
    ensures r % 16 == v % 10 && r / 16 == v / 10
  {
    var b := v / 10;
    var a := v - b * 10;
    var tens := if i == Hours then HourTensCode(b) else b;
    a + tens * 16
  }

  /**
   * The byte the bus carries for a non-negative `int` argument of
   * `SPI.transfer`: its low eight bits.
   */
  function ToByte(x: int): (r: Byte)
    requires 0 <= x
    ensures x < 0x100 ==> r == x
    ensures r % 16 == x % 16
  {
    var low := x % 0x100;
    DivMod(x, 16, x / 0x100 * 16 + low / 16, low % 16);
    low
  }

  /** The data byte `setDateTime` sends for field value `v` of register `i`. */
  function Encode(i: int, v: int): (r: Byte)
    requires Packable(v)
    ensures r % 16 == v % 10
    ensures v < 160 ==> r / 16 == v / 10
  {
    ToByte(Pack(i, v))
  }

  /**
   * The byte sent for `v` holds the ones digit in its low nibble and the
   * tens digit, reduced modulo 16, in its high nibble.
   */
  lemma EncodeNibbles(i: int, v: int)
    requires Packable(v)
    ensures Encode(i, v) % 16 == v % 10
    ensures Encode(i, v) / 16 == v / 10 % 16
  {
    var x, a, b := Pack(i, v), v % 10, v / 10;
    var q, r := b / 16, b % 16;
    var low := a + r * 16;
    assert x == low + q * 256;
    DivMod(x, 256, q, low);
    DivMod(low, 16, r, a);
  }

  /** Quotient and remainder by 16 or 256 are determined by `x == q * d + r` with `0 <= r < d`. */
  lemma DivMod(x: int, d: int, q: int, r: int)
    requires d == 16 || d == 256
    requires 0 <= r < d && x == q * d + r
    ensures x / d == q && x % d == r
  {
    if d == 16 {
      assert x == q * 16 + r;
    } else {
      assert x == q * 256 + r;
    }
  }

  /** A two-digit value is sent as plain BCD: tens digit high, ones digit low. */
  lemma EncodeIsBcd(i: int, v: int)
    requires 0 <= v <= 99
    ensures Encode(i, v) == v / 10 * 16 + v % 10 <= 0x99
    ensures Encode(i, v) % 16 == v % 10 && Encode(i, v) / 16 == v / 10
  {
    EncodeNibbles(i, v);
  }

  /** For an hour of the day the tens code written into bits 4-5 is `hour / 10`: 0, 1 or 2. */
  lemma HourTensCodeOfHour(hour: int)
    requires 0 <= hour <= 23
    ensures HourTensCode(hour / 10) == hour / 10 <= 2
    ensures Encode(Hours, hour) / 16 % 4 == hour / 10
    ensures Encode(Hours, hour) < 0x40
  {
    EncodeNibbles(Hours, hour);
  }

  // ---------------------------------------------------------------------
  // Reading: mask, shift and scale

  /**
   * What the hour's tens code adds.  On the codes an hour 0..23 produces
   * (0, 1, 2) the two special cases amount to plain "ten times the code";
   * code 3, the only other value bits 4-5 can hold, adds just 3.
   */
  function HourTens(code: int): (r: int)
    ensures 0 <= code <= 2 ==> r == 10 * code
    ensures code == 3 ==> r == 3
  {
    if code == 0x02 then 20
    else if code == 0x01 then 10
    else code
  }

  /**
   * The integer `readDateTime` computes from the byte `n` read from
   * register `i`: the low nibble plus the register's tens field, which is
   * bits 4-6 for seconds and minutes, bits 4-5 for the hour (mapped through
   * HourTens) and the day, bit 4 for the month and bits 4-7 for the year.
   * Each mask-and-shift of the driver is written as the arithmetic it
   * computes; DecodeMatchesMasks proves the two agree.
   */
  function Decode(i: int, n: Byte): (r: int)
    ensures 0 <= r <= DecodeMax(i)
  {
    var a := n % 16;                // n & B00001111
    if i == Hours then
      var b := n / 16 % 4;          // (n & B00110000) >> 4
      a + HourTens(b)
    else if i == Day then
      var b := n / 16 % 4;          // (n & B00110000) >> 4
      a + b * 10
    else if i == Month then
      var b := n / 16 % 2;          // (n & B00010000) >> 4
      a + b * 10
    else if i == Year then
      var b := n / 16;              // (n & B11110000) >> 4
      a + b * 10
    else
      var b := n / 16 % 8;          // (n & B01110000) >> 4
      a + b * 10
  }

  /** The largest value Decode can return for register `i`. */
  function DecodeMax(i: int): int {
    if i == Hours then 35
    else if i == Day then 45
    else if i == Month then 25
    else if i == Year then 165
    else 85
  }

  /** The bound of Decode is tight: some byte reaches it (for the hour, tens code 2). */
  lemma DecodeMaxReached(i: int)
    ensures Decode(i, if i == Hours then 0x2F else 0xFF) == DecodeMax(i)
  {
  }

  /**
   * Decode as the driver writes it, with masks and shifts on the eight-bit
   * value the bus returns.
   */
  function DecodeMasked(i: int, n: bv8): int {
    var a := (n & 0x0F) as int;
    if i == Hours then
      var b := ((n & 0x30) >> 4) as int;
      a + (if b == 0x02 then 20 else if b == 0x01 then 10 else b)
    else if i == Day then
      a + ((n & 0x30) >> 4) as int * 10
    else if i == Month then
      a + ((n & 0x10) >> 4) as int * 10
    else if i == Year then
      a + ((n & 0xF0) >> 4) as int * 10
    else
      a + ((n & 0x70) >> 4) as int * 10
  }

  /** The arithmetic Decode agrees with the masks and shifts on every byte. */
  lemma DecodeMatchesMasks(i: int, n: bv8)
    ensures Decode(i, n as int) == DecodeMasked(i, n)
  {
    LowNibbleMask(n);
    if i == Hours || i == Day {
      HourDayMask(n);
    } else if i == Month {
      MonthMask(n);
    } else if i == Year {
      YearMask(n);
    } else {
      SecondsMinutesMask(n);
    }
  }

  lemma LowNibbleMask(n: bv8)
    ensures (n & 0x0F) as int == n as int % 16
  {
  }

  lemma SecondsMinutesMask(n: bv8)
    ensures ((n & 0x70) >> 4) as int == n as int / 16 % 8
  {
  }

  lemma HourDayMask(n: bv8)
    ensures ((n & 0x30) >> 4) as int == n as int / 16 % 4
  {
  }

  lemma MonthMask(n: bv8)
    ensures ((n & 0x10) >> 4) as int == n as int / 16 % 2
  {
  }

  lemma YearMask(n: bv8)
    ensures ((n & 0xF0) >> 4) as int == n as int / 16
  {
  }

  /** What the tens field of register `i` adds for the value `tens` of bits 4-7. */
  function TensValue(i: int, tens: int): int {
    if i == Hours then HourTens(tens % 4)
    else if i == Day then tens % 4 * 10
    else if i == Month then tens % 2 * 10
    else if i == Year then tens * 10
    else tens % 8 * 10
  }

  /** An hour byte whose tens code is 3 is read as its ones digit plus 3, not plus 30. */
  lemma HourCodeThree(n: Byte)
    requires n / 16 % 4 == 3
    ensures Decode(Hours, n) == n % 16 + 3
  {
  }

  // ---------------------------------------------------------------------
  // Round trip of one register

  /** The largest value of register `i` that survives a write and a read. */
  function RoundTripMax(i: int): int {
    if i == Hours then 29
    else if i == Day then 39
    else if i == Month then 19
    else if i == Year then 159
    else 79
  }

  /**
   * Reading back what was written returns the value written exactly when
   * the value is at most RoundTripMax(i): the tens field of the register is
   * wide enough for its tens digit, and (for the year) the packed value
   * still fits in the eight bits the bus carries.
   */
  lemma {:induction false} RoundTripExactly(i: int, v: int)
    requires IsTimeRegister(i) && Packable(v)
    ensures Decode(i, Encode(i, v)) == v <==> v <= RoundTripMax(i)
  {
    var a, b := v % 10, v / 10;
    EncodeNibbles(i, v);
    assert Decode(i, Encode(i, v)) == a + TensValue(i, b % 16);
    TensRoundTrip(i, b);
  }

  /** The tens field gives back ten times the tens digit `b` exactly when `b` fits in it. */
  lemma TensRoundTrip(i: int, b: nat)
    requires IsTimeRegister(i)
    ensures TensValue(i, b % 16) == b * 10 <==> b <= RoundTripMax(i) / 10
  {
    if i == Hours && 3 <= b <= 15 {
      assert TensValue(i, b % 16) == HourTens(b % 4) <= 20;
    }
  }

  /** Civil-time ranges: seconds and minutes 0..59, hour 0..23, day 1..31, month 1..12, two-digit year. */
  predicate ValidTime(t: TimeFields) {
    && 0 <= t.second <= 59
    && 0 <= t.minute <= 59
    && 0 <= t.hour <= 23
    && 1 <= t.day <= 31
    && 1 <= t.month <= 12
    && 0 <= t.year <= 99
  }

  /** Every field of a valid time round-trips through its register. */
  lemma RoundTripField(t: TimeFields, i: int)
    requires ValidTime(t) && IsTimeRegister(i)
    ensures Packable(FieldAt(t, i))
    ensures Decode(i, Encode(i, FieldAt(t, i))) == FieldAt(t, i)
  {
    RoundTripExactly(i, FieldAt(t, i));
  }

  /** Worked examples: 45 seconds is 0x45; hours 20, 10 and 5 carry tens codes 0b10, 0b01 and 0b00. */
  lemma Examples()
    ensures Encode(Seconds, 45) == 0x45 && Decode(Seconds, 0x45) == 45
    ensures Encode(Hours, 20) == 0x20 && Decode(Hours, 0x20) == 20
    ensures Encode(Hours, 10) == 0x10 && Decode(Hours, 0x10) == 10
    ensures Encode(Hours, 5) == 0x05 && Decode(Hours, 0x05) == 5
  {
    assert Pack(Seconds, 45) == 0x45;
    assert Pack(Hours, 20) == 0x20;
    assert Pack(Hours, 10) == 0x10;
    assert Pack(Hours, 5) == 0x05;
  }

  // ---------------------------------------------------------------------
  // A year passed with its century

  /**
   * The year is packed as the caller passes it: nothing subtracts 1900 or
   * 2000.  A four-digit year such as 2023 has the tens "digit" 202, which
   * overflows the byte: 3 + 202 * 16 = 3235 is sent as 0xA3, and reads back
   * as 103.
   */
  lemma FourDigitYear()
    ensures Encode(Year, 2023) == 0xA3
    ensures Decode(Year, Encode(Year, 2023)) == 103
  {
    assert Pack(Year, 2023) == 3235;
  }
}
