/**
 * The ARTF_RTC driver: power-on configuration, setting the date and time
 * (one write cycle per timekeeping register) and reading it back (one read
 * cycle per register, decoded field by field).  Both loops visit registers
 * 0, 1, 2, 4, 5, 6 and skip the day of week register 3 by bumping their
 * index inside the loop body.
 */
module ArtfRtcDriver {
  import opened RtcCodec
  import opened RtcBus

  /** The configuration cycle of `begin`: control register 0x0E := 0x60. */
  const ConfigCycle := Cycle(0x8E, 0x60)

  /** Every field of `t` can be packed (see Packable). */
  predicate AllPackable(t: TimeFields) {
    && Packable(t.second) && Packable(t.minute) && Packable(t.hour)
    && Packable(t.day) && Packable(t.month) && Packable(t.year)
  }

  /** The write cycle for register `i`: address `i + 0x80`, then the packed field. */
  function WriteCycle(t: TimeFields, i: int): Cycle
    requires AllPackable(t) && IsTimeRegister(i)
  {
    Cycle(i + 0x80, Encode(i, FieldAt(t, i)))
  }

  /** The cycles `setDateTime` issues for `t`, in bus order. */
  function WriteCycles(t: TimeFields): seq<Cycle>
    requires AllPackable(t)
  {
    seq(6, k requires 0 <= k < 6 => WriteCycle(t, TimeRegisters[k]))
  }

  /** The cycles `readDateTime` issues: address `i`, then the dummy byte 0x00. */
  const ReadCycles: seq<Cycle> := seq(6, k requires 0 <= k < 6 => Cycle(TimeRegisters[k], 0x00))

  /** How many cycles a loop has issued when its index reaches `i` (index 3 issues none). */
  function CyclesBefore(i: int): int {
    if i <= 3 then i else i - 1
  }

  /** The addresses of a sequence of cycles, in order. */
  function Addresses(cs: seq<Cycle>): seq<Byte> {
    seq(|cs|, k requires 0 <= k < |cs| => cs[k].address)
  }

  /**
   * Setting the date and time takes six cycles, at write addresses
   * 0x80, 0x81, 0x82, 0x84, 0x85, 0x86 in that order; the day of week
   * register is never addressed.
   */
  lemma WriteCyclesOrder(t: TimeFields)
    requires AllPackable(t)
    ensures |WriteCycles(t)| == 6
    ensures Addresses(WriteCycles(t)) == [0x80, 0x81, 0x82, 0x84, 0x85, 0x86]
    ensures forall c | c in WriteCycles(t) :: Target(c) != DayOfWeek && c.address >= 0x80
  {
  }

  /**
   * Reading the date and time takes six cycles, at read addresses
   * 0, 1, 2, 4, 5, 6 in that order, each sending the dummy byte 0x00.
   */
  lemma ReadCyclesOrder()
    ensures ReadCycles == [Cycle(0, 0), Cycle(1, 0), Cycle(2, 0), Cycle(4, 0), Cycle(5, 0), Cycle(6, 0)]
    ensures forall c | c in ReadCycles :: Target(c) != DayOfWeek && c.address < 0x80
  {
  }

  /**
   * The registers once the write cycles for the timekeeping registers below
   * `n` are done: those hold their packed fields, every other register keeps
   * its value.
   */
  function StoredBelow(regs: seq<Byte>, t: TimeFields, n: int): (r: seq<Byte>)
    requires |regs| == RegisterCount && AllPackable(t)
    ensures |r| == RegisterCount
  {
    seq(RegisterCount, k requires 0 <= k < RegisterCount =>
      if IsTimeRegister(k) && k < n then Encode(k, FieldAt(t, k)) else regs[k])
  }

  /**
   * The registers after `setDateTime(t)`: each timekeeping register holds
   * its packed field; every other register, the day of week among them,
   * keeps its value.
   */
  function StoreFrame(regs: seq<Byte>, t: TimeFields): (r: seq<Byte>)
    requires |regs| == RegisterCount && AllPackable(t)
    ensures |r| == RegisterCount
  {
    StoredBelow(regs, t, 7)
  }

  /** The write cycle for register `i` takes the registers from "below i" to "below i + 1". */
  lemma StoreStep(regs: seq<Byte>, t: TimeFields, i: int)
    requires |regs| == RegisterCount && AllPackable(t) && IsTimeRegister(i)
    ensures Effect(StoredBelow(regs, t, i), Cycle(i + 0x80, ToByte(Pack(i, FieldAt(t, i))))) == StoredBelow(regs, t, i + 1)
  {
    AddressTarget(i, Encode(i, FieldAt(t, i)));
  }

  /** The six fields `readDateTime` decodes from the registers. */
  function DecodeFrame(regs: seq<Byte>): (r: TimeFields)
    requires |regs| == RegisterCount
    ensures forall i | 0 <= i < 7 && IsTimeRegister(i) :: FieldAt(r, i) == Decode(i, regs[i])
  {
    TimeFields(
      Decode(Seconds, regs[Seconds]), Decode(Minutes, regs[Minutes]), Decode(Hours, regs[Hours]),
      Decode(Day, regs[Day]), Decode(Month, regs[Month]), Decode(Year, regs[Year]))
  }

  /** Nothing is stored for the day of week register. */
  lemma StoreSkipsDayOfWeek(regs: seq<Byte>, t: TimeFields)
    requires |regs| == RegisterCount && AllPackable(t)
    ensures StoredBelow(regs, t, DayOfWeek) == StoredBelow(regs, t, DayOfWeek + 1)
  {
  }

  /** The write cycles up to register `i` are those before it followed by the cycle of `i`. */
  lemma WriteCyclesPrefix(t: TimeFields, i: int)
    requires AllPackable(t) && IsTimeRegister(i)
    ensures CyclesBefore(i) < 6 && CyclesBefore(i + 1) == CyclesBefore(i) + 1
    ensures WriteCycles(t)[..CyclesBefore(i + 1)] ==
      WriteCycles(t)[..CyclesBefore(i)] + [Cycle(i + 0x80, ToByte(Pack(i, FieldAt(t, i))))]
  {
    assert WriteCycles(t)[CyclesBefore(i)] == WriteCycle(t, i);
  }

  /** The read cycles up to register `i` are those before it followed by the cycle of `i`. */
  lemma ReadCyclesPrefix(i: int)
    requires IsTimeRegister(i)
    ensures CyclesBefore(i) < 6 && CyclesBefore(i + 1) == CyclesBefore(i) + 1
    ensures ReadCycles[..CyclesBefore(i + 1)] == ReadCycles[..CyclesBefore(i)] + [Cycle(i, 0x00)]
  {
    assert ReadCycles[CyclesBefore(i)] == Cycle(i, 0x00);
  }

  /**
   * Replaying the write cycles issued before the loop index reaches `i`
   * gives the registers with the fields below `i` stored.
   */
  lemma {:induction false} ReplayWritePrefix(regs: seq<Byte>, t: TimeFields, i: int)
    requires |regs| == RegisterCount && AllPackable(t) && 0 <= i <= 7
    ensures 0 <= CyclesBefore(i) <= 6
    ensures Replay(regs, WriteCycles(t)[..CyclesBefore(i)]) == StoredBelow(regs, t, i)
    decreases i
  {
    if i == 0 {
      assert StoredBelow(regs, t, 0) == regs;
    } else if i - 1 == DayOfWeek {
      ReplayWritePrefix(regs, t, i - 1);
      StoreSkipsDayOfWeek(regs, t);
    } else {
      var p := i - 1;
      ReplayWritePrefix(regs, t, p);
      WriteCyclesPrefix(t, p);
      var front := WriteCycles(t)[..CyclesBefore(p)];
      var c := Cycle(p + 0x80, ToByte(Pack(p, FieldAt(t, p))));
      assert (front + [c])[..|front + [c]| - 1] == front;
      StoreStep(regs, t, p);
    }
  }

  /** The registers `setDateTime` leaves are exactly what its logged cycles make of the old ones. */
  lemma ReplayWriteCycles(regs: seq<Byte>, t: TimeFields)
    requires |regs| == RegisterCount && AllPackable(t)
    ensures Replay(regs, WriteCycles(t)) == StoreFrame(regs, t)
  {
    ReplayWritePrefix(regs, t, 7);
    assert WriteCycles(t)[..6] == WriteCycles(t);
  }

  /** The cycles of `readDateTime` change no register. */
  lemma ReplayReadCycles(regs: seq<Byte>)
    requires |regs| == RegisterCount
    ensures Replay(regs, ReadCycles) == regs
  {
    ReadCyclesOrder();
    ReplayReads(regs, ReadCycles);
  }

  /** Each field of `t` is small enough to survive its register (see RoundTripMax). */
  predicate FitsRegisters(t: TimeFields) {
    forall i | 0 <= i < 7 && IsTimeRegister(i) :: FieldAt(t, i) <= RoundTripMax(i)
  }

  /**
   * Decoding the registers that `setDateTime(t)` leaves behind gives back
   * `t` exactly when every field fits its register.
   */
  lemma FrameRoundTripExactly(regs: seq<Byte>, t: TimeFields)
    requires |regs| == RegisterCount && AllPackable(t)
    ensures DecodeFrame(StoreFrame(regs, t)) == t <==> FitsRegisters(t)
  {
    var r := StoreFrame(regs, t);
    forall i | IsTimeRegister(i)
      ensures Decode(i, r[i]) == FieldAt(t, i) <==> FieldAt(t, i) <= RoundTripMax(i)
    {
      RoundTripExactly(i, FieldAt(t, i));
    }
    assert DecodeFrame(r) == TimeFields(
      Decode(Seconds, r[Seconds]), Decode(Minutes, r[Minutes]), Decode(Hours, r[Hours]),
      Decode(Day, r[Day]), Decode(Month, r[Month]), Decode(Year, r[Year]));
  }

  /**
   * The round trip for a civil time (seconds and minutes 0..59, hour 0..23,
   * day 1..31, month 1..12, year 0..99): reading back returns the six values
   * written, and the day of week register keeps its value.
   */
  lemma RoundTrip(regs: seq<Byte>, t: TimeFields)
    requires |regs| == RegisterCount && ValidTime(t)
    ensures AllPackable(t)
    ensures DecodeFrame(StoreFrame(regs, t)) == t
    ensures StoreFrame(regs, t)[DayOfWeek] == regs[DayOfWeek]
  {
    FrameRoundTripExactly(regs, t);
  }

  /** The driver object: the chip-select pin it owns and the bus it drives. */
  class ArtfRtc {
    const csPin: int
    const chip: RtcChip

    constructor (csPin: int, chip: RtcChip)
      ensures this.csPin == csPin && this.chip == chip
    {
      this.csPin := csPin;
      this.chip := chip;
    }

    /** Power-on configuration: one cycle writing 0x60 to the control register. */
    method Begin()
      requires chip.Valid()
      modifies chip, chip.regs
      ensures chip.log == old(chip.log) + [ConfigCycle]
      ensures chip.regs[..] == old(chip.regs[..])[0x0E := 0x60]
    {
      var _ := chip.Transact(0x8E, 0x60);
    }

    /**
     * Packs the six fields into BCD and writes them to registers 0, 1, 2,
     * 4, 5 and 6, one cycle each, in that order.
     */
    method SetDateTime(day: int, month: int, year: int, hours: int, minutes: int, seconds: int)
      requires chip.Valid()
      requires AllPackable(TimeFields(seconds, minutes, hours, day, month, year))
      modifies chip, chip.regs
      ensures chip.log == old(chip.log) + WriteCycles(TimeFields(seconds, minutes, hours, day, month, year))
      ensures chip.regs[..] == StoreFrame(old(chip.regs[..]), TimeFields(seconds, minutes, hours, day, month, year))
    {
      ghost var t := TimeFields(seconds, minutes, hours, day, month, year);
      var timedate := new int[7] [seconds, minutes, hours, 0, day, month, year];
      var i := 0;
      while i <= 6
        invariant 0 <= i <= 7 && i != 4
        invariant forall k | i <= k < 7 :: timedate[k] == FieldAt(t, k)
        invariant chip.log == old(chip.log) + WriteCycles(t)[..CyclesBefore(i)]
        invariant chip.regs[..] == StoredBelow(old(chip.regs[..]), t, i)
      {
        if i == 3 {
          StoreSkipsDayOfWeek(old(chip.regs[..]), t);
          i := i + 1;
        }
        assert timedate[i] == FieldAt(t, i);
        timedate[i] := Pack(i, timedate[i]);
        WriteCyclesPrefix(t, i);
        StoreStep(old(chip.regs[..]), t, i);
        var _ := chip.Transact(i + 0x80, ToByte(timedate[i]));
        i := i + 1;
      }
      assert WriteCycles(t)[..6] == WriteCycles(t);
    }

    /**
     * Reads registers 0, 1, 2, 4, 5 and 6, one cycle each, in that order,
     * and decodes each into its field.
     */
    method ReadDateTime() returns (t: TimeFields)
      requires chip.Valid()
      modifies chip, chip.regs
      ensures chip.log == old(chip.log) + ReadCycles
      ensures chip.regs[..] == old(chip.regs[..])
      ensures t == DecodeFrame(chip.regs[..])
    {
      ghost var regs := chip.regs[..];
      var timedate := new int[7];
      var i := 0;
      while i <= 6
        invariant 0 <= i <= 7 && i != 4
        invariant chip.log == old(chip.log) + ReadCycles[..CyclesBefore(i)]
        invariant chip.regs[..] == regs
        invariant forall k | 0 <= k < i && IsTimeRegister(k) :: timedate[k] == Decode(k, regs[k])
      {
        if i == 3 {
          i := i + 1;
        }
        ReadCyclesPrefix(i);
        var n := chip.Transact(i, 0x00);
        assert n == regs[i];
        timedate[i] := Decode(i, n);
        i := i + 1;
      }
      t := TimeFields(timedate[0], timedate[1], timedate[2], timedate[4], timedate[5], timedate[6]);
    }
  }

  /**
   * Setting a civil time and reading it back returns it; the day of week
   * register keeps its value, and the bus sees the six write cycles and
   * then the six read cycles.
   */
  method SetThenRead(rtc: ArtfRtc, t: TimeFields) returns (back: TimeFields)
    requires rtc.chip.Valid() && ValidTime(t)
    modifies rtc.chip, rtc.chip.regs
    ensures back == t
    ensures rtc.chip.regs[DayOfWeek] == old(rtc.chip.regs[DayOfWeek])
    ensures rtc.chip.log == old(rtc.chip.log) + WriteCycles(t) + ReadCycles
    ensures rtc.chip.regs[..] == Replay(old(rtc.chip.regs[..]), WriteCycles(t) + ReadCycles)
  {
    RoundTrip(rtc.chip.regs[..], t);
    ReplayAppend(rtc.chip.regs[..], WriteCycles(t), ReadCycles);
    ReplayWriteCycles(rtc.chip.regs[..], t);
    ReplayReadCycles(StoreFrame(rtc.chip.regs[..], t));
    rtc.SetDateTime(t.day, t.month, t.year, t.hour, t.minute, t.second);
    back := rtc.ReadDateTime();
  }
}
