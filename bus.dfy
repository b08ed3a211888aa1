/**
 * The serial bus as the ARTF_RTC driver uses it, with the clock chip at its
 * other end.  Every access is one chip-select cycle: select the chip,
 * transfer an address byte, transfer a data byte (capturing the byte the chip
 * shifts out meanwhile), deselect.  An address with bit 7 set writes the
 * register `address - 0x80`; an address below 0x80 reads register
 * `address`.
 */
module RtcBus {
  import opened RtcCodec

  /** One select / address / data / deselect cycle, as it appears on the bus. */
  datatype Cycle = Cycle(address: Byte, data: Byte)

  /** The chip's registers are addressed by seven bits. */
  const RegisterCount := 0x80

  /** The register a cycle addresses, whether it reads or writes it: `address & 0x7F`. */
  function Target(c: Cycle): int {
    c.address % 0x80
  }

  /** Address `i + 0x80` writes register `i`; address `i` reads it. */
  lemma AddressTarget(i: int, data: Byte)
    requires 0 <= i < RegisterCount
    ensures Target(Cycle(i + 0x80, data)) == i && i + 0x80 >= 0x80
    ensures Target(Cycle(i, data)) == i && i < 0x80
  {
  }

  /** The register file after the chip has seen cycle `c`: a write stores its data byte, a read changes nothing. */
  function Effect(regs: seq<Byte>, c: Cycle): (r: seq<Byte>)
    requires |regs| == RegisterCount
    ensures |r| == RegisterCount
  {
    if c.address >= 0x80 then regs[Target(c) := c.data] else regs
  }

  /** Some cycle of `cs` writes register `k`. */
  predicate WritesTo(cs: seq<Cycle>, k: int) {
    exists c | c in cs :: c.address >= 0x80 && Target(c) == k
  }

  /**
   * The register file after the chip has seen the cycles `cs` in order,
   * starting from `regs`.  A register that no cycle of `cs` writes keeps
   * its value.
   */
  function Replay(regs: seq<Byte>, cs: seq<Cycle>): (r: seq<Byte>)
    requires |regs| == RegisterCount
    ensures |r| == RegisterCount
    ensures forall k | 0 <= k < RegisterCount && !WritesTo(cs, k) :: r[k] == regs[k]
    decreases |cs|
  {
    if cs == [] then regs
    else
      var front := cs[..|cs| - 1];
      assert forall c | c in front :: c in cs;
      Effect(Replay(regs, front), cs[|cs| - 1])
  }

  /** Replaying a log in two parts is replaying the whole log. */
  lemma {:induction false} ReplayAppend(regs: seq<Byte>, a: seq<Cycle>, b: seq<Cycle>)
    requires |regs| == RegisterCount
    ensures Replay(regs, a + b) == Replay(Replay(regs, a), b)
    decreases |b|
  {
    if b == [] {
      assert a + b == a;
    } else {
      var front := b[..|b| - 1];
      assert (a + b)[..|a + b| - 1] == a + front;
      ReplayAppend(regs, a, front);
    }
  }

  /** A log of reads only leaves every register as it was. */
  lemma {:induction false} ReplayReads(regs: seq<Byte>, cs: seq<Cycle>)
    requires |regs| == RegisterCount
    requires forall c | c in cs :: c.address < 0x80
    ensures Replay(regs, cs) == regs
    decreases |cs|
  {
    if cs != [] {
      var front := cs[..|cs| - 1];
      assert forall c | c in front :: c in cs;
      ReplayReads(regs, front);
    }
  }

  /** A simulated clock chip together with the record of every cycle it has seen. */
  class RtcChip {
    const regs: array<Byte>
    var log: seq<Cycle>

    ghost predicate Valid() {
      regs.Length == RegisterCount
    }

    constructor (init: seq<Byte>)
      requires |init| == RegisterCount
      ensures Valid() && fresh(regs)
      ensures regs[..] == init && log == []
    {
      regs := new Byte[RegisterCount](k requires 0 <= k < |init| => init[k]);
      log := [];
    }

    /**
     * One chip-select cycle.  The chip shifts out the addressed register
     * while it receives the data byte, then applies the cycle's effect.
     */
    method Transact(address: Byte, data: Byte) returns (reply: Byte)
      requires Valid()
      modifies this, regs
      ensures log == old(log) + [Cycle(address, data)]
      ensures regs[..] == Effect(old(regs[..]), Cycle(address, data))
      ensures reply == old(regs[Target(Cycle(address, data))])
    {
      var target := Target(Cycle(address, data));
      reply := regs[target];
      if address >= 0x80 {
        regs[target] := data;
      }
      log := log + [Cycle(address, data)];
    }
  }
}
