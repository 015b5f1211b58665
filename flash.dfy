/**
 * flash_access_time(frequency), defined identically in src/main.cpp and
 * src/app/control/lpc1100.cpp: the flash wait states for a core clock
 * frequency, stored in the FLASHTIM field of FLASHCFG by a read-modify-write
 * that keeps every other bit. The FLASHCFG_FLASHTIM_* constants come from a
 * vendor header that is not part of this model, so the field's position,
 * width and codes are parameters.
 */
module Flash {
  import opened Mmio

  datatype AccessTime = OneClock | TwoClocks | ThreeClocks

  /** The wait states chosen: one clock below 20 MHz, two below 40 MHz, three from 40 MHz on. */
  function ForFrequency(frequency: nat): (r: AccessTime)
    ensures r == OneClock <==> frequency < 20_000_000
    ensures r == TwoClocks <==> 20_000_000 <= frequency < 40_000_000
    ensures r == ThreeClocks <==> 40_000_000 <= frequency
  {
    if frequency < 20_000_000 then OneClock
    else if frequency < 40_000_000 then TwoClocks
    else ThreeClocks
  }

  function Clocks(t: AccessTime): nat
  {
    match t
    case OneClock => 1
    case TwoClocks => 2
    case ThreeClocks => 3
  }

  /** A faster clock never gets fewer wait states. */
  lemma ForFrequencyMonotonic(f: nat, g: nat)
    requires f <= g
    ensures Clocks(ForFrequency(f)) <= Clocks(ForFrequency(g))
  {
  }

  /**
   * The field and its codes, already in place: `field` is
   * FLASHCFG_FLASHTIM_mask << FLASHCFG_FLASHTIM_bit and each code is a
   * FLASHCFG_FLASHTIM_*CLK value << FLASHCFG_FLASHTIM_bit.
   */
  datatype Layout = Layout(field: bv32, one: bv32, two: bv32, three: bv32)

  /** Every code lies within the field. */
  predicate WellFormed(l: Layout)
  {
    Within(l.one, l.field) && Within(l.two, l.field) && Within(l.three, l.field)
  }

  function Code(l: Layout, t: AccessTime): bv32
  {
    match t
    case OneClock => l.one
    case TwoClocks => l.two
    case ThreeClocks => l.three
  }

  lemma CodeFits(l: Layout, t: AccessTime)
    requires WellFormed(l)
    ensures Within(Code(l, t), l.field)
  {
  }

  /** No bit of `code` lies outside `field`. */
  predicate Within(code: bv32, field: bv32)
  {
    code & !field == 0
  }

  /** The register value written: the field cleared, then the code ORed in. */
  function WithField(field: bv32, v: bv32, code: bv32): bv32
  {
    (v & !field) | code
  }

  /** Only the FLASHTIM field changes, and it reads back the code stored. */
  lemma WithFieldKeepsOthers(field: bv32, v: bv32, code: bv32)
    requires Within(code, field)
    ensures WithField(field, v, code) & !field == v & !field
    ensures WithField(field, v, code) & field == code
  {
  }

  /**
   * flash_access_time(frequency): FLASHCFG read, the FLASHTIM field cleared,
   * the code ForFrequency picks ORed in, and the value written back.
   */
  method SetAccessTime(flashcfg: Register, l: Layout, frequency: nat)
    requires frequency < 0x1_0000_0000
    modifies flashcfg
    ensures flashcfg.value == WithField(l.field, old(flashcfg.value), Code(l, ForFrequency(frequency)))
    ensures flashcfg.stores == old(flashcfg.stores) + [flashcfg.value]
  {
    var register := flashcfg.Read(AllBits);
    flashcfg.Write((register & !l.field) | Code(l, ForFrequency(frequency)));
  }
}
