/**
 * rtl::frequency (src/rtl/units.hpp): a frequency stored as an
 * `unsigned int` count of hertz, 32 bits wide on the Cortex-M0.
 */
module Units {
  import Modular

  const WordMod: nat := 0x1_0000_0000
  const NanosecondsPerSecond: nat := 1_000_000_000

  type Word = x: nat | x < 0x1_0000_0000

  datatype Frequency = Frequency(hertz: Word)

  /** ticks_per_second(): the stored hertz. */
  function TicksPerSecond(f: Frequency): (r: Word)
  {
    f.hertz
  }

  /** The frequency constructed from `hertz` reports it back. */
  lemma TicksOfConstructed(hertz: Word)
    ensures TicksPerSecond(Frequency(hertz)) == hertz
  {
  }

  /**
   * nanoseconds_per_tick(): 10^9 / hertz in integer division, so the
   * period rounded down to whole nanoseconds; 0 Hz would divide by zero.
   */
  function NanosecondsPerTick(f: Frequency): (r: nat)
    requires f.hertz > 0
    ensures r * f.hertz <= NanosecondsPerSecond < (r + 1) * f.hertz
  {
    var r := NanosecondsPerSecond / f.hertz;
    assert NanosecondsPerSecond == r * f.hertz + NanosecondsPerSecond % f.hertz;
    r
  }

  /** none(): no frequency at all. */
  function NoFrequency(): (r: Frequency)
    ensures r.hertz == 0
  {
    Frequency(0)
  }

  /** operator*: the product of the hertz values, wrapped to 32 bits. */
  function Times(a: Frequency, b: Frequency): Frequency
  {
    Frequency((a.hertz * b.hertz) % WordMod)
  }

  /** Without overflow the product is exact. */
  lemma TimesExact(a: Frequency, b: Frequency)
    requires a.hertz * b.hertz < WordMod
    ensures Times(a, b).hertz == a.hertz * b.hertz
  {
    Modular.SmallMod(a.hertz * b.hertz, WordMod);
  }

  /** 65536 Hz times 65536 Hz wraps to none(). */
  lemma TimesWraps(a: Frequency)
    requires a.hertz == 0x1_0000
    ensures Times(a, a) == NoFrequency()
  {
    assert a.hertz * a.hertz == 1 * WordMod;
    Modular.MulMod(1, WordMod);
  }

  lemma TimesCommutes(a: Frequency, b: Frequency)
    ensures Times(a, b) == Times(b, a)
  {
    assert a.hertz * b.hertz == b.hertz * a.hertz;
  }

  lemma TimesIdentity(a: Frequency)
    ensures Times(a, Frequency(1)) == a && Times(NoFrequency(), a) == NoFrequency()
  {
  }

  lemma CongruentSameMod(x: int, y: int, m: int)
    requires m > 0 && Modular.Congruent(x, y, m)
    ensures x % m == y % m
  {
    Modular.CongruentWitness(x, y, m);
    var t := (x - y) / m;
    assert y == (y / m) * m + y % m;
    assert x == (t + y / m) * m + y % m;
    Modular.ModUnique(x, m, t + y / m, y % m);
  }

  /** Wrapping an intermediate product does not change the wrapped result. */
  lemma WrapFactor(x: int, c: int, m: int)
    requires m > 0
    ensures ((x % m) * c) % m == (x * c) % m
  {
    Modular.CongruentMod(x, m);
    Modular.CongruentScale(x % m, x, c, m);
    CongruentSameMod((x % m) * c, x * c, m);
  }

  /** Multiplication modulo 2^32 is associative. */
  lemma TimesAssociates(a: Frequency, b: Frequency, c: Frequency)
    ensures Times(Times(a, b), c) == Times(a, Times(b, c))
  {
    var x, y, z := a.hertz, b.hertz, c.hertz;
    WrapFactor(x * y, z, WordMod);
    WrapFactor(y * z, x, WordMod);
    assert (y * z % WordMod) * x == x * (y * z % WordMod);
    assert (y * z) * x == (x * y) * z;
  }
}
