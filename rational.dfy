/**
 * The Cortex-M0 rational type: a signed W-bit numerator over an unsigned
 * W-bit denominator, with every operation computed exactly in the 2W-bit
 * types and then brought back into range by `normalize`. The instances are
 * r16/q16 (u16 over u32) and r32/q32 (u32 over u64); the r types normalise
 * in best mode (lowest terms), the q types in fast mode.
 *
 * C++ integer conversions are written out: a conversion to an unsigned type
 * is reduction modulo 2^w (ToUnsigned), one to a signed type the two's
 * complement reading of that residue (ToSigned). Signed overflow is
 * undefined behaviour and appears as a precondition.
 */
module Rational {
  import opened Modular

  const Two4: nat := 16
  const Two8: nat := 0x100
  const Two16: nat := 0x1_0000
  const Two32: nat := 0x1_0000_0000
  const Two64: nat := 0x1_0000_0000_0000_0000

  /** Conversion to an unsigned type with m values. */
  function ToUnsigned(x: int, m: nat): (r: nat)
    requires m > 0
    ensures r < m
  {
    x % m
  }

  /** Conversion to a signed two's-complement type with m values. */
  function ToSigned(x: int, m: nat): (r: int)
    requires m >= 2 && m % 2 == 0
    ensures -(m / 2) <= r < m / 2
  {
    var u := x % m;
    if u < m / 2 then u else u - m
  }

  lemma SignedCongruent(x: int, m: nat)
    requires m >= 2 && m % 2 == 0
    ensures Congruent(ToSigned(x, m), x, m)
  {
    CongruentMod(x, m);
    if x % m >= m / 2 {
      CongruentByWitness(x % m - m, x % m, m, -1);
      CongruentTransitive(x % m - m, x % m, x, m);
    }
  }

  // ------------------------------------------------------------- modinv

  /** detail::modinv_table: 16 entries, of which the first eight are given. */
  const ModinvTable: seq<nat> := [1, 11, 13, 7, 9, 3, 5, 15, 0, 0, 0, 0, 0, 0, 0, 0]

  /** modinv_table[(a & 0b1111) >> 1] */
  function TableEntry(a: nat): nat
  {
    ModinvTable[(a % Two4) / 2]
  }

  /**
   * One line `x *= static_cast<uN>(iN{2} - static_cast<iN>(x) * a)` with x
   * held in a type of m values: the factor is reduced modulo n, the product
   * modulo m.
   */
  function NewtonStep(x: nat, a: nat, n: nat, m: nat): (r: nat)
    requires n >= 2 && n % 2 == 0 && m > 0
    ensures r < m
  {
    (x * ToUnsigned(2 - ToSigned(x, n) * a, n)) % m
  }

  function Modinv8(a: nat): (r: nat)
    requires a < Two8
    ensures r < Two8
  {
    if a == 1 then 1 else NewtonStep(TableEntry(a), a, Two8, Two8)
  }

  function Modinv16(a: nat): (r: nat)
    requires a < Two16
    ensures r < Two16
  {
    if a == 1 then 1
    else
      var x := NewtonStep(TableEntry(a), a, Two8, Two16);
      NewtonStep(x, a, Two16, Two16)
  }

  function Modinv32(a: nat): (r: nat)
    requires a < Two32
    ensures r < Two32
  {
    if a == 1 then 1
    else
      var x := NewtonStep(TableEntry(a), a, Two8, Two32);
      var y := NewtonStep(x, a, Two16, Two32);
      NewtonStep(y, a, Two32, Two32)
  }

  function Modinv64(a: nat): (r: nat)
    requires a < Two64
    ensures r < Two64
  {
    if a == 1 then 1
    else
      var x := NewtonStep(TableEntry(a), a, Two8, Two64);
      var y := NewtonStep(x, a, Two16, Two64);
      var z := NewtonStep(y, a, Two32, Two64);
      NewtonStep(z, a, Two64, Two64)
  }

  /** The table holds the inverses of the odd residues modulo 16. */
  lemma TableInverse(a: nat)
    requires a % 2 == 1
    ensures Congruent(TableEntry(a) * a, 1, Two4)
  {
    var r := a % Two4;
    var t := TableEntry(a);
    assert r in {1, 3, 5, 7, 9, 11, 13, 15};
    assert (t * r) % Two4 == 1;
    assert a == (a / Two4) * Two4 + r;
    assert t * a - t * r == (t * (a / Two4)) * Two4;
    CongruentByWitness(t * a, t * r, Two4, t * (a / Two4));
    CongruentMod(t * r, Two4);
    CongruentSymmetric((t * r) % Two4, t * r, Two4);
    CongruentTransitive(t * a, t * r, 1, Two4);
  }

  lemma CongruentShift(a: int, b: int, c: int, n: int)
    requires n > 0 && Congruent(a, b, n)
    ensures Congruent(c - a, c - b, n)
  {
    CongruentWitness(a, b, n);
    CongruentByWitness(c - a, c - b, n, -((a - b) / n));
  }

  /** If e is a multiple of m0, then 1 - e*e is 1 modulo any n dividing m0*m0. */
  lemma SquareVanishes(v: int, m0: int, n: int, k: int)
    requires m0 > 0 && n > 0 && k > 0 && m0 * m0 == n * k && Congruent(v, 1, m0)
    ensures Congruent((2 - v) * v, 1, n)
  {
    CongruentWitness(v, 1, m0);
    var c := (v - 1) / m0;
    assert v - 1 == c * m0;
    calc {
      (2 - v) * v - 1;
      -((v - 1) * (v - 1));
      -((c * m0) * (c * m0));
      -((c * c) * (m0 * m0));
      -((c * c) * (n * k));
      (-(c * c * k)) * n;
    }
    CongruentByWitness((2 - v) * v, 1, n, -(c * c * k));
  }

  /** The factor of a Newton step is 2 - x*a modulo n. */
  lemma NewtonFactor(x: nat, a: nat, n: nat)
    requires n >= 2 && n % 2 == 0
    ensures Congruent(ToUnsigned(2 - ToSigned(x, n) * a, n), 2 - x * a, n)
  {
    var s := ToSigned(x, n);
    SignedCongruent(x, n);
    CongruentScale(s, x, a, n);
    CongruentShift(s * a, x * a, 2, n);
    CongruentMod(2 - s * a, n);
    CongruentTransitive(ToUnsigned(2 - s * a, n), 2 - s * a, 2 - x * a, n);
  }

  /** A Newton step doubles the number of correct low bits: an inverse modulo m0 becomes one modulo n. */
  lemma NewtonCorrect(x: nat, a: nat, m0: nat, n: nat, m: nat, k: nat, j: nat)
    requires n >= 2 && n % 2 == 0 && m0 > 0 && k > 0 && j > 0
    requires m0 * m0 == n * k && m == n * j
    requires Congruent(x * a, 1, m0)
    ensures Congruent(NewtonStep(x, a, n, m) * a, 1, n)
  {
    var f := ToUnsigned(2 - ToSigned(x, n) * a, n);
    var y := NewtonStep(x, a, n, m);
    NewtonFactor(x, a, n);
    CongruentMod(x * f, m);
    CongruentCoarser(y, x * f, n, j);
    CongruentScale(y, x * f, a, n);
    CongruentScale(f, 2 - x * a, x * a, n);
    assert (x * f) * a == f * (x * a);
    SquareVanishes(x * a, m0, n, k);
    CongruentTransitive(y * a, f * (x * a), (2 - x * a) * (x * a), n);
    CongruentTransitive(y * a, (2 - x * a) * (x * a), 1, n);
  }

  lemma CongruentOne(z: int, m: nat)
    requires m > 1 && Congruent(z, 1, m)
    ensures z % m == 1
  {
    CongruentMod(z, m);
    CongruentTransitive(z % m, z, 1, m);
    CongruentSmall(z % m, 1, m);
  }

  /** modinv<u8>: for odd a, a * modinv(a) is 1 modulo 2^8. */
  lemma Modinv8Inverse(a: nat)
    requires a < Two8 && a % 2 == 1
    ensures (a * Modinv8(a)) % Two8 == 1
  {
    if a != 1 {
      TableInverse(a);
      NewtonCorrect(TableEntry(a), a, Two4, Two8, Two8, 1, 1);
      CongruentOne(Modinv8(a) * a, Two8);
    }
  }

  /** modinv<u16>: for odd a, a * modinv(a) is 1 modulo 2^16. */
  lemma Modinv16Inverse(a: nat)
    requires a < Two16 && a % 2 == 1
    ensures (a * Modinv16(a)) % Two16 == 1
  {
    if a != 1 {
      TableInverse(a);
      var x := NewtonStep(TableEntry(a), a, Two8, Two16);
      NewtonCorrect(TableEntry(a), a, Two4, Two8, Two16, 1, Two8);
      NewtonCorrect(x, a, Two8, Two16, Two16, 1, 1);
      CongruentOne(Modinv16(a) * a, Two16);
    }
  }

  /** modinv<u32>: for odd a, a * modinv(a) is 1 modulo 2^32. */
  lemma Modinv32Inverse(a: nat)
    requires a < Two32 && a % 2 == 1
    ensures (a * Modinv32(a)) % Two32 == 1
  {
    if a != 1 {
      TableInverse(a);
      var x := NewtonStep(TableEntry(a), a, Two8, Two32);
      var y := NewtonStep(x, a, Two16, Two32);
      NewtonCorrect(TableEntry(a), a, Two4, Two8, Two32, 1, Two32 / Two8);
      NewtonCorrect(x, a, Two8, Two16, Two32, 1, Two16);
      NewtonCorrect(y, a, Two16, Two32, Two32, 1, 1);
      CongruentOne(Modinv32(a) * a, Two32);
    }
  }

  /** modinv<u64>: for odd a, a * modinv(a) is 1 modulo 2^64. */
  lemma Modinv64Inverse(a: nat)
    requires a < Two64 && a % 2 == 1
    ensures (a * Modinv64(a)) % Two64 == 1
  {
    if a != 1 {
      TableInverse(a);
      var x := NewtonStep(TableEntry(a), a, Two8, Two64);
      var y := NewtonStep(x, a, Two16, Two64);
      var z := NewtonStep(y, a, Two32, Two64);
      NewtonCorrect(TableEntry(a), a, Two4, Two8, Two64, 1, Two64 / Two8);
      NewtonCorrect(x, a, Two8, Two16, Two64, 1, Two64 / Two16);
      NewtonCorrect(y, a, Two16, Two32, Two64, 1, Two32);
      NewtonCorrect(z, a, Two32, Two64, Two64, 1, 1);
      CongruentOne(Modinv64(a) * a, Two64);
    }
  }

  // ------------------------------------------------------------ the type

  /** r16/q16 hold u16 over u32; r32/q32 hold u32 over u64. */
  datatype Width = W16 | W32

  /** rational_mode: best reduces to lowest terms, fast does not. */
  datatype Mode = Best | Fast

  /** Number of values of U. */
  function UMod(w: Width): nat
  {
    if w == W16 then Two16 else Two32
  }

  /** Number of values of UD. */
  function DMod(w: Width): nat
  {
    if w == W16 then Two32 else Two64
  }

  /** numeric_limits<S>::max() and numeric_limits<U>::max() */
  function MaxS(w: Width): nat
  {
    UMod(w) / 2 - 1
  }

  function MaxU(w: Width): nat
  {
    UMod(w) - 1
  }

  /** The double-width modinv<UD>. */
  function ModinvD(w: Width, a: nat): (r: nat)
    requires a < DMod(w)
    ensures r < DMod(w)
  {
    if w == W16 then Modinv32(a) else Modinv64(a)
  }

  lemma ModinvDInverse(w: Width, a: nat)
    requires a < DMod(w) && a % 2 == 1
    ensures Congruent(a * ModinvD(w, a), 1, DMod(w))
  {
    if w == W16 {
      Modinv32Inverse(a);
    } else {
      Modinv64Inverse(a);
    }
    var z := a * ModinvD(w, a);
    assert z == (z / DMod(w)) * DMod(w) + 1;
    CongruentByWitness(z, 1, DMod(w), z / DMod(w));
  }

  /** A numerator/denominator pair. */
  datatype Frac = Frac(p: int, q: nat)

  /** p fits S and q fits U. */
  predicate InRange(w: Width, f: Frac)
  {
    -(UMod(w) / 2) <= f.p < UMod(w) / 2 && f.q < UMod(w)
  }

  function Abs(x: int): nat
  {
    if x < 0 then -x else x
  }

  // ------------------------------------------------------------- gcd

  /**
   * rational::gcd: Euclid's loop, which starts from `gcd = 1` and so answers
   * 1, not a, when b is 0.
   */
  method Gcd(a0: nat, b0: nat) returns (g: nat)
    ensures b0 == 0 ==> g == 1
    ensures b0 != 0 ==> g == EuclidGcd(a0, b0)
  {
    g := 1;
    var a, b := a0, b0;
    while b != 0
      invariant b0 == 0 ==> b == 0 && g == 1
      invariant b0 != 0 ==> EuclidGcd(a, b) == EuclidGcd(a0, b0) && (b == 0 ==> g == a)
      decreases b
    {
      g := b;
      b := a % b;
      a := g;
    }
  }

  // ------------------------------------------------------- normalisation

  /** a with every factor of two removed. */
  function OddPart(a: nat): (r: nat)
    requires a > 0
    ensures r > 0 && r % 2 == 1
    decreases a
  {
    if a % 2 == 0 then OddPart(a / 2) else a
  }

  /** Halve both until a fits ma and b fits mb. */
  function Halved(a: nat, b: nat, ma: nat, mb: nat): (r: (nat, nat))
    decreases a + b
  {
    if a > ma || b > mb then Halved(a / 2, b / 2, ma, mb) else (a, b)
  }

  /**
   * The magnitude pair best mode reduces a/b to before range limiting:
   * lowest terms; with a zero denominator only the factors of two are
   * stripped from a. Fast mode keeps the pair.
   */
  function Reduced(mode: Mode, a: nat, b: nat): (r: (nat, nat))
    requires a > 0
  {
    if mode == Fast then (a, b)
    else if b == 0 then (OddPart(a), 0)
    else Lowest(a, b)
  }

  /** What normalize(pd, qd) leaves in pd and qd. */
  function Normalized(w: Width, mode: Mode, pd: int, qd: nat): Frac
  {
    if pd == 0 then Frac(0, 1)
    else
      var r := Reduced(mode, Abs(pd), qd);
      var h := Halved(r.0, r.1, MaxS(w), MaxU(w));
      var x: int := h.0;
      Frac(if pd < 0 then -x else x, if h.1 == 0 then 1 else h.1)
  }

  lemma LowestDouble(a: nat, b: nat)
    requires a > 0
    ensures Lowest(2 * a, 2 * b) == Lowest(a, b)
  {
    GcdDouble(a, b);
    GcdDivides(a, b);
    QuotientScaled(a, EuclidGcd(a, b), 2);
    QuotientScaled(b, EuclidGcd(a, b), 2);
  }

  lemma QuotientScaled(a: nat, g: nat, t: nat)
    requires Divides(g, a) && t > 0
    ensures Quotient(t * a, t * g) == Quotient(a, g)
  {
    var k := a / g;
    assert a == k * g;
    assert t * a == k * (t * g);
    MulMod(k, t * g);
  }

  /** The `while (pd % 2 == 0 && qd % 2 == 0)` loop of best mode. */
  method RemoveTwos(a0: nat, b0: nat) returns (a: nat, b: nat)
    requires a0 > 0
    ensures a > 0 && (a % 2 == 1 || b % 2 == 1) && a <= a0 && b <= b0
    ensures Reduced(Best, a, b) == Reduced(Best, a0, b0)
  {
    a, b := a0, b0;
    while a % 2 == 0 && b % 2 == 0
      invariant 0 < a <= a0 && b <= b0
      invariant Reduced(Best, a, b) == Reduced(Best, a0, b0)
      decreases a
    {
      if b != 0 {
        LowestDouble(a / 2, b / 2);
      }
      a, b := a / 2, b / 2;
    }
  }

  /** A common divisor of two numbers one of which is odd is odd. */
  lemma OddDivisor(g: nat, a: nat, b: nat)
    requires Divides(g, a) && Divides(g, b) && (a % 2 == 1 || b % 2 == 1)
    ensures g % 2 == 1
  {
    EvenDivisor(g, a);
    EvenDivisor(g, b);
  }

  lemma EvenDivisor(g: nat, a: nat)
    requires Divides(g, a)
    ensures g % 2 == 0 ==> a % 2 == 0
  {
    if g % 2 == 0 {
      var s := a / g;
      var h := g / 2;
      assert a == s * g;
      assert a == (s * h) * 2;
      MulMod(s * h, 2);
    }
  }

  /**
   * `inv = modinv<UD>(gcd(pd, qd)); if (inv > 1) { pd *= inv; qd *= inv; }`:
   * multiplying by the inverse of the odd gcd modulo 2^(2W) divides both
   * exactly.
   */
  method DivideByOddGcd(w: Width, a: nat, b: nat) returns (x: nat, y: nat)
    requires 0 < a < DMod(w) / 2 && b < DMod(w) && (a % 2 == 1 || b % 2 == 1)
    ensures (x, y) == Reduced(Best, a, b)
  {
    var g := Gcd(a, b);
    if b != 0 {
      GcdDivides(a, b);
      DivisorBound(g, b);
      OddDivisor(g, a, b);
    }
    var inv := ModinvD(w, g);
    x, y := a, b;
    if inv > 1 {
      ExactInverse(w, a, b, g, inv);
      x := ToSigned(a * inv, DMod(w));
      y := ToUnsigned(b * inv, DMod(w));
    } else if b != 0 {
      UnitInverse(w, g, inv);
    }
  }

  lemma ExactInverse(w: Width, a: nat, b: nat, g: nat, inv: nat)
    requires 0 < a < DMod(w) / 2 && 0 < b < DMod(w) && g == EuclidGcd(a, b)
    requires g % 2 == 1 && g < DMod(w) && inv == ModinvD(w, g)
    ensures ToSigned(a * inv, DMod(w)) == Lowest(a, b).0
    ensures ToUnsigned(b * inv, DMod(w)) == Lowest(a, b).1
  {
    GcdDivides(a, b);
    ModinvDInverse(w, g);
    ExactByInverse(a, g, inv, DMod(w));
    ExactByInverse(b, g, inv, DMod(w));
    QuotientBound(a, g);
  }

  /** An inverse that is 0 or 1 belongs to 1. */
  lemma UnitInverse(w: Width, g: nat, inv: nat)
    requires 0 < g < DMod(w) && g % 2 == 1 && inv == ModinvD(w, g) && inv <= 1
    ensures g == 1
  {
    ModinvDInverse(w, g);
    CongruentOne(g * inv, DMod(w));
  }

  /** The `while (pd > max(S) || qd > max(U))` halving loop. */
  method Halve(w: Width, a0: nat, b0: nat) returns (a: nat, b: nat)
    ensures (a, b) == Halved(a0, b0, MaxS(w), MaxU(w))
  {
    a, b := a0, b0;
    while a > MaxS(w) || b > MaxU(w)
      invariant Halved(a, b, MaxS(w), MaxU(w)) == Halved(a0, b0, MaxS(w), MaxU(w))
      decreases a + b
    {
      a, b := a / 2, b / 2;
    }
  }

  /** The magnitude part of normalize: reduce (best mode), then halve into range. */
  method Magnitude(w: Width, mode: Mode, a0: nat, b0: nat) returns (a: nat, b: nat)
    requires 0 < a0 < DMod(w) / 2 && b0 < DMod(w)
    ensures (a, b) == Halved(Reduced(mode, a0, b0).0, Reduced(mode, a0, b0).1, MaxS(w), MaxU(w))
  {
    a, b := a0, b0;
    if mode == Best {
      a, b := RemoveTwos(a, b);
      a, b := DivideByOddGcd(w, a, b);
    }
    a, b := Halve(w, a, b);
  }

  /**
   * rational::normalize(pd, qd), with the reference parameters as result:
   * zero becomes 0/1; otherwise the magnitude is reduced (best mode),
   * halved into range, given back its sign, and a zero denominator becomes 1.
   */
  method Normalize(w: Width, mode: Mode, pd: int, qd: nat) returns (r: Frac)
    requires -(DMod(w) / 2) < pd < DMod(w) / 2 && qd < DMod(w)
    ensures r == Normalized(w, mode, pd, qd)
  {
    if pd == 0 {
      return Frac(0, 1);
    }
    var positive := pd >= 0;
    var a, b := Magnitude(w, mode, Abs(pd), qd);
    var p: int := a;
    if !positive {
      p := -p;
    }
    if b == 0 {
      b := 1;
    }
    r := Frac(p, b);
  }

  // ------------------------------------------------ what normalize promises

  lemma {:induction false} HalvedBounds(a: nat, b: nat, ma: nat, mb: nat)
    ensures Halved(a, b, ma, mb).0 <= ma && Halved(a, b, ma, mb).1 <= mb
    ensures Halved(a, b, ma, mb).0 <= a && Halved(a, b, ma, mb).1 <= b
    decreases a + b
  {
    if a > ma || b > mb {
      HalvedBounds(a / 2, b / 2, ma, mb);
    }
  }

  /**
   * The result always fits: |num| <= max(S), 0 < den <= max(U); zero gives
   * 0/1, and the numerator never takes the opposite sign.
   */
  lemma NormalizedRange(w: Width, mode: Mode, pd: int, qd: nat)
    ensures var r := Normalized(w, mode, pd, qd);
      -(MaxS(w) as int) <= r.p <= MaxS(w) && 1 <= r.q <= MaxU(w) && InRange(w, r)
    ensures pd == 0 ==> Normalized(w, mode, pd, qd) == Frac(0, 1)
    ensures pd > 0 ==> Normalized(w, mode, pd, qd).p >= 0
    ensures pd < 0 ==> Normalized(w, mode, pd, qd).p <= 0
  {
    if pd != 0 {
      var r := Reduced(mode, Abs(pd), qd);
      HalvedBounds(r.0, r.1, MaxS(w), MaxU(w));
    }
  }

  /** The reduced pair already fits, so normalize does not have to halve it. */
  predicate Exact(w: Width, mode: Mode, pd: int, qd: nat)
  {
    pd == 0 || (Reduced(mode, Abs(pd), qd).0 <= MaxS(w) && Reduced(mode, Abs(pd), qd).1 <= MaxU(w))
  }

  /**
   * When nothing has to be halved, normalize keeps the value of pd/qd; best
   * mode leaves it in lowest terms, fast mode leaves it as it was.
   */
  lemma NormalizedExact(w: Width, mode: Mode, pd: int, qd: nat)
    requires qd > 0 && Exact(w, mode, pd, qd)
    ensures Normalized(w, mode, pd, qd).p * qd == pd * Normalized(w, mode, pd, qd).q
    ensures mode == Best ==> Coprime(Abs(Normalized(w, mode, pd, qd).p), Normalized(w, mode, pd, qd).q)
    ensures mode == Fast && pd != 0 ==> Normalized(w, mode, pd, qd) == Frac(pd, qd)
  {
    var r := Normalized(w, mode, pd, qd);
    if pd == 0 {
      forall d | Divides(d, 0) && Divides(d, 1)
        ensures d == 1
      {
        DivisorBound(d, 1);
      }
    } else if mode == Best {
      var a := Abs(pd);
      LowestCoprime(a, qd);
      var (x, y) := Lowest(a, qd);
      LowestPositive(a, qd);
      var xi: int := x;
      assert r == Frac(if pd < 0 then -xi else xi, y);
    }
  }

  lemma LowestPositive(a: nat, b: nat)
    requires a > 0 && b > 0
    ensures Lowest(a, b).0 > 0 && Lowest(a, b).1 > 0
  {
    var g := EuclidGcd(a, b);
    GcdDivides(a, b);
    QuotientExact(a, g);
    QuotientExact(b, g);
  }

  /** The value of a pair with a positive denominator. */
  function RealValue(f: Frac): real
    requires f.q > 0
  {
    f.p as real / f.q as real
  }

  lemma RatioEqual(x: int, y: int, u: int, v: int)
    requires y > 0 && v > 0 && x * v == u * y
    ensures x as real / y as real == u as real / v as real
  {
    assert (x as real) * (v as real) == (u as real) * (y as real);
  }

  /** Whenever it does not halve, normalize keeps the value of pd/qd exactly. */
  lemma NormalizedValue(w: Width, mode: Mode, pd: int, qd: nat)
    requires qd > 0 && Exact(w, mode, pd, qd)
    ensures RealValue(Normalized(w, mode, pd, qd)) == pd as real / qd as real
  {
    NormalizedExact(w, mode, pd, qd);
    NormalizedRange(w, mode, pd, qd);
    var r := Normalized(w, mode, pd, qd);
    RatioEqual(r.p, r.q, pd, qd);
  }

  // ------------------------------------------------------------ comparisons

  /** operator==: the cross products in SD are equal. */
  predicate Equal(a: Frac, b: Frac)
  {
    a.p * b.q == b.p * a.q
  }

  predicate NotEqual(a: Frac, b: Frac)
  {
    !Equal(a, b)
  }

  /** operator<: p_a * q_b < q_a * p_b in SD. */
  predicate Less(a: Frac, b: Frac)
  {
    a.p * b.q < a.q * b.p
  }

  predicate Greater(a: Frac, b: Frac)
  {
    Less(b, a)
  }

  predicate LessOrEqual(a: Frac, b: Frac)
  {
    !Greater(a, b)
  }

  predicate GreaterOrEqual(a: Frac, b: Frac)
  {
    !Less(a, b)
  }

  lemma MulBound(x: int, y: int, limitX: nat, limitY: nat)
    requires Abs(x) <= limitX && Abs(y) <= limitY
    ensures Abs(x * y) <= limitX * limitY
  {
    var ax, ay := Abs(x), Abs(y);
    assert Abs(x * y) == ax * ay;
    assert ax * ay <= limitX * ay;
    assert limitX * ay <= limitX * limitY;
  }

  /** The cross products of in-range operands fit SD, so the comparisons are exact. */
  lemma CrossProductsFit(w: Width, a: Frac, b: Frac)
    requires InRange(w, a) && InRange(w, b)
    ensures -(DMod(w) / 2) < a.p * b.q < DMod(w) / 2
    ensures -(DMod(w) / 2) < b.p * a.q < DMod(w) / 2
  {
    MulBound(a.p, b.q, UMod(w) / 2, UMod(w) - 1);
    MulBound(b.p, a.q, UMod(w) / 2, UMod(w) - 1);
  }

  /** The six comparisons order the values of their operands. */
  lemma ComparisonsOrderValues(a: Frac, b: Frac)
    requires a.q > 0 && b.q > 0
    ensures Equal(a, b) <==> RealValue(a) == RealValue(b)
    ensures NotEqual(a, b) <==> RealValue(a) != RealValue(b)
    ensures Less(a, b) <==> RealValue(a) < RealValue(b)
    ensures Greater(a, b) <==> RealValue(a) > RealValue(b)
    ensures LessOrEqual(a, b) <==> RealValue(a) <= RealValue(b)
    ensures GreaterOrEqual(a, b) <==> RealValue(a) >= RealValue(b)
  {
    RatioLess(a.p, a.q, b.p, b.q);
    RatioLess(b.p, b.q, a.p, a.q);
  }

  lemma RatioLess(x: int, y: int, u: int, v: int)
    requires y > 0 && v > 0
    ensures x * v < u * y <==> x as real / y as real < u as real / v as real
  {
    var a := x as real / y as real;
    var b := u as real / v as real;
    assert x as real == a * y as real;
    assert u as real == b * v as real;
    assert (x * v) as real == a * (y as real * v as real);
    assert (u * y) as real == b * (y as real * v as real);
  }

  // ------------------------------------------------------------ operators

  /** The SD numerator and UD denominator of each operator, before normalize. */
  function SumNumerator(a: Frac, b: Frac): int
  {
    a.p * b.q + a.q * b.p
  }

  function DifferenceNumerator(a: Frac, b: Frac): int
  {
    a.p * b.q - a.q * b.p
  }

  /** operator/=: `static_cast<UD>(q) * static_cast<UD>(rhs.p)` wraps a negative rhs.p. */
  function QuotientDenominator(w: Width, a: Frac, b: Frac): nat
  {
    ToUnsigned(a.q * b.p, DMod(w))
  }

  lemma ProductsFit(w: Width, a: Frac, b: Frac)
    requires InRange(w, a) && InRange(w, b)
    ensures -(DMod(w) / 2) < a.p * b.p < DMod(w) / 2
    ensures a.q * b.q < DMod(w)
  {
    var h, m := UMod(w) / 2, UMod(w) - 1;
    MulBound(a.p, b.p, h, h);
    MulBound(a.q, b.q, m, m);
    WidthProducts(w);
  }

  /** The products of two S or two U values fit SD and UD. */
  lemma WidthProducts(w: Width)
    ensures (UMod(w) / 2) * (UMod(w) / 2) < DMod(w) / 2
    ensures (UMod(w) - 1) * (UMod(w) - 1) < DMod(w)
    ensures (UMod(w) - 1) * (UMod(w) / 2) < DMod(w) / 2
  {
  }

  /** rational<U, UD, mode>: a numerator and a denominator, updated in place by the compound operators. */
  class Rational {
    const width: Width
    const mode: Mode
    var p: int
    var q: nat

    function Value(): Frac
      reads this
    {
      Frac(p, q)
    }

    ghost predicate Valid()
      reads this
    {
      InRange(width, Value())
    }

    /** rational(): 0/1 */
    constructor (width: Width, mode: Mode)
      ensures this.width == width && this.mode == mode && Value() == Frac(0, 1) && Valid()
    {
      this.width := width;
      this.mode := mode;
      p, q := 0, 1;
    }

    /**
     * rational(p, q): stores both. Its assertion sits inside `if (q != 0)`,
     * so it never fires and a zero denominator is stored as given.
     */
    constructor Pair(width: Width, mode: Mode, p: int, q: nat)
      requires InRange(width, Frac(p, q))
      ensures this.width == width && this.mode == mode && Value() == Frac(p, q) && Valid()
    {
      this.width := width;
      this.mode := mode;
      this.p, this.q := p, q;
    }

    /** rational(S x): x/1 */
    constructor FromSigned(width: Width, mode: Mode, x: int)
      requires -(UMod(width) / 2) <= x < UMod(width) / 2
      ensures this.width == width && this.mode == mode && Value() == Frac(x, 1) && Valid()
    {
      this.width := width;
      this.mode := mode;
      p, q := x, 1;
    }

    /** rational(U x) and rational(unsigned long long x): static_cast<S>(x)/1 */
    constructor FromUnsigned(width: Width, mode: Mode, x: nat)
      requires x < Two64
      ensures this.width == width && this.mode == mode && Value() == Frac(ToSigned(x, UMod(width)), 1) && Valid()
    {
      this.width := width;
      this.mode := mode;
      p, q := ToSigned(x, UMod(width)), 1;
    }

    method Assign(r: Frac)
      requires InRange(width, r)
      modifies this
      ensures Value() == r && Valid()
    {
      p, q := r.p, r.q;
    }

    method Combine(pd: int, qd: nat)
      requires -(DMod(width) / 2) < pd < DMod(width) / 2 && qd < DMod(width)
      modifies this
      ensures Value() == Normalized(width, mode, pd, qd) && Valid()
    {
      var r := Normalize(width, mode, pd, qd);
      NormalizedRange(width, mode, pd, qd);
      Assign(r);
    }

    /** operator+=(rational) */
    method AddAssign(rhs: Frac)
      requires Valid() && InRange(width, rhs)
      requires -(DMod(width) / 2) < SumNumerator(Value(), rhs) < DMod(width) / 2
      modifies this
      ensures Value() == Normalized(width, mode, SumNumerator(old(Value()), rhs), old(q) * rhs.q) && Valid()
    {
      ProductsFit(width, Value(), rhs);
      Combine(SumNumerator(Value(), rhs), q * rhs.q);
    }

    /** operator+=(S) */
    method AddAssignInt(rhs: int)
      requires Valid() && -(UMod(width) / 2) <= rhs < UMod(width) / 2
      requires -(DMod(width) / 2) < p + q * rhs < DMod(width) / 2
      modifies this
      ensures Value() == Normalized(width, mode, old(p) + old(q) * rhs, old(q)) && Valid()
    {
      Combine(p + q * rhs, q);
    }

    /** operator-=(rational) */
    method SubAssign(rhs: Frac)
      requires Valid() && InRange(width, rhs)
      requires -(DMod(width) / 2) < DifferenceNumerator(Value(), rhs) < DMod(width) / 2
      modifies this
      ensures Value() == Normalized(width, mode, DifferenceNumerator(old(Value()), rhs), old(q) * rhs.q) && Valid()
    {
      ProductsFit(width, Value(), rhs);
      Combine(DifferenceNumerator(Value(), rhs), q * rhs.q);
    }

    /** operator-=(S) */
    method SubAssignInt(rhs: int)
      requires Valid() && -(UMod(width) / 2) <= rhs < UMod(width) / 2
      requires -(DMod(width) / 2) < p - q * rhs < DMod(width) / 2
      modifies this
      ensures Value() == Normalized(width, mode, old(p) - old(q) * rhs, old(q)) && Valid()
    {
      Combine(p - q * rhs, q);
    }

    /** operator*=(rational): no overflow is possible. */
    method MulAssign(rhs: Frac)
      requires Valid() && InRange(width, rhs)
      modifies this
      ensures Value() == Normalized(width, mode, old(p) * rhs.p, old(q) * rhs.q) && Valid()
    {
      ProductsFit(width, Value(), rhs);
      Combine(p * rhs.p, q * rhs.q);
    }

    /** operator*=(S) */
    method MulAssignInt(rhs: int)
      requires Valid() && -(UMod(width) / 2) <= rhs < UMod(width) / 2
      modifies this
      ensures Value() == Normalized(width, mode, old(p) * rhs, old(q)) && Valid()
    {
      ProductsFit(width, Value(), Frac(rhs, 1));
      Combine(p * rhs, q);
    }

    /** operator/=(rational), as written: the denominator product is formed in UD. */
    method DivAssign(rhs: Frac)
      requires Valid() && InRange(width, rhs)
      modifies this
      ensures Value() == Normalized(width, mode, old(p) * rhs.q, QuotientDenominator(width, old(Value()), rhs)) && Valid()
    {
      CrossProductsFit(width, Value(), rhs);
      Combine(p * rhs.q, QuotientDenominator(width, Value(), rhs));
    }

    /** operator/=(S), as written: `static_cast<UD>(q) * static_cast<SD>(rhs)` is formed in UD. */
    method DivAssignInt(rhs: int)
      requires Valid() && -(UMod(width) / 2) <= rhs < UMod(width) / 2
      modifies this
      ensures Value() == Normalized(width, mode, old(p), ToUnsigned(old(q) * rhs, DMod(width))) && Valid()
    {
      Combine(p, ToUnsigned(q * rhs, DMod(width)));
    }

    /** Division with the divisor's sign moved to the numerator, as the operator evidently intends. */
    method DivAssignSigned(rhs: Frac)
      requires Valid() && InRange(width, rhs)
      modifies this
      ensures Value() == Normalized(width, mode, SignedQuotientNumerator(old(Value()), rhs), old(q) * Abs(rhs.p)) && Valid()
    {
      SignedQuotientFits(width, Value(), rhs);
      Combine(SignedQuotientNumerator(Value(), rhs), q * Abs(rhs.p));
    }

    /** operator+: a copy of *this, then +=; *this is left alone. */
    method Add(rhs: Frac) returns (r: Frac)
      requires Valid() && InRange(width, rhs)
      requires -(DMod(width) / 2) < SumNumerator(Value(), rhs) < DMod(width) / 2
      ensures r == Normalized(width, mode, SumNumerator(Value(), rhs), q * rhs.q)
    {
      var lhs := new Rational.Pair(width, mode, p, q);
      lhs.AddAssign(rhs);
      r := lhs.Value();
    }

    /** operator- */
    method Sub(rhs: Frac) returns (r: Frac)
      requires Valid() && InRange(width, rhs)
      requires -(DMod(width) / 2) < DifferenceNumerator(Value(), rhs) < DMod(width) / 2
      ensures r == Normalized(width, mode, DifferenceNumerator(Value(), rhs), q * rhs.q)
    {
      var lhs := new Rational.Pair(width, mode, p, q);
      lhs.SubAssign(rhs);
      r := lhs.Value();
    }

    /** operator* */
    method Mul(rhs: Frac) returns (r: Frac)
      requires Valid() && InRange(width, rhs)
      ensures r == Normalized(width, mode, p * rhs.p, q * rhs.q)
    {
      var lhs := new Rational.Pair(width, mode, p, q);
      lhs.MulAssign(rhs);
      r := lhs.Value();
    }

    /** operator/ */
    method Div(rhs: Frac) returns (r: Frac)
      requires Valid() && InRange(width, rhs)
      ensures r == Normalized(width, mode, p * rhs.q, QuotientDenominator(width, Value(), rhs))
    {
      var lhs := new Rational.Pair(width, mode, p, q);
      lhs.DivAssign(rhs);
      r := lhs.Value();
    }
  }

  function SignedQuotientNumerator(a: Frac, b: Frac): int
  {
    if b.p < 0 then -(a.p * b.q) else a.p * b.q
  }

  lemma SignedQuotientFits(w: Width, a: Frac, b: Frac)
    requires InRange(w, a) && InRange(w, b)
    ensures -(DMod(w) / 2) < SignedQuotientNumerator(a, b) < DMod(w) / 2
    ensures a.q * Abs(b.p) < DMod(w)
  {
    CrossProductsFit(w, a, b);
    MulBound(a.q, b.p, UMod(w) - 1, UMod(w) / 2);
  }

  // --------------------------------------------------- operators on values

  lemma FractionSum(x: int, y: int, u: int, v: int)
    requires y > 0 && v > 0
    ensures (x * v + y * u) as real / (y * v) as real == x as real / y as real + u as real / v as real
  {
    var a := x as real / y as real;
    var b := u as real / v as real;
    assert x as real == a * y as real;
    assert u as real == b * v as real;
    assert (x * v + y * u) as real == (a + b) * ((y * v) as real);
  }

  lemma FractionDifference(x: int, y: int, u: int, v: int)
    requires y > 0 && v > 0
    ensures (x * v - y * u) as real / (y * v) as real == x as real / y as real - u as real / v as real
  {
    var a := x as real / y as real;
    var b := u as real / v as real;
    assert x as real == a * y as real;
    assert u as real == b * v as real;
    assert (x * v - y * u) as real == (a - b) * ((y * v) as real);
  }

  lemma FractionProduct(x: int, y: int, u: int, v: int)
    requires y > 0 && v > 0
    ensures (x * u) as real / (y * v) as real == (x as real / y as real) * (u as real / v as real)
  {
    var a := x as real / y as real;
    var b := u as real / v as real;
    assert x as real == a * y as real;
    assert u as real == b * v as real;
    assert (x * u) as real == (a * b) * ((y * v) as real);
  }

  /** x/y divided by u/v, with the divisor's sign s carried to the numerator. */
  lemma FractionQuotient(x: int, y: int, u: int, v: int, s: int)
    requires y > 0 && v > 0 && (s == 1 || s == -1) && s * u > 0
    ensures (s * (x * v)) as real / (y * (s * u)) as real == (x as real / y as real) / (u as real / v as real)
  {
    var a := x as real / y as real;
    var b := u as real / v as real;
    assert x as real == a * y as real;
    assert u as real == b * v as real;
    assert b != 0.0;
    assert (s * (x * v)) as real == (a / b) * ((y * (s * u)) as real);
  }

  /** When normalize need not halve, += adds exactly. */
  lemma SumValue(w: Width, mode: Mode, a: Frac, b: Frac)
    requires a.q > 0 && b.q > 0 && Exact(w, mode, SumNumerator(a, b), a.q * b.q)
    ensures RealValue(Normalized(w, mode, SumNumerator(a, b), a.q * b.q)) == RealValue(a) + RealValue(b)
  {
    NormalizedValue(w, mode, SumNumerator(a, b), a.q * b.q);
    FractionSum(a.p, a.q, b.p, b.q);
  }

  /** When normalize need not halve, -= subtracts exactly. */
  lemma DifferenceValue(w: Width, mode: Mode, a: Frac, b: Frac)
    requires a.q > 0 && b.q > 0 && Exact(w, mode, DifferenceNumerator(a, b), a.q * b.q)
    ensures RealValue(Normalized(w, mode, DifferenceNumerator(a, b), a.q * b.q)) == RealValue(a) - RealValue(b)
  {
    NormalizedValue(w, mode, DifferenceNumerator(a, b), a.q * b.q);
    FractionDifference(a.p, a.q, b.p, b.q);
  }

  /** When normalize need not halve, *= multiplies exactly. */
  lemma ProductValue(w: Width, mode: Mode, a: Frac, b: Frac)
    requires a.q > 0 && b.q > 0 && Exact(w, mode, a.p * b.p, a.q * b.q)
    ensures RealValue(Normalized(w, mode, a.p * b.p, a.q * b.q)) == RealValue(a) * RealValue(b)
  {
    NormalizedValue(w, mode, a.p * b.p, a.q * b.q);
    FractionProduct(a.p, a.q, b.p, b.q);
  }

  /** As written, /= divides exactly by a positive divisor. */
  lemma QuotientValue(w: Width, mode: Mode, a: Frac, b: Frac)
    requires InRange(w, a) && InRange(w, b) && a.q > 0 && b.q > 0 && b.p > 0
    requires Exact(w, mode, a.p * b.q, QuotientDenominator(w, a, b))
    ensures RealValue(Normalized(w, mode, a.p * b.q, QuotientDenominator(w, a, b))) == RealValue(a) / RealValue(b)
  {
    QuotientDenominatorPositive(w, a, b);
    NormalizedValue(w, mode, a.p * b.q, a.q * b.p);
    FractionQuotient(a.p, a.q, b.p, b.q, 1);
  }

  lemma QuotientDenominatorPositive(w: Width, a: Frac, b: Frac)
    requires InRange(w, a) && InRange(w, b) && a.q > 0 && b.p > 0
    ensures QuotientDenominator(w, a, b) == a.q * b.p > 0
  {
    MulBound(a.q, b.p, UMod(w) - 1, UMod(w) / 2);
    MultipleBound(b.p, a.q);
  }

  /**
   * As written, /= by a negative divisor never gives a negative result: the
   * divisor's sign is lost when q * rhs.p is formed in UD, while the true
   * quotient of a positive by a negative value is negative.
   */
  lemma DivideByNegativeLosesSign(w: Width, mode: Mode, a: Frac, b: Frac)
    requires InRange(w, a) && InRange(w, b) && a.q > 0 && b.q > 0 && a.p > 0 && b.p < 0
    ensures RealValue(Normalized(w, mode, a.p * b.q, QuotientDenominator(w, a, b))) >= 0.0
    ensures RealValue(a) / RealValue(b) < 0.0
  {
    MultipleBound(b.q, a.p);
    NormalizedRange(w, mode, a.p * b.q, QuotientDenominator(w, a, b));
    NonNegativeValue(Normalized(w, mode, a.p * b.q, QuotientDenominator(w, a, b)));
    OppositeSigns(a, b);
  }

  lemma NonNegativeValue(f: Frac)
    requires f.q > 0 && f.p >= 0
    ensures RealValue(f) >= 0.0
  {
  }

  lemma OppositeSigns(a: Frac, b: Frac)
    requires a.q > 0 && b.q > 0 && a.p > 0 && b.p < 0
    ensures RealValue(a) > 0.0 && RealValue(b) < 0.0
    ensures RealValue(a) / RealValue(b) < 0.0
  {
  }

  /**
   * r16 1 /= -1: the denominator 1 * (UD)(-1) is 2^32 - 1, which normalize
   * halves sixteen times into range, giving 0/65535 instead of -1.
   */
  lemma DivideByMinusOne(qd: nat)
    requires qd == QuotientDenominator(W16, Frac(1, 1), Frac(-1, 1))
    ensures qd == Two32 - 1
    ensures Normalized(W16, Best, 1, qd) == Frac(0, 65535)
  {
    GcdOfOne(qd);
    assert Reduced(Best, 1, qd) == (1, qd);
    HalvedWrapped(qd);
  }

  lemma GcdOfOne(b: nat)
    requires b > 1
    ensures EuclidGcd(1, b) == 1
  {
    assert EuclidGcd(1, b) == EuclidGcd(b, 1);
    assert EuclidGcd(b, 1) == EuclidGcd(1, 0);
  }

  /** Sixteen halvings take 1/(2^32 - 1) to 0/65535. */
  lemma HalvedWrapped(b: nat)
    requires b == Two32 - 1
    ensures Halved(1, b, 32767, 65535) == (0, 65535)
  {
    HalvedStep(1, b, 32767, 65535);
    HalvedSixteenth(b / 2);
    HalvedSixteenth((b / 2 + 1) / 16 - 1);
    HalvedSixteenth((b / 2 + 1) / 256 - 1);
    var c := (b / 2 + 1) / 4096 - 1;
    assert c == 524287;
    HalvedStep(0, c, 32767, 65535);
    HalvedStep(0, c / 2, 32767, 65535);
    HalvedStep(0, c / 4, 32767, 65535);
  }

  /** Four halvings of an all-ones denominator above the 16-bit range. */
  lemma HalvedSixteenth(b: nat)
    requires b >= 1048575 && (b + 1) % 16 == 0
    ensures Halved(0, b, 32767, 65535) == Halved(0, (b + 1) / 16 - 1, 32767, 65535)
  {
    HalvedStep(0, b, 32767, 65535);
    HalvedStep(0, b / 2, 32767, 65535);
    HalvedStep(0, b / 4, 32767, 65535);
    HalvedStep(0, b / 8, 32767, 65535);
    assert b / 2 / 2 / 2 / 2 == (b + 1) / 16 - 1;
  }

  lemma HalvedStep(a: nat, b: nat, ma: nat, mb: nat)
    requires a > ma || b > mb
    ensures Halved(a, b, ma, mb) == Halved(a / 2, b / 2, ma, mb)
  {
  }

  /** With the sign moved to the numerator, division is exact for every nonzero divisor. */
  lemma SignedQuotientValue(w: Width, mode: Mode, a: Frac, b: Frac)
    requires a.q > 0 && b.q > 0 && b.p != 0
    requires Exact(w, mode, SignedQuotientNumerator(a, b), a.q * Abs(b.p))
    ensures RealValue(Normalized(w, mode, SignedQuotientNumerator(a, b), a.q * Abs(b.p))) == RealValue(a) / RealValue(b)
  {
    var s := if b.p < 0 then -1 else 1;
    assert SignedQuotientNumerator(a, b) == s * (a.p * b.q);
    assert Abs(b.p) == s * b.p;
    MultipleBound(Abs(b.p), a.q);
    NormalizedValue(w, mode, SignedQuotientNumerator(a, b), a.q * Abs(b.p));
    FractionQuotient(a.p, a.q, b.p, b.q, s);
  }
}
