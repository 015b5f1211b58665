/**
 * Divisibility, congruences and greatest common divisors over unbounded
 * integers: the arithmetic facts the rational type's normalisation relies on.
 */
module Modular {
  /** d is a positive divisor of x. */
  predicate Divides(d: int, x: int)
  {
    d > 0 && x % d == 0
  }

  /** a and b are congruent modulo n. */
  predicate Congruent(a: int, b: int, n: int)
    requires n > 0
  {
    (a - b) % n == 0
  }

  lemma MultipleBound(k: int, n: int)
    requires n > 0
    ensures k >= 1 ==> k * n >= n
    ensures k <= -1 ==> k * n <= -n
  {
    if k >= 1 {
      assert k * n == (k - 1) * n + n;
    } else if k <= -1 {
      assert k * n == (k + 1) * n - n;
    }
  }

  /** Euclidean division has exactly one quotient and remainder. */
  lemma ModUnique(x: int, n: int, q: int, r: int)
    requires n > 0 && x == q * n + r && 0 <= r < n
    ensures x % n == r && x / n == q
  {
    var q' := x / n;
    var r' := x % n;
    assert x == q' * n + r';
    assert (q - q') * n == r' - r;
    MultipleBound(q - q', n);
  }

  /** A value already below the modulus is its own remainder. */
  lemma SmallMod(x: int, m: int)
    requires 0 <= x < m
    ensures x % m == x
  {
    ModUnique(x, m, 0, x);
  }

  lemma MulMonotonic(a: nat, b: nat, c: nat)
    requires b <= c
    ensures a * b <= a * c
  {
  }

  lemma MulMod(t: int, n: int)
    requires n > 0
    ensures (t * n) % n == 0 && (t * n) / n == t
  {
    ModUnique(t * n, n, t, 0);
  }

  lemma CongruentByWitness(a: int, b: int, n: int, t: int)
    requires n > 0 && a - b == t * n
    ensures Congruent(a, b, n)
  {
    MulMod(t, n);
  }

  lemma CongruentWitness(a: int, b: int, n: int)
    requires n > 0 && Congruent(a, b, n)
    ensures a - b == ((a - b) / n) * n
  {
  }

  lemma CongruentMod(x: int, n: int)
    requires n > 0
    ensures Congruent(x % n, x, n)
  {
    CongruentByWitness(x % n, x, n, -(x / n));
  }

  lemma CongruentSymmetric(a: int, b: int, n: int)
    requires n > 0 && Congruent(a, b, n)
    ensures Congruent(b, a, n)
  {
    CongruentWitness(a, b, n);
    CongruentByWitness(b, a, n, -((a - b) / n));
  }

  lemma CongruentTransitive(a: int, b: int, c: int, n: int)
    requires n > 0 && Congruent(a, b, n) && Congruent(b, c, n)
    ensures Congruent(a, c, n)
  {
    CongruentWitness(a, b, n);
    CongruentWitness(b, c, n);
    CongruentByWitness(a, c, n, (a - b) / n + (b - c) / n);
  }

  lemma CongruentScale(a: int, b: int, c: int, n: int)
    requires n > 0 && Congruent(a, b, n)
    ensures Congruent(a * c, b * c, n)
  {
    CongruentWitness(a, b, n);
    var t := (a - b) / n;
    assert a * c - b * c == (a - b) * c;
    assert a * c - b * c == (t * c) * n;
    CongruentByWitness(a * c, b * c, n, t * c);
  }

  /** A congruence modulo n*k also holds modulo n. */
  lemma CongruentCoarser(a: int, b: int, n: int, k: int)
    requires n > 0 && k > 0 && Congruent(a, b, n * k)
    ensures Congruent(a, b, n)
  {
    CongruentWitness(a, b, n * k);
    var t := (a - b) / (n * k);
    assert a - b == (t * k) * n;
    CongruentByWitness(a, b, n, t * k);
  }

  /** Values below the modulus are congruent only when equal. */
  lemma CongruentSmall(a: int, b: int, n: int)
    requires n > 0 && 0 <= a < n && 0 <= b < n && Congruent(a, b, n)
    ensures a == b
  {
    CongruentWitness(a, b, n);
    MultipleBound((a - b) / n, n);
  }

  // ------------------------------------------------------------------ gcd

  /** Euclid's algorithm: the last nonzero remainder. */
  function EuclidGcd(a: nat, b: nat): (g: nat)
    ensures a > 0 || b > 0 ==> g > 0
    decreases b
  {
    if b == 0 then a else EuclidGcd(b, a % b)
  }

  lemma DividesSum(d: int, x: int, y: int, k: int)
    requires Divides(d, x) && Divides(d, y)
    ensures Divides(d, k * x + y)
  {
    var s := x / d;
    var t := y / d;
    assert x == s * d && y == t * d;
    assert k * x + y == (k * s + t) * d;
    MulMod(k * s + t, d);
  }

  lemma {:induction false} GcdDivides(a: nat, b: nat)
    requires a > 0 || b > 0
    ensures Divides(EuclidGcd(a, b), a) && Divides(EuclidGcd(a, b), b)
    decreases b
  {
    if b == 0 {
      MulMod(1, a);
      MulMod(0, a);
    } else {
      GcdDivides(b, a % b);
      var g := EuclidGcd(a, b);
      assert a == (a / b) * b + a % b;
      DividesSum(g, b, a % b, a / b);
    }
  }

  /** Every common divisor divides the gcd. */
  lemma {:induction false} GcdGreatest(a: nat, b: nat, d: int)
    requires Divides(d, a) && Divides(d, b)
    ensures Divides(d, EuclidGcd(a, b))
    decreases b
  {
    if b != 0 {
      assert a % b == -(a / b) * b + a;
      DividesSum(d, b, a, -(a / b));
      GcdGreatest(b, a % b, d);
    }
  }

  /** A positive multiple of d is at least d. */
  lemma DivisorBound(d: int, x: int)
    requires Divides(d, x) && x > 0
    ensures d <= x
  {
    assert x == (x / d) * d;
    MultipleBound(x / d, d);
  }

  lemma {:induction false} GcdDouble(a: nat, b: nat)
    ensures EuclidGcd(2 * a, 2 * b) == 2 * EuclidGcd(a, b)
    decreases b
  {
    if b != 0 {
      ModUnique(2 * a, 2 * b, a / b, 2 * (a % b));
      GcdDouble(b, a % b);
    }
  }

  /** a and b have no common divisor but 1. */
  ghost predicate Coprime(a: nat, b: nat)
  {
    forall d :: Divides(d, a) && Divides(d, b) ==> d == 1
  }

  function Quotient(a: nat, g: nat): nat
    requires g > 0
  {
    a / g
  }

  /** The fraction a/b in lowest terms: both divided by their gcd. */
  function Lowest(a: nat, b: nat): (r: (nat, nat))
    requires a > 0 || b > 0
  {
    var g := EuclidGcd(a, b);
    (Quotient(a, g), Quotient(b, g))
  }

  /** Lowest terms name the same ratio and are coprime. */
  lemma LowestCoprime(a: nat, b: nat)
    requires a > 0 || b > 0
    ensures a * Lowest(a, b).1 == b * Lowest(a, b).0
    ensures Coprime(Lowest(a, b).0, Lowest(a, b).1)
  {
    var g := EuclidGcd(a, b);
    GcdDivides(a, b);
    var (x, y) := Lowest(a, b);
    assert a == x * g && b == y * g;
    assert a * y == b * x;
    forall d | Divides(d, x) && Divides(d, y)
      ensures d == 1
    {
      LowestCommonDivisor(a, b, d);
    }
  }

  lemma LowestCommonDivisor(a: nat, b: nat, d: int)
    requires a > 0 || b > 0
    requires Divides(d, Lowest(a, b).0) && Divides(d, Lowest(a, b).1)
    ensures d == 1
  {
    var g := EuclidGcd(a, b);
    GcdDivides(a, b);
    QuotientExact(a, g);
    QuotientExact(b, g);
    ScaledDivisor(Lowest(a, b).0, d, g);
    ScaledDivisor(Lowest(a, b).1, d, g);
    GcdGreatest(a, b, d * g);
    DivisorBound(d * g, g);
    UnitFactor(d, g);
  }

  lemma QuotientExact(a: nat, g: nat)
    requires Divides(g, a)
    ensures a == Quotient(a, g) * g
  {
  }

  lemma ScaledDivisor(x: int, d: int, g: int)
    requires Divides(d, x) && g > 0
    ensures Divides(d * g, x * g)
  {
    var s := x / d;
    assert x == s * d;
    assert x * g == s * (d * g);
    MulMod(s, d * g);
  }

  lemma UnitFactor(d: int, g: int)
    requires g > 0 && d >= 1 && d * g <= g
    ensures d == 1
  {
    MultipleBound(d - 1, g);
    assert d * g == (d - 1) * g + g;
  }

  lemma QuotientBound(n: int, g: int)
    requires n >= 0 && g > 0
    ensures 0 <= n / g <= n
  {
    var t := n / g;
    assert n == t * g + n % g;
    MultipleBound(t, g);
    if t > 0 {
      MultipleBound(g - 1, t);
      assert t * g == t * (g - 1) + t;
    }
  }

  /** Multiplying by an inverse of g modulo m divides a multiple of g below m exactly. */
  lemma ExactByInverse(n: int, g: int, inv: int, m: int)
    requires m > 0 && Divides(g, n) && 0 <= n < m && Congruent(g * inv, 1, m)
    ensures (n * inv) % m == n / g
  {
    var t := n / g;
    assert n == t * g;
    CongruentScale(g * inv, 1, t, m);
    assert (g * inv) * t == n * inv;
    QuotientBound(n, g);
    CongruentMod(n * inv, m);
    CongruentTransitive((n * inv) % m, n * inv, t, m);
    CongruentSmall((n * inv) % m, t, m);
  }
}
