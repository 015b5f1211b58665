/** Powers of two and the fixed-width integer conversions of the target (ARMv6-M, C++). */
module Arith {
  function Pow2(n: nat): (r: nat)
    ensures r >= 1
  {
    if n == 0 then 1 else 2 * Pow2(n - 1)
  }

  lemma {:induction false} Pow2Add(a: nat, b: nat)
    ensures Pow2(a + b) == Pow2(a) * Pow2(b)
  {
    if a > 0 {
      Pow2Add(a - 1, b);
    }
  }

  lemma {:induction false} Pow2Monotonic(a: nat, b: nat)
    requires a <= b
    ensures Pow2(a) <= Pow2(b)
  {
    if a < b {
      Pow2Monotonic(a, b - 1);
    }
  }

  /** The value an unsigned `w`-bit variable holds after assignment of `x` (conversion modulo 2^w). */
  function Unsigned(x: int, w: nat): (r: nat)
    ensures r < Pow2(w)
  {
    x % Pow2(w)
  }

  /** The value a signed two's-complement `w`-bit variable holds after a narrowing conversion of `x`. */
  function Signed(x: int, w: nat): (r: int)
    requires w >= 1
    ensures -(Pow2(w - 1) as int) <= r < Pow2(w - 1)
  {
    var u := x % Pow2(w);
    if u < Pow2(w - 1) then u else u - Pow2(w)
  }

  function Abs(a: int): nat
  {
    if a < 0 then -a else a
  }
}
