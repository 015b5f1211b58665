/**
 * Decimal text of unsigned 64-bit integers, as the formatters, the debug
 * writer and the JSON number writer produce it: most significant digit
 * first, no leading zeros, "0" for zero. `rtl::i64` is `uint64_t`
 * (src/rtl/base.hpp:30), so every value these writers see is first
 * converted modulo 2^64 and can never be negative.
 */
module Decimal {
  import opened Bytes

  const Two64: nat := 0x1_0000_0000_0000_0000

  /** The value an `rtl::i64` parameter holds after conversion from a C++ integer of value x. */
  function ToI64(x: int): (r: nat)
    ensures r < Two64
    ensures 0 <= x < Two64 ==> r == x
    ensures -(Two64 as int) <= x < 0 ==> r == x + Two64
  {
    x % Two64
  }

  /** '0' + d */
  function DigitChar(d: nat): Byte
    requires d < 10
  {
    0x30 + d
  }

  predicate IsDigit(b: Byte)
  {
    0x30 <= b <= 0x39
  }

  predicate AllDigits(s: seq<Byte>)
  {
    forall i | 0 <= i < |s| :: IsDigit(s[i])
  }

  /** The digits the division loop emits for n, most significant first: none for 0. */
  function Significant(n: nat): (s: seq<Byte>)
    decreases n
  {
    if n == 0 then [] else Significant(n / 10) + [DigitChar(n % 10)]
  }

  /** The decimal text of n: its significant digits, or "0" for 0. */
  function Digits(n: nat): seq<Byte>
  {
    if n == 0 then [0x30] else Significant(n)
  }

  /** The number a string of decimal digits denotes. */
  function Value(s: seq<Byte>): nat
    requires AllDigits(s)
  {
    if s == [] then 0 else 10 * Value(s[..|s| - 1]) + (s[|s| - 1] - 0x30)
  }

  /** The significant digits are digits, and the first of them is not '0'. */
  lemma {:induction false} SignificantShape(n: nat)
    ensures AllDigits(Significant(n))
    ensures n == 0 <==> Significant(n) == []
    ensures n > 0 ==> Significant(n)[0] != 0x30
    decreases n
  {
    if n > 0 {
      SignificantShape(n / 10);
      if n / 10 == 0 {
        assert Significant(n) == [DigitChar(n % 10)];
      } else {
        assert Significant(n)[0] == Significant(n / 10)[0];
      }
    }
  }

  lemma {:induction false} SignificantValue(n: nat)
    ensures AllDigits(Significant(n)) && Value(Significant(n)) == n
    decreases n
  {
    SignificantShape(n);
    if n > 0 {
      SignificantValue(n / 10);
      var s := Significant(n);
      assert s[..|s| - 1] == Significant(n / 10);
    }
  }

  /** Digits(n) is non-empty decimal text without leading zeros that reads back as n. */
  lemma DigitsRoundTrip(n: nat)
    ensures |Digits(n)| >= 1 && AllDigits(Digits(n))
    ensures Digits(n)[0] == 0x30 ==> n == 0 && Digits(n) == [0x30]
    ensures Value(Digits(n)) == n
  {
    SignificantShape(n);
    SignificantValue(n);
  }

  /** Canonical text: non-empty, all digits, and no leading zero unless it is "0". */
  predicate Canonical(s: seq<Byte>)
  {
    |s| >= 1 && AllDigits(s) && (s[0] == 0x30 ==> s == [0x30])
  }

  /** Conversely, canonical decimal text is the Digits of the number it reads as. */
  lemma CanonicalIsDigits(s: seq<Byte>)
    requires Canonical(s)
    ensures Digits(Value(s)) == s
  {
    if s == [0x30] {
      assert Value(s) == 10 * Value([]) + 0;
    } else {
      SignificantOfText(s);
    }
  }

  lemma {:induction false} SignificantOfText(s: seq<Byte>)
    requires AllDigits(s) && (|s| >= 1 ==> s[0] != 0x30)
    ensures Significant(Value(s)) == s
    decreases |s|
  {
    if s != [] {
      var init := s[..|s| - 1];
      SignificantOfText(init);
      var last := s[|s| - 1] - 0x30;
      var n := Value(s);
      assert n == 10 * Value(init) + last;
      assert n / 10 == Value(init) && n % 10 == last;
      if |s| == 1 {
        assert n == last && n != 0;
      } else {
        assert init[0] == s[0];
        LeadingNonZero(init);
      }
      assert s == init + [DigitChar(last)];
    }
  }

  /** Text that does not start with '0' reads as a positive number. */
  lemma {:induction false} LeadingNonZero(s: seq<Byte>)
    requires |s| >= 1 && AllDigits(s) && s[0] != 0x30
    ensures Value(s) > 0
    decreases |s|
  {
    if |s| > 1 {
      LeadingNonZero(s[..|s| - 1]);
    }
  }

  function Pow10(k: nat): (r: nat)
    ensures r >= 1
  {
    if k == 0 then 1 else 10 * Pow10(k - 1)
  }

  lemma {:induction false} Pow10Add(a: nat, b: nat)
    ensures Pow10(a + b) == Pow10(a) * Pow10(b)
  {
    if a > 0 {
      Pow10Add(a - 1, b);
    }
  }

  /** Below 10^k a number has at most k significant digits. */
  lemma {:induction false} SignificantLength(n: nat, k: nat)
    requires n < Pow10(k)
    ensures |Significant(n)| <= k
    decreases n
  {
    if n > 0 {
      assert k >= 1;
      SignificantLength(n / 10, k - 1);
    }
  }

  /** A 64-bit value has at most 20 decimal digits. */
  lemma AtMost20Digits(n: nat)
    requires n < Two64
    ensures 1 <= |Digits(n)| <= 20
  {
    Pow10Add(10, 10);
    Pow10Add(5, 5);
    assert Pow10(5) == 100_000;
    SignificantLength(n, 20);
  }
}
