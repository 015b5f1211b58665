/**
 * The bitwise operators of src/rtl/bitflags.hpp for enumerations that opt
 * in through `rtl::is_bitflags`. An enumerator is modelled by its underlying
 * value, 32 bits wide.
 */
module Bitflags {
  type Flags = bv32

  /** Every bit set in `part` is set in `whole`. */
  predicate Includes(whole: Flags, part: Flags)
  {
    whole & part == part
  }

  /** operator|: the enumerator whose underlying value is the OR of the operands'. */
  function Or(lhs: Flags, rhs: Flags): (r: Flags)
    ensures r & lhs == lhs
    ensures r & rhs == rhs
  {
    lhs | rhs
  }

  /** lhs | rhs is the least value including both operands. */
  lemma OrLeast(lhs: Flags, rhs: Flags, x: Flags)
    requires Includes(x, lhs) && Includes(x, rhs)
    ensures Includes(x, Or(lhs, rhs))
  {
  }

  lemma OrCommutes(a: Flags, b: Flags)
    ensures Or(a, b) == Or(b, a)
  {
  }

  lemma OrAssociates(a: Flags, b: Flags, c: Flags)
    ensures Or(Or(a, b), c) == Or(a, Or(b, c))
  {
  }

  lemma OrIdempotent(a: Flags)
    ensures Or(a, a) == a
  {
    assert a | a == a;
  }

  /** ORing in a flag already present changes nothing. */
  lemma OrAbsorbs(a: Flags, b: Flags)
    ensures Or(Or(a, b), b) == Or(a, b)
  {
    assert (a | b) | b == a | b;
  }

  /** A variable of an opted-in enumeration type, which `|=` assigns through a reference. */
  class FlagsVar {
    var value: Flags

    constructor (value: Flags)
      ensures this.value == value
    {
      this.value := value;
    }

    /** operator|=: assigns lhs | rhs to lhs and returns the new value. */
    method OrAssign(rhs: Flags) returns (r: Flags)
      modifies this
      ensures value == Or(old(value), rhs) && r == value
    {
      value := Or(value, rhs);
      r := value;
    }
  }
}
