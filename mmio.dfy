/**
 * rtl::mmio<u32> (rtl/mmio.hpp): a 32-bit memory-mapped register and its
 * masked read-modify-write operations. A mask is a template argument in the
 * source and a parameter here.
 */
module Mmio {
  import opened Wrappers
  import Assert
  import opened Bytes

  const AllBits: bv32 := 0xFFFF_FFFF

  /** The assertion text of write<mask>, and the file:line TRACE puts before it. */
  const OutsideMask := Ascii("attempted to write bits outside mask specification to mmio register")
  const WriteSite := Ascii("rtl/mmio.hpp:71")

  /** The register after clear<mask>(): the mask's bits are 0, the others kept. */
  function Cleared(v: bv32, mask: bv32): (r: bv32)
    ensures r & mask == 0
    ensures r & !mask == v & !mask
  {
    v & !mask
  }

  /** The register after set<mask>(): the mask's bits are 1, the others kept. */
  function Raised(v: bv32, mask: bv32): (r: bv32)
    ensures r & mask == mask
    ensures r & !mask == v & !mask
  {
    v | mask
  }

  /** Clearing after setting is the same as clearing. */
  lemma ClearedAfterRaised(v: bv32, mask: bv32)
    ensures Cleared(Raised(v, mask), mask) == Cleared(v, mask)
  {
    assert (v | mask) & !mask == v & !mask;
  }

  /** Clearing twice is the same as clearing once. */
  lemma ClearedTwice(v: bv32, mask: bv32)
    ensures Cleared(Cleared(v, mask), mask) == Cleared(v, mask)
  {
    assert (v & !mask) & !mask == v & !mask;
  }

  /** The register after toggle<mask>(): the mask's bits inverted, the others kept. */
  function Toggled(v: bv32, mask: bv32): (r: bv32)
    ensures r & mask == !v & mask && r & !mask == v & !mask
  {
    v ^ mask
  }

  /** Toggling twice with the same mask restores the register. */
  lemma ToggleTwice(v: bv32, mask: bv32)
    ensures Toggled(Toggled(v, mask), mask) == v
  {
  }

  /**
   * The register after write<mask>(bits) when the assertion does not abort:
   * the mask's bits come from `bits`, the others from the old value, except
   * that bits of `bits` outside the mask (possible only under NO_ASSERT) are
   * ORed in as well.
   */
  function Written(v: bv32, mask: bv32, bits: bv32): (r: bv32)
    ensures r & mask == bits & mask
    ensures r & !mask == (v | bits) & !mask
  {
    bits | (v & !mask)
  }

  /** Within the mask precondition of write<mask>, a write keeps every bit outside the mask. */
  lemma WrittenKeeps(v: bv32, mask: bv32, bits: bv32)
    requires bits & !mask == 0
    ensures Written(v, mask, bits) & !mask == v & !mask
  {
  }

  /** Some bit of `bits` lies outside the mask: the condition write<mask> asserts against. */
  predicate Outside(mask: bv32, bits: bv32)
  {
    bits & !mask != 0
  }

  /** read<mask>(): the register's bits under the mask, every other bit 0. */
  function Masked(v: bv32, mask: bv32): (r: bv32)
    ensures r & !mask == 0
    ensures r & mask == v & mask
  {
    v & mask
  }

  /** The mask of the `*_bit<n>` operations. */
  function BitMask(n: nat): (r: bv32)
    requires n < 32
    ensures r != 0 && r & (r - 1) == 0
  {
    (1 as bv32) << n
  }

  class Register {
    /** The register's current contents. */
    var value: bv32
    /** Every value stored into the register, oldest first. */
    ghost var stores: seq<bv32>

    constructor (initial: bv32)
      ensures value == initial && stores == []
    {
      value := initial;
      stores := [];
    }

    /** clear<mask>() */
    method ClearMasked(mask: bv32)
      modifies this
      ensures value == Cleared(old(value), mask)
      ensures stores == old(stores) + [value]
    {
      value := value & !mask;
      stores := stores + [value];
    }

    /** clear(): the register becomes 0 whatever it held. */
    method Clear()
      modifies this
      ensures value == 0
      ensures stores == old(stores) + [value]
    {
      value := 0;
      stores := stores + [value];
    }

    /** set<mask>() */
    method SetMasked(mask: bv32)
      modifies this
      ensures value == Raised(old(value), mask)
      ensures stores == old(stores) + [value]
    {
      value := value | mask;
      stores := stores + [value];
    }

    /** set(): the register becomes all ones whatever it held. */
    method Set()
      modifies this
      ensures value == AllBits
      ensures stores == old(stores) + [value]
    {
      value := AllBits;
      stores := stores + [value];
    }

    /** toggle<mask>(); the source's default mask is AllBits. */
    method Toggle(mask: bv32)
      modifies this
      ensures value == Toggled(old(value), mask)
      ensures stores == old(stores) + [value]
    {
      value := value ^ mask;
      stores := stores + [value];
    }

    /**
     * write<mask>(bits). With asserts enabled, bits outside the mask trip the
     * assertion: the message is stored, abort() ends execution and the
     * register is not written.
     */
    method WriteMasked(mask: bv32, bits: bv32, nv: Assert.Nv) returns (aborted: bool)
      modifies this, nv
      ensures aborted <==> nv.assertsEnabled && Outside(mask, bits)
      ensures aborted ==> value == old(value) && stores == old(stores)
      ensures aborted ==> nv.assertMessage == Assert.Trace(true, WriteSite, OutsideMask)
      ensures !aborted ==> value == Written(old(value), mask, bits)
      ensures !aborted ==> stores == old(stores) + [value]
      ensures !aborted ==> nv.assertMessage == old(nv.assertMessage)
    {
      aborted := nv.Check(!Outside(mask, bits), Assert.Trace(nv.assertsEnabled, WriteSite, OutsideMask));
      if aborted {
        return;
      }
      value := Written(value, mask, bits);
      stores := stores + [value];
    }

    /**
     * safe_write<mask>(bits) as its documentation and its hardware test
     * describe it: the argument is masked and then written under the mask, so
     * the assertion can never trip and bits outside the mask are kept.
     */
    method SafeWrite(mask: bv32, bits: bv32, nv: Assert.Nv) returns (aborted: bool)
      modifies this, nv
      ensures !aborted
      ensures value == Written(old(value), mask, bits & mask)
      ensures value & !mask == old(value) & !mask
      ensures stores == old(stores) + [value]
      ensures nv.assertMessage == old(nv.assertMessage)
    {
      aborted := WriteMasked(mask, bits & mask, nv);
    }

    /**
     * safe_write<mask>(bits) as the source is written: `write(bits & mask)`
     * resolves to the unmasked overload, so every bit outside the mask is
     * cleared instead of kept.
     */
    method SafeWriteAsWritten(mask: bv32, bits: bv32)
      modifies this
      ensures value == Masked(bits, mask)
      ensures value & !mask == 0
      ensures stores == old(stores) + [value]
    {
      Write(bits & mask);
    }

    /** write(bits): the whole register is overwritten. */
    method Write(bits: bv32)
      modifies this
      ensures value == bits
      ensures stores == old(stores) + [value]
    {
      value := bits;
      stores := stores + [value];
    }

    /** read<mask>(); the default mask is AllBits. Reading changes nothing. */
    method Read(mask: bv32) returns (r: bv32)
      ensures r == Masked(value, mask)
    {
      r := value & mask;
    }

    /** any<mask>(): some bit of the mask is set. */
    method Any(mask: bv32) returns (r: bool)
      ensures r <==> Masked(value, mask) != 0
    {
      r := value & mask != 0;
    }

    /** all<mask>(): every bit of the mask is set. */
    method All(mask: bv32) returns (r: bool)
      ensures r <==> Masked(value, mask) == mask
    {
      r := value & mask == mask;
    }

    /** none<mask>(): no bit of the mask is set. */
    method None(mask: bv32) returns (r: bool)
      ensures r <==> Masked(value, mask) == 0
    {
      r := value & mask == 0;
    }

    /** clear_bit<n>() */
    method ClearBit(n: nat)
      requires n < 32
      modifies this
      ensures value == Cleared(old(value), BitMask(n))
      ensures stores == old(stores) + [value]
    {
      ClearMasked(BitMask(n));
    }

    /** set_bit<n>() */
    method SetBit(n: nat)
      requires n < 32
      modifies this
      ensures value == Raised(old(value), BitMask(n))
      ensures stores == old(stores) + [value]
    {
      SetMasked(BitMask(n));
    }

    /** toggle_bit<n>() */
    method ToggleBit(n: nat)
      requires n < 32
      modifies this
      ensures value == Toggled(old(value), BitMask(n))
      ensures stores == old(stores) + [value]
    {
      Toggle(BitMask(n));
    }

    /** read_bit<n>(): whether bit n is set. */
    method ReadBit(n: nat) returns (r: bool)
      requires n < 32
      ensures r <==> Masked(value, BitMask(n)) != 0
    {
      r := Any(BitMask(n));
    }
  }
}
