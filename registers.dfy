/**
 * A bank of memory-mapped 32-bit registers addressed by number, for the
 * drivers that reach several registers by computed address (the IOCON pin
 * configuration and the GPIO ports). Each operation is the matching
 * rtl::mmio<u32> operation (rtl/mmio.hpp) on the one word at `address`.
 */
module Registers {
  import opened Mmio
  import Assert

  class RegisterFile {
    var words: map<nat, bv32>

    constructor (words: map<nat, bv32>)
      ensures this.words == words
    {
      this.words := words;
    }

    /** write<mask>(bits) on the word at `address`; under NO_ASSERT bits outside the mask are written too. */
    method WriteMasked(address: nat, mask: bv32, bits: bv32, nv: Assert.Nv) returns (aborted: bool)
      requires address in words
      modifies this, nv
      ensures aborted <==> nv.assertsEnabled && Outside(mask, bits)
      ensures aborted ==> words == old(words) && nv.assertMessage == Assert.Trace(true, WriteSite, OutsideMask)
      ensures !aborted ==> words == old(words)[address := Written(old(words)[address], mask, bits)]
      ensures !aborted ==> nv.assertMessage == old(nv.assertMessage)
    {
      aborted := nv.Check(!Outside(mask, bits), Assert.Trace(nv.assertsEnabled, WriteSite, OutsideMask));
      if !aborted {
        words := words[address := bits | (words[address] & !mask)];
      }
    }

    /** clear<mask>() on the word at `address`. */
    method ClearMasked(address: nat, mask: bv32)
      requires address in words
      modifies this
      ensures words == old(words)[address := Cleared(old(words)[address], mask)]
    {
      words := words[address := words[address] & !mask];
    }

    /** set<mask>() on the word at `address`. */
    method SetMasked(address: nat, mask: bv32)
      requires address in words
      modifies this
      ensures words == old(words)[address := Raised(old(words)[address], mask)]
    {
      words := words[address := words[address] | mask];
    }

    /** clear() (all bits 0) and set() (all bits 1): a plain store of the whole word. */
    method Store(address: nat, value: bv32)
      requires address in words
      modifies this
      ensures words == old(words)[address := value]
    {
      words := words[address := value];
    }

    /** read(): the whole word. */
    method Read(address: nat) returns (r: bv32)
      requires address in words
      ensures r == words[address]
    {
      r := words[address];
    }
  }
}
