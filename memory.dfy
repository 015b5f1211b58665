/**
 * memcpy (src/rtl/cortex-m0/stdlib.cpp): a byte-at-a-time forward copy.
 * Memory is one array of bytes and the two pointers are indices into it, so
 * the model also says what the loop does when the regions overlap.
 */
module Memory {
  import opened Bytes

  /** The memory after n steps of `*(dst++) = *(src++)`. */
  function Copied(mem: seq<Byte>, dst: nat, src: nat, n: nat): (r: seq<Byte>)
    requires dst + n <= |mem| && src + n <= |mem|
    ensures |r| == |mem|
    decreases n
  {
    if n == 0 then mem else Copied(mem[dst := mem[src]], dst + 1, src + 1, n - 1)
  }

  /** The regions [dst, dst + n) and [src, src + n) do not overlap. */
  predicate Disjoint(dst: nat, src: nat, n: nat)
  {
    dst + n <= src || src + n <= dst
  }

  /**
   * For regions that do not overlap, the destination holds the old source
   * bytes and no byte outside the destination changes.
   */
  lemma {:induction false} CopiedDisjoint(mem: seq<Byte>, dst: nat, src: nat, n: nat)
    requires dst + n <= |mem| && src + n <= |mem| && Disjoint(dst, src, n)
    ensures Copied(mem, dst, src, n)[dst..dst + n] == mem[src..src + n]
    ensures forall i | 0 <= i < |mem| && !(dst <= i < dst + n) :: Copied(mem, dst, src, n)[i] == mem[i]
    decreases n
  {
    if n > 0 {
      var next := mem[dst := mem[src]];
      CopiedDisjoint(next, dst + 1, src + 1, n - 1);
      var r := Copied(mem, dst, src, n);
      assert next[src + 1..src + n] == mem[src + 1..src + n];
      assert r[dst] == mem[src];
      assert r[dst..dst + n] == [r[dst]] + r[dst + 1..dst + n];
      assert mem[src..src + n] == [mem[src]] + mem[src + 1..src + n];
    }
  }

  /** Copying to the byte after the source smears the first source byte over the whole destination. */
  lemma {:induction false} CopiedSmears(mem: seq<Byte>, dst: nat, src: nat, n: nat)
    requires dst == src + 1 && dst + n <= |mem| && n >= 1
    ensures forall i | dst <= i < dst + n :: Copied(mem, dst, src, n)[i] == mem[src]
    decreases n
  {
    var next := mem[dst := mem[src]];
    if n > 1 {
      CopiedSmears(next, dst + 1, src + 1, n - 1);
      CopiedKeepsBelow(next, dst + 1, src + 1, n - 1, dst);
    }
  }

  /** Bytes below both regions are left alone. */
  lemma {:induction false} CopiedKeepsBelow(mem: seq<Byte>, dst: nat, src: nat, n: nat, i: nat)
    requires dst + n <= |mem| && src + n <= |mem| && i < dst
    ensures Copied(mem, dst, src, n)[i] == mem[i]
    decreases n
  {
    if n > 0 {
      CopiedKeepsBelow(mem[dst := mem[src]], dst + 1, src + 1, n - 1, i);
    }
  }

  /** memcpy(a, b, n): the loop `while (n--) *(ptrA++) = *(ptrB++);`, returning a. */
  method Memcpy(mem: array<Byte>, a: nat, b: nat, n: nat) returns (r: nat)
    requires a + n <= mem.Length && b + n <= mem.Length
    modifies mem
    ensures mem[..] == Copied(old(mem[..]), a, b, n) && r == a
  {
    var dst: nat, src: nat, count: nat := a, b, n;
    while count > 0
      invariant count <= n && dst == a + (n - count) && src == b + (n - count)
      invariant Copied(old(mem[..]), a, b, n) == Copied(mem[..], dst, src, count)
      decreases count
    {
      ghost var before := mem[..];
      mem[dst] := mem[src];
      assert mem[..] == before[dst := before[src]];
      dst, src, count := dst + 1, src + 1, count - 1;
    }
    r := a;
  }
}
