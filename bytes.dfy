/** Bytes and C strings, as the runtime stores and transmits them. */
module Bytes {
  /** An octet, as a number. */
  type Byte = b: int | 0 <= b < 256

  /** The bytes of a character literal, one byte per character (the literals of the source are ASCII). */
  function Ascii(s: string): (r: seq<Byte>)
    ensures |r| == |s|
    ensures forall i | 0 <= i < |s| :: r[i] == s[i] as int % 256
  {
    seq(|s|, i => CharAt(s, i))
  }

  function CharAt(s: string, i: int): Byte
  {
    if 0 <= i < |s| then s[i] as int % 256 else 0
  }

  /** The contents of a NUL-terminated string: no NUL before the terminator. */
  predicate IsCString(s: seq<Byte>)
  {
    forall i | 0 <= i < |s| :: s[i] != 0
  }

  /** strlen over a byte region: the index of the first NUL, if the region holds one. */
  function Strlen(mem: seq<Byte>): (n: nat)
    requires 0 in mem
    ensures n < |mem| && mem[n] == 0 && IsCString(mem[..n])
  {
    if mem[0] == 0 then 0 else 1 + Strlen(mem[1..])
  }

  /** The string a `const char*` to the start of `mem` denotes. */
  function CStringAt(mem: seq<Byte>): (s: seq<Byte>)
    requires 0 in mem
    ensures |s| < |mem| && IsCString(s) && s + [0] == mem[..|s| + 1]
  {
    mem[..Strlen(mem)]
  }
}
