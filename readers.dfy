/**
 * The reader fibers of src/main.cpp that the UART's read(f) calls with each
 * received byte until f returns true: read_until(buffer, length, pattern)
 * stores every byte through the caller's length counter and stops on the
 * pattern byte, read_any() stops on the first byte.
 */
module Readers {
  import opened Bytes

  /** The position of the first `b` in `s`. */
  function FirstIndex(s: seq<Byte>, b: Byte): (k: nat)
    requires b in s
    ensures k < |s| && s[k] == b && b !in s[..k]
  {
    if s[0] == b then 0
    else
      var k := 1 + FirstIndex(s[1..], b);
      assert s[..k] == [s[0]] + s[1..][..k - 1];
      k
  }

  /** The closure read_any() returns: every byte completes the read. */
  function ReadAny(data: Byte): (done: bool)
    ensures done
  {
    true
  }

  /**
   * The closure read_until(buffer, length, pattern) returns. It captures the
   * buffer pointer and the pattern by value and the caller's `std::size_t`
   * counter by reference; `length` here is that counter.
   */
  class ReadUntil {
    const buffer: array<Byte>
    var length: nat
    const pattern: Byte

    constructor (buffer: array<Byte>, length: nat, pattern: Byte)
      ensures this.buffer == buffer && this.length == length && this.pattern == pattern
    {
      this.buffer := buffer;
      this.length := length;
      this.pattern := pattern;
    }

    /**
     * operator()(data): `buffer[length++] = data`, then whether data is the
     * pattern. The pattern byte is stored as well. Nothing checks the buffer's
     * size, so the caller must leave room.
     */
    method Call(data: Byte) returns (done: bool)
      requires length < buffer.Length
      modifies this, buffer
      ensures buffer[..] == old(buffer[..])[old(length) := data]
      ensures length == old(length) + 1
      ensures done <==> data == pattern
    {
      buffer[length] := data;
      length := length + 1;
      done := data == pattern;
    }

    /**
     * read(read_until(buffer, length, pattern)).wait() over a stream holding
     * the pattern: the bytes up to and including the first pattern byte are
     * appended at the old length, and nothing after it is consumed.
     */
    method Drain(incoming: seq<Byte>) returns (consumed: nat)
      requires pattern in incoming
      requires length + FirstIndex(incoming, pattern) + 1 <= buffer.Length
      modifies this, buffer
      ensures consumed == FirstIndex(incoming, pattern) + 1
      ensures length == old(length) + consumed
      ensures buffer[..old(length)] == old(buffer[..length])
      ensures buffer[old(length)..length] == incoming[..consumed]
      ensures buffer[length..] == old(buffer[..])[length..]
    {
      ghost var start := length;
      ghost var k := FirstIndex(incoming, pattern);
      consumed := 0;
      var done := false;
      while !done
        invariant consumed <= k + 1 && length == start + consumed
        invariant done <==> consumed == k + 1
        invariant buffer[..start] == old(buffer[..start])
        invariant buffer[start..length] == incoming[..consumed]
        invariant buffer[length..] == old(buffer[..])[length..]
        decreases k + 1 - consumed
      {
        assert incoming[consumed] != pattern || consumed == k by {
          if consumed < k {
            assert incoming[consumed] == incoming[..k][consumed];
          }
        }
        ghost var before := buffer[..];
        done := Call(incoming[consumed]);
        assert buffer[start..length] == before[start..length - 1] + [incoming[consumed]];
        consumed := consumed + 1;
        assert incoming[..consumed] == incoming[..consumed - 1] + [incoming[consumed - 1]];
      }
    }
  }
}
