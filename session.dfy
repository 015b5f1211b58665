/**
 * What the on-target test drivers (event_list, json_driver and the standard
 * protocol) share: the transport T they derive from, and the `byte` and
 * `buffer` fibers each of them defines in identical copies.
 *
 * T itself is not part of this model. Its `write(f).wait()` is taken to call
 * the producer fiber f until it stops reporting pending, sending the byte of
 * every pending call; its `read(f).wait()` feeds f the received bytes, one
 * per call, until it stops reporting pending. A `Link` records, in order,
 * the bytes sent and the calls of the test handler, and holds the bytes still
 * to arrive.
 */
module Session {
  import opened Wrappers
  import opened Bytes
  import opened Waitable
  import Format

  /** `std::size_t` on the Cortex-M0 is 32 bits wide. */
  const SizeMod: nat := 0x1_0000_0000

  /** What a driver does that leaves a trace: a byte sent, or the handler called with the parameter bytes. */
  datatype Action = Tx(b: Byte) | Handled(params: seq<Byte>)

  function TxAt(bytes: seq<Byte>, i: int): Action
  {
    if 0 <= i < |bytes| then Tx(bytes[i]) else Tx(0)
  }

  /** The bytes as sent, in order. */
  function Transmitted(bytes: seq<Byte>): (r: seq<Action>)
  {
    seq(|bytes|, i => TxAt(bytes, i))
  }

  lemma TransmittedConcat(a: seq<Byte>, b: seq<Byte>)
    ensures Transmitted(a + b) == Transmitted(a) + Transmitted(b)
  {
    var l, r := Transmitted(a + b), Transmitted(a) + Transmitted(b);
    assert |l| == |r|;
    forall i | 0 <= i < |l|
      ensures l[i] == r[i]
    {
      if i < |a| {
        assert (a + b)[i] == a[i];
      } else {
        assert (a + b)[i] == b[i - |a|];
      }
    }
  }

  lemma TransmittedSnoc(m: seq<Byte>, p: nat)
    requires p < |m|
    ensures Transmitted(m[..p]) + [Tx(m[p])] == Transmitted(m[..p + 1])
  {
    TransmittedConcat(m[..p], [m[p]]);
    assert m[..p] + [m[p]] == m[..p + 1];
  }

  /** format(pair{"", m}) is one format_str stage over m: each call short of the end sends the next character. */
  lemma FormatStepOnText(m: seq<Byte>, st: Format.FormatState, p: nat)
    requires p <= |m| && Format.At([m], st, p)
    ensures var r := Format.FormatStep([m], st);
            if p < |m| then r.1 == Pending && r.2 == Some(m[p]) && Format.At([m], r.0, p + 1)
            else r.1 == Complete && r.2 == None
  {
    assert Format.Concat([m]) == m by {
      assert [m][..0] == [];
    }
    Format.FormatStepAt([m], st, p);
  }

  /** Only the sent bytes of a trace, in order: the handler calls are left out. */
  function Sent(log: seq<Action>): seq<Byte>
  {
    if log == [] then []
    else Sent(log[..|log| - 1]) + (if log[|log| - 1].Tx? then [log[|log| - 1].b] else [])
  }

  /** Reading back what Transmitted sends gives the bytes. */
  lemma {:induction false} SentTransmitted(bytes: seq<Byte>)
    ensures Sent(Transmitted(bytes)) == bytes
    decreases |bytes|
  {
    if bytes != [] {
      var init := bytes[..|bytes| - 1];
      SentTransmitted(init);
      assert Transmitted(bytes)[..|bytes| - 1] == Transmitted(init);
    }
  }

  // -------------------------------------------------------------- byte(b)

  /** One call of byte(b)'s closure: the first writes b and reports pending, later ones complete without writing. */
  function ByteStep(value: Byte, written: bool): (bool, Status, Option<Byte>)
  {
    if written then (true, Complete, None) else (true, Pending, Some(value))
  }

  /** The statuses and bytes of k calls of byte(b)'s closure. */
  function ByteRun(value: Byte, written: bool, k: nat): (seq<Status>, seq<Byte>)
    decreases k
  {
    if k == 0 then ([], [])
    else
      var r := ByteStep(value, written);
      var rest := ByteRun(value, r.0, k - 1);
      ([r.1] + rest.0, (if r.2.Some? then [r.2.value] else []) + rest.1)
  }

  /** byte(b) is one-shot: b on the first call, then complete on every call. */
  lemma {:induction false} ByteOneShot(value: Byte, k: nat)
    requires k >= 1
    ensures ByteRun(value, false, k) == ([Pending] + Format.Repeat(Complete, k - 1), [value])
  {
    CompleteForever(value, k - 1);
    var rest := ByteRun(value, true, k - 1);
    assert ByteRun(value, false, k) == ([Pending] + rest.0, [value] + rest.1);
    assert [value] + rest.1 == [value];
  }

  lemma {:induction false} CompleteForever(value: Byte, k: nat)
    ensures ByteRun(value, true, k) == (Format.Repeat(Complete, k), [])
    decreases k
  {
    if k > 0 {
      CompleteForever(value, k - 1);
      var rest := ByteRun(value, true, k - 1);
      assert ByteRun(value, true, k) == ([Complete] + rest.0, [] + rest.1);
      assert [] + rest.1 == [];
      assert [Complete] + Format.Repeat(Complete, k - 1) == Format.Repeat(Complete, k);
    }
  }

  /** The closure byte(b) returns: the byte and the captured `written` flag. */
  class ByteFiber {
    const value: Byte
    var written: bool

    constructor (value: Byte)
      ensures this.value == value && !written
    {
      this.value := value;
      written := false;
    }

    method Call() returns (status: Status, data: Option<Byte>)
      modifies this
      ensures (written, status, data) == ByteStep(value, old(written))
    {
      if written {
        return Complete, None;
      }
      data := Some(value);
      written := true;
      status := Pending;
    }
  }

  // --------------------------------------------------- buffer(ptr, length)

  /** `length--` on a size_t: 0 wraps to the largest value. */
  function Decrement(length: nat): (r: nat)
    requires length < SizeMod
    ensures r < SizeMod
    ensures length >= 1 ==> r == length - 1
  {
    (length - 1) % SizeMod
  }

  /** The status of a call of the buffer closure: complete once the count reaches 0. */
  function BufferStatus(length: nat): Status
  {
    if length == 0 then Complete else Pending
  }

  /** The statuses of k calls of a buffer closure whose count starts at `length`. */
  function BufferRun(length: nat, k: nat): seq<Status>
    requires length < SizeMod
    decreases k
  {
    if k == 0 then []
    else [BufferStatus(Decrement(length))] + BufferRun(Decrement(length), k - 1)
  }

  /** With length >= 1, the first length - 1 bytes report pending and byte `length` completes. */
  lemma {:induction false} BufferCountdown(length: nat)
    requires 1 <= length < SizeMod
    ensures BufferRun(length, length) == Format.Repeat(Pending, length - 1) + [Complete]
    decreases length
  {
    if length > 1 {
      BufferCountdown(length - 1);
      assert [Pending] + Format.Repeat(Pending, length - 2) == Format.Repeat(Pending, length - 1);
    }
  }

  /** buffer(ptr, 0) wraps its count: the first byte leaves 2^32 - 1 to go and reports pending. */
  lemma BufferOfZeroWraps()
    ensures Decrement(0) == SizeMod - 1 && BufferRun(0, 1) == [Pending]
  {
  }

  /** The closure buffer(ptr, length) returns: the moving pointer into `dest` and the remaining count. */
  class BufferFiber {
    const dest: array<Byte>
    var cursor: nat
    var length: nat

    constructor (dest: array<Byte>, length: nat)
      requires length < SizeMod
      ensures this.dest == dest && cursor == 0 && this.length == length
    {
      this.dest := dest;
      cursor := 0;
      this.length := length;
    }

    /** operator()(data): count down, store data and advance the pointer; complete when the count is 0. */
    method Call(data: Byte) returns (status: Status)
      requires cursor < dest.Length && length < SizeMod
      modifies this, dest
      ensures length == Decrement(old(length)) && cursor == old(cursor) + 1
      ensures dest[..] == old(dest[..])[old(cursor) := data]
      ensures status == BufferStatus(length)
    {
      length := Decrement(length);
      dest[cursor] := data;
      cursor := cursor + 1;
      status := BufferStatus(length);
    }
  }

  // -------------------------------------------------------------- the link

  class Link {
    /** What has happened so far, oldest first. */
    var log: seq<Action>
    /** The bytes still to arrive, oldest first. */
    var incoming: seq<Byte>

    constructor (incoming: seq<Byte>)
      ensures log == [] && this.incoming == incoming
    {
      log := [];
      this.incoming := incoming;
    }

    /** The call of the test handler, whose own effect is not modelled. */
    method Handle(params: seq<Byte>)
      modifies this
      ensures log == old(log) + [Handled(params)] && incoming == old(incoming)
    {
      log := log + [Handled(params)];
    }

    /**
     * write(sys::format(std::pair{"", m})).wait(): format's fiber is called
     * until it completes, and sends the characters of m in order.
     */
    method WriteFormat(m: seq<Byte>)
      requires IsCString(m)
      modifies this
      ensures log == old(log) + Transmitted(m) && incoming == old(incoming)
    {
      assert Format.Texts([Format.Text([], m)]) == [m];
      var st := Format.FormatStart([m]);
      var p := 0;
      var status := Pending;
      assert Format.At([m], st, 0) by {
        assert [m][..0] == [];
      }
      while status == Pending
        invariant p <= |m| && Format.At([m], st, p)
        invariant status != Pending ==> p == |m|
        invariant log == old(log) + Transmitted(m[..p]) && incoming == old(incoming)
        decreases |m| - p, if status == Pending then 1 else 0
      {
        FormatStepOnText(m, st, p);
        var r := Format.FormatStep([m], st);
        st := r.0;
        status := r.1;
        if r.2.Some? {
          TransmittedSnoc(m, p);
          log := log + [Tx(r.2.value)];
          p := p + 1;
        }
      }
      assert m[..p] == m;
    }

    /** write(byte(b)).wait(): b is sent, once. */
    method WriteByte(b: Byte)
      modifies this
      ensures log == old(log) + [Tx(b)] && incoming == old(incoming)
    {
      var f := new ByteFiber(b);
      var status, data := f.Call();
      log := log + [Tx(data.value)];
      status, data := f.Call();
      assert status == Complete;
    }

    /**
     * read(buffer(dest, n)).wait() for a region of n >= 1 bytes: the next n
     * bytes to arrive land in dest in arrival order; the byte that makes the
     * count 0 completes the read.
     */
    method ReadInto(dest: array<Byte>)
      requires 1 <= dest.Length <= |incoming| && dest.Length < SizeMod
      modifies this, dest
      ensures dest[..] == old(incoming[..dest.Length]) && incoming == old(incoming[dest.Length..])
      ensures log == old(log)
    {
      var n := dest.Length;
      var f := new BufferFiber(dest, n);
      var status := Pending;
      while status == Pending
        invariant f.dest == dest && f.cursor <= n && f.length == n - f.cursor
        invariant status == Pending <==> f.cursor < n
        invariant incoming == old(incoming)[f.cursor..] && log == old(log)
        invariant dest[..f.cursor] == old(incoming)[..f.cursor]
        decreases n - f.cursor, if status == Pending then 1 else 0
      {
        var i := f.cursor;
        ghost var before := dest[..];
        status := f.Call(incoming[0]);
        assert dest[..i + 1] == before[..i] + [old(incoming)[i]];
        incoming := incoming[1..];
      }
      assert dest[..] == dest[..n];
    }
  }
}
