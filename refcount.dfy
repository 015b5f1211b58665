/**
 * rtl::resource<Acquire, Release> (src/rtl/refcount.hpp): a reference count
 * that runs Acquire when the first user arrives and Release when the last
 * one leaves. Acquire and Release are the caller's code; what they do is not
 * part of this model, only that they run, which the trace `effects` records.
 */
module Refcount {
  datatype Effect = AcquireRun | ReleaseRun
  datatype Op = AcquireOp | ReleaseOp

  /** acquire(): `refcount++ == 0` tests the count before the increment. */
  function AcquireStep(count: int): (int, seq<Effect>)
  {
    (count + 1, if count == 0 then [AcquireRun] else [])
  }

  /** release(): `--refcount == 0` tests the count after the decrement; nothing checks for 0. */
  function ReleaseStep(count: int): (int, seq<Effect>)
  {
    (count - 1, if count - 1 == 0 then [ReleaseRun] else [])
  }

  /** The count and the effects after a series of calls. */
  function Replay(count: int, ops: seq<Op>): (int, seq<Effect>)
    decreases |ops|
  {
    if ops == [] then (count, [])
    else
      var r := if ops[0] == AcquireOp then AcquireStep(count) else ReleaseStep(count);
      var rest := Replay(r.0, ops[1..]);
      (rest.0, r.1 + rest.1)
  }

  function Repeat(op: Op, n: nat): (r: seq<Op>)
    ensures |r| == n && forall i | 0 <= i < n :: r[i] == op
  {
    if n == 0 then [] else [op] + Repeat(op, n - 1)
  }

  lemma {:induction false} ReplayConcat(count: int, a: seq<Op>, b: seq<Op>)
    ensures Replay(count, a + b).0 == Replay(Replay(count, a).0, b).0
    ensures Replay(count, a + b).1 == Replay(count, a).1 + Replay(Replay(count, a).0, b).1
    decreases |a|
  {
    if a == [] {
      assert a + b == b;
    } else {
      assert (a + b)[0] == a[0] && (a + b)[1..] == a[1..] + b;
      var r := if a[0] == AcquireOp then AcquireStep(count) else ReleaseStep(count);
      ReplayConcat(r.0, a[1..], b);
      var x, y := Replay(r.0, a[1..]).1, Replay(Replay(count, a).0, b).1;
      assert r.1 + (x + y) == (r.1 + x) + y;
    }
  }

  /** n acquires from a count c >= 0: the count grows by n and Acquire runs once exactly when c was 0. */
  lemma {:induction false} AcquireMany(count: int, n: nat)
    requires count >= 0
    ensures Replay(count, Repeat(AcquireOp, n)).0 == count + n
    ensures Replay(count, Repeat(AcquireOp, n)).1 == if count == 0 && n > 0 then [AcquireRun] else []
    decreases n
  {
    if n > 0 {
      assert Repeat(AcquireOp, n)[1..] == Repeat(AcquireOp, n - 1);
      AcquireMany(count + 1, n - 1);
    }
  }

  /** n releases from a count c >= n: the count drops by n and Release runs once exactly when it reaches 0. */
  lemma {:induction false} ReleaseMany(count: int, n: nat)
    requires count >= n
    ensures Replay(count, Repeat(ReleaseOp, n)).0 == count - n
    ensures Replay(count, Repeat(ReleaseOp, n)).1 == if count == n && n > 0 then [ReleaseRun] else []
    decreases n
  {
    if n > 0 {
      assert Repeat(ReleaseOp, n)[1..] == Repeat(ReleaseOp, n - 1);
      ReleaseMany(count - 1, n - 1);
    }
  }

  /** From 0, n >= 1 acquires and then n releases run Acquire once and Release once and leave the count at 0. */
  lemma Balanced(n: nat)
    requires n >= 1
    ensures Replay(0, Repeat(AcquireOp, n) + Repeat(ReleaseOp, n)).0 == 0
    ensures Replay(0, Repeat(AcquireOp, n) + Repeat(ReleaseOp, n)).1 == [AcquireRun, ReleaseRun]
  {
    ReplayConcat(0, Repeat(AcquireOp, n), Repeat(ReleaseOp, n));
    AcquireMany(0, n);
    ReleaseMany(n, n);
  }

  /** A release at 0 drives the count to -1, and Release does not run. */
  lemma ReleaseUnderflows()
    ensures Replay(0, [ReleaseOp]).0 == -1 && Replay(0, [ReleaseOp]).1 == []
  {
  }

  class Resource {
    /** `int refcount`, which the source leaves uninitialised. */
    var count: int
    var effects: seq<Effect>

    constructor (initial: int)
      ensures count == initial && effects == []
    {
      count := initial;
      effects := [];
    }

    method Acquire()
      modifies this
      ensures count == AcquireStep(old(count)).0 && effects == old(effects) + AcquireStep(old(count)).1
    {
      var before := count;
      count := count + 1;
      if before == 0 {
        effects := effects + [AcquireRun];
      }
    }

    method Release()
      modifies this
      ensures count == ReleaseStep(old(count)).0 && effects == old(effects) + ReleaseStep(old(count)).1
    {
      count := count - 1;
      if count == 0 {
        effects := effects + [ReleaseRun];
      }
    }
  }
}
