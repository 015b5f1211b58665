/**
 * Waitable fibers and their sequencing (rtl/fiber/algorithm.hpp).
 *
 * A fiber is a mutable closure called once per event that answers with a
 * `Status`. Here a fiber is a step function from its captured state and the
 * call's argument to its new state and status; a generator is the initial
 * state it builds. `sequence(g1, ..., gn)` runs the fibers one after the
 * other: a pending or failed result of the current fiber is passed on, and a
 * completing call constructs the next fiber and runs it in the same call.
 */
module Fiber {
  import opened Waitable

  /** The call operator of a fiber with captured state S and argument A. */
  type Step<!S, -A> = (S, A) -> (S, Status)

  /** Calling the fiber once per input, from state s: the final state and every status returned. */
  function Run<S, A>(f: Step<S, A>, s: S, inputs: seq<A>): (r: (S, seq<Status>))
    ensures |r.1| == |inputs|
    decreases |inputs|
  {
    if inputs == [] then (s, [])
    else
      var next := f(s, inputs[0]);
      var rest := Run(f, next.0, inputs[1..]);
      (rest.0, [next.1] + rest.1)
  }

  function Pendings(n: nat): (r: seq<Status>)
    ensures |r| == n && forall i | 0 <= i < n :: r[i] == Pending
  {
    seq(n, i => Pending)
  }

  /** Fed `inputs`, the fiber returns pending on every call but the last, which completes. */
  predicate CompletesAfter<S, A>(f: Step<S, A>, s: S, inputs: seq<A>)
  {
    |inputs| >= 1 && Run(f, s, inputs).1 == Pendings(|inputs| - 1) + [Complete]
  }

  /** The first call of a run is one step, and the rest runs from the state it leaves. */
  lemma RunFirst<S, A>(f: Step<S, A>, s: S, inputs: seq<A>)
    requires |inputs| >= 1
    ensures Run(f, s, inputs).1 == [f(s, inputs[0]).1] + Run(f, f(s, inputs[0]).0, inputs[1..]).1
  {
  }

  // ---------------------------------------------------------------- sequence()

  /** sequence(): every call completes, whatever the argument. */
  function Sequence0<A>(a: A): Status
  {
    Complete
  }

  lemma Sequence0Completes<A>(inputs: seq<A>)
    requires |inputs| >= 1
    ensures CompletesAfter((u: (), a: A) => ((), Sequence0(a)), (), inputs[..1])
  {
  }

  // ------------------------------------------------------------- sequence(g1)

  /** sequence(g1): the fiber g1 builds at construction, called as is. */
  class Sequence1<S1, A> {
    const f1: Step<S1, A>
    var state: S1

    constructor (g1: S1, f1: Step<S1, A>)
      ensures this.f1 == f1 && state == g1
    {
      this.f1 := f1;
      state := g1;
    }

    method Call(a: A) returns (r: Status)
      modifies this
      ensures (state, r) == f1(old(state), a)
    {
      var next := f1(state, a);
      state := next.0;
      r := next.1;
    }
  }

  // --------------------------------------------------------- sequence(g1, g2)

  /** The union `storage` together with the stage counter `n`. */
  datatype Stage2<S1, S2> = First(s1: S1) | Second(s2: S2)

  /** One call of the closure sequence(g1, g2) returns; g2 is the second generator's result. */
  function Sequence2Step<S1, S2, A>(g2: S2, f1: Step<S1, A>, f2: Step<S2, A>, st: Stage2<S1, S2>, a: A)
    : (Stage2<S1, S2>, Status)
  {
    match st
    case First(s1) =>
      var r1 := f1(s1, a);
      if r1.1 == Pending then (First(r1.0), Pending)
      else if r1.1 == Failed then (First(r1.0), Failed)
      else
        var r2 := f2(g2, a);
        (Second(r2.0), r2.1)
    case Second(s2) =>
      var r2 := f2(s2, a);
      (Second(r2.0), r2.1)
  }

  function Sequence2Fiber<S1, S2, A>(g2: S2, f1: Step<S1, A>, f2: Step<S2, A>): Step<Stage2<S1, S2>, A>
  {
    (st, a) => Sequence2Step(g2, f1, f2, st, a)
  }

  /** The closure returned by sequence(g1, g2), with the captures it mutates. */
  class Sequence2<S1, S2, A> {
    const g2: S2
    const f1: Step<S1, A>
    const f2: Step<S2, A>
    var stage: Stage2<S1, S2>

    constructor (g1: S1, g2: S2, f1: Step<S1, A>, f2: Step<S2, A>)
      ensures this.g2 == g2 && this.f1 == f1 && this.f2 == f2 && stage == First(g1)
    {
      this.g2 := g2;
      this.f1 := f1;
      this.f2 := f2;
      stage := First(g1);
    }

    method Call(a: A) returns (r: Status)
      modifies this
      ensures (stage, r) == Sequence2Step(g2, f1, f2, old(stage), a)
    {
      if stage.First? {
        var r1 := f1(stage.s1, a);
        match r1.1
        case Pending =>
          stage := First(r1.0);
          return Pending;
        case Failed =>
          stage := First(r1.0);
          return Failed;
        case Complete =>
          stage := Second(g2);
      }
      var r2 := f2(stage.s2, a);
      stage := Second(r2.0);
      r := r2.1;
    }
  }

  /** In stage 0 a pending or failed result of f1 is returned and the stage stays 0: failure is not latched. */
  lemma FirstStageForwards<S1, S2, A>(g2: S2, f1: Step<S1, A>, f2: Step<S2, A>, s1: S1, a: A)
    requires f1(s1, a).1 != Complete
    ensures Sequence2Step(g2, f1, f2, First(s1), a) == (First(f1(s1, a).0), f1(s1, a).1)
  {
  }

  /** A completing f1 hands the same argument to the new second fiber, whose answer is returned. */
  lemma FirstStageCompletes<S1, S2, A>(g2: S2, f1: Step<S1, A>, f2: Step<S2, A>, s1: S1, a: A)
    requires f1(s1, a).1 == Complete
    ensures Sequence2Step(g2, f1, f2, First(s1), a) == (Second(f2(g2, a).0), f2(g2, a).1)
  {
  }

  /** From stage 1 on, f1 is never called again: the sequence runs exactly as f2 does. */
  lemma {:induction false} SecondStageRuns<S1, S2, A>(g2: S2, f1: Step<S1, A>, f2: Step<S2, A>, s2: S2, inputs: seq<A>)
    ensures Run(Sequence2Fiber(g2, f1, f2), Second(s2), inputs).0 == Second(Run(f2, s2, inputs).0)
    ensures Run(Sequence2Fiber(g2, f1, f2), Second(s2), inputs).1 == Run(f2, s2, inputs).1
    decreases |inputs|
  {
    if inputs != [] {
      SecondStageRuns(g2, f1, f2, f2(s2, inputs[0]).0, inputs[1..]);
    }
  }

  /** A fiber that completes after one call answered its first call with complete. */
  lemma CompletesAtOnce<S, A>(f: Step<S, A>, s: S, inputs: seq<A>)
    requires |inputs| == 1 && CompletesAfter(f, s, inputs)
    ensures f(s, inputs[0]).1 == Complete
  {
    RunFirst(f, s, inputs);
    assert inputs[1..] == [];
    assert Run(f, s, inputs).1 == [f(s, inputs[0]).1];
    assert Pendings(0) + [Complete] == [Complete];
  }

  /** A fiber that completes after k > 1 calls answers pending, then completes after k - 1 more. */
  lemma CompletesLater<S, A>(f: Step<S, A>, s: S, inputs: seq<A>)
    requires |inputs| > 1 && CompletesAfter(f, s, inputs)
    ensures f(s, inputs[0]).1 == Pending
    ensures CompletesAfter(f, f(s, inputs[0]).0, inputs[1..])
  {
    RunFirst(f, s, inputs);
    var rest := Run(f, f(s, inputs[0]).0, inputs[1..]).1;
    assert f(s, inputs[0]).1 == (Pendings(|inputs| - 1) + [Complete])[0];
    assert rest == (Pendings(|inputs| - 1) + [Complete])[1..];
    assert rest == Pendings(|inputs| - 2) + [Complete];
  }

  /**
   * If f1 completes on its k1-th call and f2 on its k2-th, counted from the
   * call that completed f1, the sequence completes after k1 + k2 - 1 calls.
   */
  lemma {:induction false} Sequence2Completes<S1, S2, A>(g2: S2, f1: Step<S1, A>, f2: Step<S2, A>, s1: S1,
                                                        inputs: seq<A>, k1: nat)
    requires 1 <= k1 <= |inputs|
    requires CompletesAfter(f1, s1, inputs[..k1])
    requires CompletesAfter(f2, g2, inputs[k1 - 1..])
    ensures CompletesAfter(Sequence2Fiber(g2, f1, f2), First(s1), inputs)
    decreases k1
  {
    var seq2 := Sequence2Fiber(g2, f1, f2);
    assert inputs[..k1][0] == inputs[0];
    RunFirst(seq2, First(s1), inputs);
    if k1 == 1 {
      CompletesAtOnce(f1, s1, inputs[..k1]);
      RunFirst(f2, g2, inputs);
      SecondStageRuns(g2, f1, f2, f2(g2, inputs[0]).0, inputs[1..]);
    } else {
      CompletesLater(f1, s1, inputs[..k1]);
      assert inputs[..k1][1..] == inputs[1..][..k1 - 1];
      assert inputs[1..][k1 - 2..] == inputs[k1 - 1..];
      Sequence2Completes(g2, f1, f2, f1(s1, inputs[0]).0, inputs[1..], k1 - 1);
      assert [Pending] + Pendings(|inputs| - 2) == Pendings(|inputs| - 1);
    }
  }

  // ----------------------------------------------------- sequence(g1, g2, g3)

  datatype Stage3<S1, S2, S3> = One(s1: S1) | Two(s2: S2) | Three(s3: S3)

  /** Stage 1 of sequence(g1, g2, g3), reached either directly or by falling through from stage 0. */
  function Stage3From2<S1, S2, S3, A>(g3: S3, f2: Step<S2, A>, f3: Step<S3, A>, s2: S2, a: A)
    : (Stage3<S1, S2, S3>, Status)
  {
    var r2 := f2(s2, a);
    if r2.1 == Pending then (Two(r2.0), Pending)
    else if r2.1 == Failed then (Two(r2.0), Failed)
    else
      var r3 := f3(g3, a);
      (Three(r3.0), r3.1)
  }

  /** One call of the closure sequence(g1, g2, g3) returns. */
  function Sequence3Step<S1, S2, S3, A>(g2: S2, g3: S3, f1: Step<S1, A>, f2: Step<S2, A>, f3: Step<S3, A>,
                                         st: Stage3<S1, S2, S3>, a: A): (Stage3<S1, S2, S3>, Status)
  {
    match st
    case One(s1) =>
      var r1 := f1(s1, a);
      if r1.1 == Pending then (One(r1.0), Pending)
      else if r1.1 == Failed then (One(r1.0), Failed)
      else Stage3From2(g3, f2, f3, g2, a)
    case Two(s2) => Stage3From2(g3, f2, f3, s2, a)
    case Three(s3) =>
      var r3 := f3(s3, a);
      (Three(r3.0), r3.1)
  }

  function Sequence3Fiber<S1, S2, S3, A>(g2: S2, g3: S3, f1: Step<S1, A>, f2: Step<S2, A>, f3: Step<S3, A>)
    : Step<Stage3<S1, S2, S3>, A>
  {
    (st, a) => Sequence3Step(g2, g3, f1, f2, f3, st, a)
  }

  /** The closure returned by sequence(g1, g2, g3). */
  class Sequence3<S1, S2, S3, A> {
    const g2: S2
    const g3: S3
    const f1: Step<S1, A>
    const f2: Step<S2, A>
    const f3: Step<S3, A>
    var stage: Stage3<S1, S2, S3>

    constructor (g1: S1, g2: S2, g3: S3, f1: Step<S1, A>, f2: Step<S2, A>, f3: Step<S3, A>)
      ensures this.g2 == g2 && this.g3 == g3 && this.f1 == f1 && this.f2 == f2 && this.f3 == f3
      ensures stage == One(g1)
    {
      this.g2 := g2;
      this.g3 := g3;
      this.f1 := f1;
      this.f2 := f2;
      this.f3 := f3;
      stage := One(g1);
    }

    method Call(a: A) returns (r: Status)
      modifies this
      ensures (stage, r) == Sequence3Step(g2, g3, f1, f2, f3, old(stage), a)
    {
      if stage.One? {
        var r1 := f1(stage.s1, a);
        match r1.1
        case Pending =>
          stage := One(r1.0);
          return Pending;
        case Failed =>
          stage := One(r1.0);
          return Failed;
        case Complete =>
          stage := Two(g2);
      }
      if stage.Two? {
        var r2 := f2(stage.s2, a);
        match r2.1
        case Pending =>
          stage := Two(r2.0);
          return Pending;
        case Failed =>
          stage := Two(r2.0);
          return Failed;
        case Complete =>
          stage := Three(g3);
      }
      var r3 := f3(stage.s3, a);
      stage := Three(r3.0);
      r := r3.1;
    }
  }

  /**
   * sequence(g1, g2, g3) behaves as sequence(g1, g') where g' builds
   * sequence(g2, g3): stage 1 and 2 are the inner sequence's stages 0 and 1.
   */
  function Nest<S1, S2, S3>(st: Stage3<S1, S2, S3>): Stage2<S1, Stage2<S2, S3>>
  {
    match st
    case One(s1) => First(s1)
    case Two(s2) => Second(First(s2))
    case Three(s3) => Second(Second(s3))
  }

  lemma NestStep<S1, S2, S3, A>(g2: S2, g3: S3, f1: Step<S1, A>, f2: Step<S2, A>, f3: Step<S3, A>,
                                st: Stage3<S1, S2, S3>, a: A)
    ensures var r := Sequence3Step(g2, g3, f1, f2, f3, st, a);
            var n := Sequence2Step(First(g2), f1, Sequence2Fiber(g3, f2, f3), Nest(st), a);
            n == (Nest(r.0), r.1)
  {
  }

  lemma {:induction false} NestRuns<S1, S2, S3, A>(g2: S2, g3: S3, f1: Step<S1, A>, f2: Step<S2, A>,
                                                  f3: Step<S3, A>, st: Stage3<S1, S2, S3>, inputs: seq<A>)
    ensures Run(Sequence3Fiber(g2, g3, f1, f2, f3), st, inputs).1
         == Run(Sequence2Fiber(First(g2), f1, Sequence2Fiber(g3, f2, f3)), Nest(st), inputs).1
    decreases |inputs|
  {
    if inputs != [] {
      NestStep(g2, g3, f1, f2, f3, st, inputs[0]);
      NestRuns(g2, g3, f1, f2, f3, Sequence3Step(g2, g3, f1, f2, f3, st, inputs[0]).0, inputs[1..]);
    }
  }

  /**
   * With fibers completing on their k1-th, k2-th and k3-th calls (each
   * counted from the call that completed the one before), the sequence
   * completes after k1 + k2 + k3 - 2 calls.
   */
  lemma Sequence3Completes<S1, S2, S3, A>(g2: S2, g3: S3, f1: Step<S1, A>, f2: Step<S2, A>, f3: Step<S3, A>,
                                          s1: S1, inputs: seq<A>, k1: nat, k2: nat)
    requires 1 <= k1 && 1 <= k2 && k1 + k2 - 1 <= |inputs|
    requires CompletesAfter(f1, s1, inputs[..k1])
    requires CompletesAfter(f2, g2, inputs[k1 - 1..][..k2])
    requires CompletesAfter(f3, g3, inputs[k1 + k2 - 2..])
    ensures CompletesAfter(Sequence3Fiber(g2, g3, f1, f2, f3), One(s1), inputs)
  {
    var tail := inputs[k1 - 1..];
    assert tail[k2 - 1..] == inputs[k1 + k2 - 2..];
    Sequence2Completes(g3, f2, f3, g2, tail, k2);
    Sequence2Completes(First(g2), f1, Sequence2Fiber(g3, f2, f3), s1, inputs, k1);
    NestRuns(g2, g3, f1, f2, f3, One(s1), inputs);
  }
}
