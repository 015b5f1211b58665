/**
 * Waitables (rtl/waitable.hpp): an asynchronous operation is pending,
 * complete or failed, and the main thread waits until a list of them is no
 * longer pending. A waitable is represented here by its current status.
 */
module Waitable {
  /** waitable<>::status */
  datatype Status = Pending | Complete | Failed

  /** wait_all_inner(head, tail...): no waitable of the list is pending. */
  function WaitAllInner(list: seq<Status>): bool
    requires |list| >= 1
  {
    if |list| == 1 then list[0] != Pending else list[0] != Pending && WaitAllInner(list[1..])
  }

  /** wait_any_inner(head, tail...): some waitable of the list is not pending. */
  function WaitAnyInner(list: seq<Status>): bool
    requires |list| >= 1
  {
    if |list| == 1 then list[0] != Pending else list[0] != Pending || WaitAnyInner(list[1..])
  }

  /** wait_all_inner holds exactly when no element is pending. */
  lemma {:induction false} WaitAllMeaning(list: seq<Status>)
    requires |list| >= 1
    ensures WaitAllInner(list) <==> forall i | 0 <= i < |list| :: list[i] != Pending
  {
    if |list| > 1 {
      WaitAllMeaning(list[1..]);
      assert forall i | 1 <= i < |list| :: list[i] == list[1..][i - 1];
    }
  }

  /** wait_any_inner holds exactly when some element is not pending. */
  lemma {:induction false} WaitAnyMeaning(list: seq<Status>)
    requires |list| >= 1
    ensures WaitAnyInner(list) <==> exists i | 0 <= i < |list| :: list[i] != Pending
  {
    if |list| > 1 {
      WaitAnyMeaning(list[1..]);
      if exists i | 0 <= i < |list| :: list[i] != Pending {
        var i :| 0 <= i < |list| && list[i] != Pending;
        if i > 0 {
          assert list[1..][i - 1] != Pending;
        }
      }
      if exists i | 0 <= i < |list[1..]| :: list[1..][i] != Pending {
        var i :| 0 <= i < |list[1..]| && list[1..][i] != Pending;
        assert list[i + 1] != Pending;
      }
    }
  }

  /** For a single waitable both predicates are "not pending". */
  lemma SingleWaitable(s: Status)
    ensures WaitAllInner([s]) == WaitAnyInner([s]) == (s != Pending)
  {
  }

  /** Whenever all of a list are done, any of them is. */
  lemma AllImpliesAny(list: seq<Status>)
    requires |list| >= 1
    ensures WaitAllInner(list) ==> WaitAnyInner(list)
  {
    WaitAllMeaning(list);
    WaitAnyMeaning(list);
    if WaitAllInner(list) {
      assert list[0] != Pending;
    }
  }

  /**
   * wait() is wait_all of the waitable alone, whose loop ends exactly when
   * the loop condition holds: the waitable is complete or failed.
   */
  lemma WaitExit(s: Status)
    ensures WaitAllInner([s]) <==> s == Complete || s == Failed
  {
  }
}
