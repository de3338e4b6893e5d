/**
 * The acquire loop of `getConnectionExcept` as a function of what the
 * environment answers on each pass of the loop: the clock reading taken at the
 * loop head and what the backing pool's `borrowObject` did.
 *
 * Within one call the registry does not change (no other thread runs in this
 * model), so the node the selection strategy picks is the same on every pass;
 * it is a parameter here, and so is whether the backing pool is closed.
 */
module Acquisition {
  import opened Common

  /** How an attempt to borrow from an open backing pool ended. */
  datatype BorrowOutcome =
    | Borrowed       // a connection was handed out
    | Exhausted      // `NoSuchElementException`: the node had no free slot within the short wait
    | CreateFailed   // any other exception, e.g. opening a new connection failed

  /** One pass of the loop: the clock reading at its head, and the borrow result if a borrow is tried. */
  datatype Attempt = Attempt(now: nat, borrow: BorrowOutcome)

  /** What the caller of acquire observes. `StillWaiting`: the call has not returned after the given passes. */
  datatype AcquireOutcome =
    | Acquired(address: Address)
    | NoConnectionsAvailable
    | PoolShutdown
    | StillWaiting

  /** The `timeout` value meaning "not computed yet". */
  const UNSET_TIMEOUT: int := -1

  /** The deadline fixed on the first pass: `now + maxWait`, or `Long.MAX_VALUE` for a non-positive wait. */
  function Deadline(maxWait: int, now: nat): (d: int)
    ensures d != UNSET_TIMEOUT
    ensures maxWait > 0 ==> now < d
    ensures maxWait <= 0 ==> d == LONG_MAX
  {
    if maxWait > 0 then now + maxWait else LONG_MAX
  }

  /**
   * The loop, entered with the current `timeout`. A pass with the timeout unset fixes the
   * deadline and skips the check, so the first pass never times out; the call is still waiting
   * only when every pass it was given retried.
   */
  function AcquireFrom(selected: Option<Address>, closed: bool, attempts: seq<Attempt>, maxWait: int, timeout: int): (r: AcquireOutcome)
    ensures timeout == UNSET_TIMEOUT && |attempts| <= 1 ==> r != NoConnectionsAvailable
    ensures r == StillWaiting ==> forall j :: 0 <= j < |attempts| ==> Retries(selected, closed, attempts[j])
    decreases |attempts|
  {
    if attempts == [] then StillWaiting
    else if timeout != UNSET_TIMEOUT && timeout < attempts[0].now then NoConnectionsAvailable
    else
      var t := if timeout == UNSET_TIMEOUT then Deadline(maxWait, attempts[0].now) else timeout;
      match selected
      case None => AcquireFrom(selected, closed, attempts[1..], maxWait, t)
      case Some(a) =>
        if closed then PoolShutdown
        else if attempts[0].borrow == Borrowed then Acquired(a)
        else AcquireFrom(selected, closed, attempts[1..], maxWait, t)
  }

  /** The whole call: the loop entered with the timeout unset. */
  function Acquire(selected: Option<Address>, closed: bool, attempts: seq<Attempt>, maxWait: int): AcquireOutcome
  {
    AcquireFrom(selected, closed, attempts, maxWait, UNSET_TIMEOUT)
  }

  /** A pass that leads to another pass: nothing selected, or a borrow that failed transiently. */
  predicate Retries(selected: Option<Address>, closed: bool, a: Attempt)
  {
    selected.None? || (!closed && a.borrow != Borrowed)
  }

  lemma {:induction false} TimedOutFromPassedDeadline(selected: Option<Address>, closed: bool, attempts: seq<Attempt>, maxWait: int, timeout: int)
    requires timeout != UNSET_TIMEOUT
    requires AcquireFrom(selected, closed, attempts, maxWait, timeout) == NoConnectionsAvailable
    ensures exists k :: 0 <= k < |attempts| && attempts[k].now > timeout &&
                        forall j :: 0 <= j < k ==> Retries(selected, closed, attempts[j])
    decreases |attempts|
  {
    if attempts[0].now <= timeout {
      TimedOutFromPassedDeadline(selected, closed, attempts[1..], maxWait, timeout);
      var k :| 0 <= k < |attempts[1..]| && attempts[1..][k].now > timeout &&
               forall j :: 0 <= j < k ==> Retries(selected, closed, attempts[1..][j]);
      assert attempts[k + 1].now > timeout;
      forall j | 0 <= j < k + 1 ensures Retries(selected, closed, attempts[j]) {
        if j > 0 { assert attempts[j] == attempts[1..][j - 1]; }
      }
    }
  }

  /**
   * Acquire fails with `NoConnectionsAvailable` only at a pass after the first whose clock
   * reading is past the deadline fixed on the first pass, every earlier pass having retried.
   */
  lemma NeverTimesOutBeforeDeadline(selected: Option<Address>, closed: bool, attempts: seq<Attempt>, maxWait: int)
    requires Acquire(selected, closed, attempts, maxWait) == NoConnectionsAvailable
    ensures exists k :: 1 <= k < |attempts| && attempts[k].now > Deadline(maxWait, attempts[0].now) &&
                        forall j :: 0 <= j < k ==> Retries(selected, closed, attempts[j])
  {
    var d := Deadline(maxWait, attempts[0].now);
    TimedOutFromPassedDeadline(selected, closed, attempts[1..], maxWait, d);
    var k :| 0 <= k < |attempts[1..]| && attempts[1..][k].now > d &&
             forall j :: 0 <= j < k ==> Retries(selected, closed, attempts[1..][j]);
    assert attempts[k + 1].now > d;
    forall j | 0 <= j < k + 1 ensures Retries(selected, closed, attempts[j]) {
      if j > 0 { assert attempts[j] == attempts[1..][j - 1]; }
    }
  }

  lemma {:induction false} RetryingLoopTimesOutAtDeadline(selected: Option<Address>, closed: bool, attempts: seq<Attempt>, maxWait: int, timeout: int, k: nat)
    requires timeout != UNSET_TIMEOUT
    requires k < |attempts| && attempts[k].now > timeout
    requires forall j :: 0 <= j < k ==> Retries(selected, closed, attempts[j])
    ensures AcquireFrom(selected, closed, attempts, maxWait, timeout) == NoConnectionsAvailable
    decreases k
  {
    if k > 0 && attempts[0].now <= timeout {
      assert Retries(selected, closed, attempts[0]);
      forall j | 0 <= j < k - 1 ensures Retries(selected, closed, attempts[1..][j]) {
        assert attempts[1..][j] == attempts[j + 1];
      }
      RetryingLoopTimesOutAtDeadline(selected, closed, attempts[1..], maxWait, timeout, k - 1);
    }
  }

  /**
   * Conversely: when every pass up to a later one retries and that pass's clock reading is
   * past the deadline, acquire fails with `NoConnectionsAvailable`; the retries themselves
   * never surface.
   */
  lemma TimesOutOncePastDeadline(selected: Option<Address>, closed: bool, attempts: seq<Attempt>, maxWait: int, k: nat)
    requires 1 <= k < |attempts| && attempts[k].now > Deadline(maxWait, attempts[0].now)
    requires forall j :: 0 <= j < k ==> Retries(selected, closed, attempts[j])
    ensures Acquire(selected, closed, attempts, maxWait) == NoConnectionsAvailable
  {
    assert Retries(selected, closed, attempts[0]);
    forall j | 0 <= j < k - 1 ensures Retries(selected, closed, attempts[1..][j]) {
      assert attempts[1..][j] == attempts[j + 1];
    }
    RetryingLoopTimesOutAtDeadline(selected, closed, attempts[1..], maxWait, Deadline(maxWait, attempts[0].now), k - 1);
  }

  /** With an unbounded wait, acquire never times out on a clock that stays within `long` range. */
  lemma UnboundedWaitNeverTimesOut(selected: Option<Address>, closed: bool, attempts: seq<Attempt>, maxWait: int)
    requires maxWait <= 0
    requires forall j :: 0 <= j < |attempts| ==> attempts[j].now <= LONG_MAX
    ensures Acquire(selected, closed, attempts, maxWait) != NoConnectionsAvailable
  {
    if Acquire(selected, closed, attempts, maxWait) == NoConnectionsAvailable {
      NeverTimesOutBeforeDeadline(selected, closed, attempts, maxWait);
    }
  }

  lemma {:induction false} AcquiredFromSelected(selected: Option<Address>, closed: bool, attempts: seq<Attempt>, maxWait: int, timeout: int)
    requires AcquireFrom(selected, closed, attempts, maxWait, timeout).Acquired?
    ensures selected == Some(AcquireFrom(selected, closed, attempts, maxWait, timeout).address) && !closed
    ensures exists k :: 0 <= k < |attempts| && attempts[k].borrow == Borrowed
    decreases |attempts|
  {
    var t := if timeout == UNSET_TIMEOUT then Deadline(maxWait, attempts[0].now) else timeout;
    if selected.None? || attempts[0].borrow != Borrowed {
      AcquiredFromSelected(selected, closed, attempts[1..], maxWait, t);
      var k :| 0 <= k < |attempts[1..]| && attempts[1..][k].borrow == Borrowed;
      assert attempts[k + 1].borrow == Borrowed;
    }
  }

  /** A connection is obtained only from the selected node, on an open pool, by a borrow that succeeded. */
  lemma AcquiredOnlyFromSelectedNode(selected: Option<Address>, closed: bool, attempts: seq<Attempt>, maxWait: int, a: Address)
    requires Acquire(selected, closed, attempts, maxWait) == Acquired(a)
    ensures selected == Some(a) && !closed
    ensures exists k :: 0 <= k < |attempts| && attempts[k].borrow == Borrowed
  {
    AcquiredFromSelected(selected, closed, attempts, maxWait, UNSET_TIMEOUT);
  }

  lemma {:induction false} ShutdownOnlyWhenClosed(selected: Option<Address>, closed: bool, attempts: seq<Attempt>, maxWait: int, timeout: int)
    requires AcquireFrom(selected, closed, attempts, maxWait, timeout) == PoolShutdown
    ensures selected.Some? && closed
    decreases |attempts|
  {
    var t := if timeout == UNSET_TIMEOUT then Deadline(maxWait, attempts[0].now) else timeout;
    if selected.None? || !closed {
      ShutdownOnlyWhenClosed(selected, closed, attempts[1..], maxWait, t);
    }
  }

  /**
   * The fatal error surfaces exactly when a node is selected and the backing pool is closed,
   * and then on the first pass, which never checks the deadline.
   */
  lemma ShutdownIsFatalAndImmediate(selected: Option<Address>, closed: bool, attempts: seq<Attempt>, maxWait: int)
    requires attempts != []
    ensures Acquire(selected, closed, attempts, maxWait) == PoolShutdown <==> selected.Some? && closed
  {
    if Acquire(selected, closed, attempts, maxWait) == PoolShutdown {
      ShutdownOnlyWhenClosed(selected, closed, attempts, maxWait, UNSET_TIMEOUT);
    }
  }

  lemma {:induction false} EventuallyAcquiredFrom(a: Address, attempts: seq<Attempt>, maxWait: int, timeout: int, k: nat)
    requires timeout == LONG_MAX
    requires k < |attempts| && attempts[k].borrow == Borrowed
    requires forall j :: 0 <= j < |attempts| ==> attempts[j].now <= LONG_MAX
    ensures AcquireFrom(Some(a), false, attempts, maxWait, timeout) == Acquired(a)
    decreases k
  {
    if attempts[0].borrow != Borrowed {
      assert attempts[1..][k - 1] == attempts[k];
      EventuallyAcquiredFrom(a, attempts[1..], maxWait, timeout, k - 1);
    }
  }

  /**
   * Liveness with an unbounded wait: when a node is selected, the pool is open and some borrow
   * eventually succeeds, acquire returns a connection of that node.
   */
  lemma UnboundedWaitEventuallyAcquires(a: Address, attempts: seq<Attempt>, maxWait: int, k: nat)
    requires maxWait <= 0
    requires k < |attempts| && attempts[k].borrow == Borrowed
    requires forall j :: 0 <= j < |attempts| ==> attempts[j].now <= LONG_MAX
    ensures Acquire(Some(a), false, attempts, maxWait) == Acquired(a)
  {
    if attempts[0].borrow != Borrowed {
      assert attempts[1..][k - 1] == attempts[k];
      EventuallyAcquiredFrom(a, attempts[1..], maxWait, LONG_MAX, k - 1);
    }
  }

  /** With no node to select, acquire never returns a connection and never fails fatally. */
  lemma NoSelectionNeverAcquires(closed: bool, attempts: seq<Attempt>, maxWait: int)
    ensures Acquire(None, closed, attempts, maxWait) in {NoConnectionsAvailable, StillWaiting}
  {
    var r := Acquire(None, closed, attempts, maxWait);
    if r.Acquired? {
      AcquiredOnlyFromSelectedNode(None, closed, attempts, maxWait, r.address);
    } else if r == PoolShutdown {
      ShutdownOnlyWhenClosed(None, closed, attempts, maxWait, UNSET_TIMEOUT);
    }
  }
}
