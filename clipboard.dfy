/**
 * useClipboard: a copy status cell and the resets that `setTimeout` schedules.
 * A scheduled reset is never cancelled, so resets from several copies stack
 * and every one of them sets the status back to inactive when it fires.
 */
module Clipboard {

  datatype CopyStatus = Inactive | Copied | Failed

  /** What the host does with one copy request. */
  datatype WriteOutcome =
    | Unavailable  // navigator.clipboard is missing
    | Written      // writeText resolved
    | Rejected     // writeText threw

  /** The hook's default `timeout` argument. */
  const DefaultTimeout: nat := 2000

  predicate Sorted(s: seq<nat>) {
    forall i, j :: 0 <= i <= j < |s| ==> s[i] <= s[j]
  }

  /** How many of the (sorted) due times fall at or before `t`: the resets that have fired by then. */
  function DueCount(due: seq<nat>, t: nat): (k: nat)
    requires Sorted(due)
    ensures k <= |due|
    ensures forall i :: 0 <= i < k ==> due[i] <= t
    ensures forall i :: k <= i < |due| ==> due[i] > t
  {
    if due == [] || due[0] > t then 0 else 1 + DueCount(due[1..], t)
  }

  class Clipboard {
    const timeout: nat
    var status: CopyStatus
    /** The due times of the resets scheduled and not yet fired, in scheduling order. */
    var pending: seq<nat>
    /** The host clock. */
    var now: nat

    ghost predicate Valid()
      reads this
    {
      && Sorted(pending)
      && forall i :: 0 <= i < |pending| ==> now <= pending[i] <= now + timeout
    }

    /** `useClipboard(timeout)`: the status starts inactive with nothing scheduled. */
    constructor (timeout: nat)
      ensures Valid()
      ensures this.timeout == timeout && status == Inactive && pending == [] && now == 0
    {
      this.timeout := timeout;
      status := Inactive;
      pending := [];
      now := 0;
    }

    /** `useClipboard()` with the default timeout of 2000. */
    constructor Default()
      ensures Valid()
      ensures timeout == DefaultTimeout && status == Inactive && pending == [] && now == 0
    {
      timeout := DefaultTimeout;
      status := Inactive;
      pending := [];
      now := 0;
    }

    /**
     * `copy(text)`: without a clipboard the status becomes failed and nothing is
     * scheduled; otherwise it becomes copied or failed and one more reset is
     * scheduled `timeout` from now, beside any that are still pending.
     */
    method Copy(outcome: WriteOutcome)
      requires Valid()
      modifies this`status, this`pending
      ensures Valid()
      ensures status == (if outcome == Written then Copied else Failed)
      ensures pending == old(pending) + (if outcome == Unavailable then [] else [now + timeout])
    {
      match outcome
      case Unavailable =>
        status := Failed;
      case Written =>
        status := Copied;
        pending := pending + [now + timeout];
      case Rejected =>
        status := Failed;
        pending := pending + [now + timeout];
    }

    /**
     * The clock moves on to `t`, and every reset due by then fires; each firing
     * sets the status to inactive, whatever it was.
     */
    method AdvanceTo(t: nat)
      requires Valid() && now <= t
      modifies this`status, this`pending, this`now
      ensures Valid() && now == t
      ensures var k := DueCount(old(pending), t);
        && pending == old(pending)[k..]
        && status == (if k > 0 then Inactive else old(status))
    {
      var k := DueCount(pending, t);
      if k > 0 {
        status := Inactive;
      }
      pending := pending[k..];
      now := t;
    }
  }

  /**
   * Two successful copies 1500 apart: after the second both resets are pending,
   * and the first one fires 500 after the second copy, before that copy's own
   * timeout has run out.
   */
  method StackedResetsRevertEarly() returns (afterSecond: CopyStatus, pendingAfterSecond: nat, atFirstDue: CopyStatus)
    ensures afterSecond == Copied && pendingAfterSecond == 2
    ensures atFirstDue == Inactive
  {
    DueCountOne();
    DueCountTwo();
    var c := new Clipboard.Default();
    c.Copy(Written);
    assert c.pending == [2000];
    c.AdvanceTo(1500);
    c.Copy(Written);
    assert c.pending == [2000, 3500];
    afterSecond, pendingAfterSecond := c.status, |c.pending|;
    c.AdvanceTo(2000);
    atFirstDue := c.status;
  }

  lemma DueCountOne()
    ensures DueCount([2000], 1500) == 0
  {
  }

  lemma DueCountTwo()
    ensures DueCount([2000, 3500], 2000) == 1
  {
    assert [2000, 3500][1..] == [3500];
  }

  /** Without a clipboard a fresh hook fails and stays failed however long one waits. */
  method UnavailableStaysFailed(t: nat) returns (s: CopyStatus)
    ensures s == Failed
  {
    var c := new Clipboard.Default();
    c.Copy(Unavailable);
    c.AdvanceTo(t);
    s := c.status;
  }

  /**
   * A single copy: the status it sets holds until just before `timeout` has
   * elapsed and is inactive from then on.
   */
  method SingleCopy(timeout: nat, outcome: WriteOutcome, t: nat) returns (s: CopyStatus)
    requires outcome != Unavailable
    ensures t < timeout ==> s == (if outcome == Written then Copied else Failed)
    ensures t >= timeout ==> s == Inactive
  {
    var c := new Clipboard(timeout);
    c.Copy(outcome);
    c.AdvanceTo(t);
    s := c.status;
  }
}
