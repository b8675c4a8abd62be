/** Local logins: the failure counter, the lock, and how many password checks they let through. */
module Lockout {
  import opened Arithmetic
  import opened Common

  /** lockout: how long a lock lasts; maxFailed <= 0 turns locking off. */
  datatype Policy = Policy(maxFailed: int, lockout: int)

  datatype Account = Account(failed: nat, lockedUntil: Option<int>)

  datatype Outcome = Unknown | Locked | Rejected | Accepted

  predicate IsLocked(a: Account, now: int) {
    a.lockedUntil.Some? && a.lockedUntil.value > now
  }

  /** The account a failed check leaves: the counter survives the expiry of a lock. */
  function AfterFailure(a: Account, p: Policy, now: int): Account {
    Account(a.failed + 1,
      if p.maxFailed > 0 && a.failed + 1 >= p.maxFailed then Some(now + p.lockout) else None)
  }

  class LocalUser {
    var failedLoginAttempts: nat
    var lockedUntil: Option<int>
    var isActive: bool

    ghost function View(): Account
      reads this
    {
      Account(failedLoginAttempts, lockedUntil)
    }

    method IncrementFailedAttempts(lockUntil: Option<int>)
      modifies this`failedLoginAttempts, this`lockedUntil
      ensures View() == Account(old(failedLoginAttempts) + 1, lockUntil)
    {
      failedLoginAttempts := failedLoginAttempts + 1;
      lockedUntil := lockUntil;
    }

    method ResetFailedAttempts()
      modifies this`failedLoginAttempts, this`lockedUntil
      ensures View() == Account(0, None)
    {
      failedLoginAttempts := 0;
      lockedUntil := None;
    }

    /** matches: whether the password is the right one. */
    method AuthenticateLocal(p: Policy, now: int, matches: bool) returns (r: Outcome)
      modifies this`failedLoginAttempts, this`lockedUntil
      ensures r == (if !isActive then Unknown else if IsLocked(old(View()), now) then Locked
                    else if matches then Accepted else Rejected)
      ensures View() == match r
                        case Accepted => Account(0, None)
                        case Rejected => AfterFailure(old(View()), p, now)
                        case _ => old(View())
    {
      if !isActive {
        return Unknown;
      }
      if lockedUntil.Some? && lockedUntil.value > now {
        return Locked;
      }
      if !matches {
        var lockUntil: Option<int> := None;
        var newCount := failedLoginAttempts + 1;
        if p.maxFailed > 0 && newCount >= p.maxFailed {
          lockUntil := Some(now + p.lockout);
        }
        IncrementFailedAttempts(lockUntil);
        return Rejected;
      }
      ResetFailedAttempts();
      r := Accepted;
    }
  }

  // ---- a series of wrong passwords ---------------------------------------------------

  /** Attempts come one after the other; the times of those whose password was checked. */
  function Checks(a: Account, p: Policy, times: seq<int>): seq<int>
    decreases |times|
  {
    if times == [] then []
    else if IsLocked(a, times[0]) then Checks(a, p, times[1..])
    else [times[0]] + Checks(AfterFailure(a, p, times[0]), p, times[1..])
  }

  ghost predicate Ascending(times: seq<int>) {
    forall i, j | 0 <= i < j < |times| :: times[i] <= times[j]
  }

  /** Until when the account refuses to check, seen at now. */
  function Earliest(a: Account, now: int): int {
    if IsLocked(a, now) then a.lockedUntil.value else now
  }

  /** Checks still free before the account locks on every failure. */
  function Free(a: Account, p: Policy): nat {
    if a.failed < p.maxFailed - 1 then p.maxFailed - 1 - a.failed else 0
  }

  lemma AscendingTail(times: seq<int>)
    requires times != [] && Ascending(times)
    ensures Ascending(times[1..]) && times[0] in times
    ensures forall t | t in times[1..] :: t in times && times[0] <= t
  {
  }

  /** Checks still possible between now and end. */
  function Bound(a: Account, p: Policy, now: int, end: int): int
    requires p.lockout > 0
  {
    if end < Earliest(a, now) then 0 else Free(a, p) + 1 + (end - Earliest(a, now)) / p.lockout
  }

  /** A check spends one unit of the bound. */
  lemma CheckSpendsOne(a: Account, p: Policy, now: int, t: int, end: int)
    requires p.maxFailed > 0 && p.lockout > 0 && now <= t <= end && !IsLocked(a, t)
    ensures Bound(AfterFailure(a, p, t), p, t, end) + 1 <= Bound(a, p, now, end)
  {
    DivMonotone(end - t, end - Earliest(a, now), p.lockout);
    DivMonotone(0, end - Earliest(a, now), p.lockout);
    DivLess(end - t, p.lockout);
  }

  lemma {:induction false} ChecksBounded(a: Account, p: Policy, times: seq<int>, now: int, end: int)
    requires p.maxFailed > 0 && p.lockout > 0
    requires Ascending(times) && forall t | t in times :: now <= t <= end
    ensures |Checks(a, p, times)| <= Bound(a, p, now, end)
    decreases |times|
  {
    if times == [] {
      if Earliest(a, now) <= end {
        DivMonotone(0, end - Earliest(a, now), p.lockout);
      }
    } else {
      var t := times[0];
      AscendingTail(times);
      if IsLocked(a, t) {
        ChecksBounded(a, p, times[1..], now, end);
      } else {
        ChecksBounded(AfterFailure(a, p, t), p, times[1..], t, end);
        CheckSpendsOne(a, p, now, t, end);
      }
    }
  }

  /** Within T of the first failed check there are at most maxFailed + floor(T / lockout) of them. */
  lemma LockoutBound(a: Account, p: Policy, times: seq<int>, T: nat)
    requires p.maxFailed > 0 && p.lockout > 0
    requires times != [] && Ascending(times) && !IsLocked(a, times[0])
    requires forall t | t in times :: t <= times[0] + T
    ensures |Checks(a, p, times)| <= p.maxFailed + T / p.lockout
  {
    ChecksBounded(a, p, times, times[0], times[0] + T);
  }

  // ---- the bound is reached ------------------------------------------------------------

  /** m attempts at once, then one at the end of each of k locks. */
  function Persistent(p: Policy, m: nat, k: nat, now: int): seq<int> {
    if m > 0 then [now] + Persistent(p, m - 1, k, now)
    else if k > 0 then [now + p.lockout] + Persistent(p, 0, k - 1, now + p.lockout)
    else []
  }

  lemma {:induction false} PersistentAllChecked(a: Account, p: Policy, m: nat, k: nat, now: int)
    requires p.maxFailed > 0 && p.lockout > 0
    requires m > 0 ==> a.failed + m == p.maxFailed && a.lockedUntil.None?
    requires m == 0 ==> a.failed >= p.maxFailed && a.lockedUntil == Some(now + p.lockout)
    ensures Checks(a, p, Persistent(p, m, k, now)) == Persistent(p, m, k, now)
    ensures |Persistent(p, m, k, now)| == m + k
    ensures forall t | t in Persistent(p, m, k, now) :: now <= t <= now + k * p.lockout
    decreases m + k
  {
    if m > 0 {
      PersistentAllChecked(AfterFailure(a, p, now), p, m - 1, k, now);
    } else if k > 0 {
      PersistentAllChecked(AfterFailure(a, p, now + p.lockout), p, 0, k - 1, now + p.lockout);
      assert (k - 1) * p.lockout + p.lockout == k * p.lockout;
    }
  }

  /** The bound is tight: a fresh account grants maxFailed + k checks within k locks. */
  lemma BoundIsReached(p: Policy, k: nat, now: int) returns (times: seq<int>)
    requires p.maxFailed > 0 && p.lockout > 0
    ensures forall t | t in times :: now <= t <= now + k * p.lockout
    ensures |Checks(Account(0, None), p, times)| == p.maxFailed + k
  {
    times := Persistent(p, p.maxFailed, k, now);
    PersistentAllChecked(Account(0, None), p, p.maxFailed, k, now);
  }
}
