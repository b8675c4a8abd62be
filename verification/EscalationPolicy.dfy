/** The arithmetic of an escalation policy: which step may be taken, and from when on. */
module EscalationPolicy {
  import opened Arithmetic
  import opened Common

  /** layers[k] is notify_after_minutes of layer k. */
  datatype Policy = Policy(layers: seq<int>, repeatInterval: int, maxRepeats: int)

  predicate WithinLimit(p: Policy, step: nat)
    requires |p.layers| > 0
  {
    var repeats := step / |p.layers|;
    && !(p.maxRepeats > 0 && repeats > p.maxRepeats)
    && !(p.repeatInterval == 0 && repeats > 0)
  }

  /** Minutes after the incident fired from which step is due. */
  function Threshold(p: Policy, step: nat): int
    requires |p.layers| > 0
  {
    var n := |p.layers|;
    (p.layers[n - 1] + p.repeatInterval) * (step / n) + p.layers[step % n]
  }

  predicate Eligible(p: Policy, elapsed: int, step: nat)
    requires |p.layers| > 0
  {
    WithinLimit(p, step) && elapsed >= Threshold(p, step) * MINUTE
  }

  /** What one poll makes of a step: it moves by one, or stays. */
  function Poll(p: Policy, elapsed: int, step: nat): nat {
    if |p.layers| > 0 && Eligible(p, elapsed, step + 1) then step + 1 else step
  }

  // ---- division facts -------------------------------------------------------

  lemma NextStep(n: nat, step: nat)
    requires n > 0
    ensures (step + 1) % n == 0 ==> (step + 1) / n == step / n + 1 && step % n == n - 1
    ensures (step + 1) % n != 0 ==> (step + 1) / n == step / n && (step + 1) % n == step % n + 1
  {
    var q, r := step / n, step % n;
    assert step == n * q + r;
    if r == n - 1 {
      assert step + 1 == n * (q + 1);
      Quotient(n, step + 1, q + 1, 0);
    } else {
      Quotient(n, step + 1, q, r + 1);
    }
  }

  // ---- the repeat limit ---------------------------------------------------------

  predicate Unlimited(p: Policy) {
    p.repeatInterval != 0 && p.maxRepeats <= 0
  }

  /** The last step a limited policy allows. */
  function LastStep(p: Policy): int {
    if p.repeatInterval == 0 then |p.layers| - 1 else |p.layers| * (p.maxRepeats + 1) - 1
  }

  /** A policy without a limit allows every step; any other exactly those up to LastStep. */
  lemma LimitExactly(p: Policy, step: nat)
    requires |p.layers| > 0
    ensures WithinLimit(p, step) <==> Unlimited(p) || step <= LastStep(p)
  {
    var n := |p.layers|;
    var q := step / n;
    assert step == n * q + step % n;
    if p.repeatInterval == 0 {
      assert q > 0 <==> step >= n;
    } else if p.maxRepeats > 0 {
      var m := p.maxRepeats + 1;
      if q >= m {
        assert n * q >= n * m;
      } else {
        assert n * q <= n * (m - 1);
        assert n * m == n * (m - 1) + n;
      }
    }
  }

  // ---- the threshold as a running sum ---------------------------------------------

  /** The wait between the previous step and this one. */
  function Gap(p: Policy, step: nat): int
    requires |p.layers| > 0 && step > 0
  {
    var k := step % |p.layers|;
    if k == 0 then p.repeatInterval + p.layers[0] else p.layers[k] - p.layers[k - 1]
  }

  function SumOfGaps(p: Policy, step: nat): int
    requires |p.layers| > 0
  {
    if step == 0 then 0 else SumOfGaps(p, step - 1) + Gap(p, step)
  }

  lemma GapIsDifference(p: Policy, step: nat)
    requires |p.layers| > 0
    ensures Threshold(p, step + 1) == Threshold(p, step) + Gap(p, step + 1)
  {
    var n := |p.layers|;
    NextStep(n, step);
    var c := p.layers[n - 1] + p.repeatInterval;
    assert c * (step / n + 1) == c * (step / n) + c;
  }

  lemma {:induction false} ThresholdIsRunningSum(p: Policy, step: nat)
    requires |p.layers| > 0
    ensures Threshold(p, step) == p.layers[0] + SumOfGaps(p, step)
  {
    if step > 0 {
      ThresholdIsRunningSum(p, step - 1);
      GapIsDifference(p, step - 1);
    }
  }

  /** Delays do not decrease along the layers, nor from the end of a cycle to the next one's start. */
  ghost predicate Ordered(p: Policy)
    requires |p.layers| > 0
  {
    && (forall k | 0 < k < |p.layers| :: p.layers[k - 1] <= p.layers[k])
    && p.repeatInterval + p.layers[0] >= 0
  }

  /** Exactly the ordered policies have thresholds that never decrease. */
  lemma MonotoneExactly(p: Policy)
    requires |p.layers| > 0
    ensures Ordered(p) <==> forall step: nat :: Threshold(p, step) <= Threshold(p, step + 1)
  {
    var n := |p.layers|;
    if Ordered(p) {
      forall step: nat ensures Threshold(p, step) <= Threshold(p, step + 1) {
        GapIsDifference(p, step);
      }
    }
    if forall step: nat :: Threshold(p, step) <= Threshold(p, step + 1) {
      forall k | 0 < k < n ensures p.layers[k - 1] <= p.layers[k] {
        GapIsDifference(p, k - 1);
        assert Threshold(p, k - 1) <= Threshold(p, k - 1 + 1);
        Quotient(n, k, 0, k);
      }
      GapIsDifference(p, n - 1);
      assert Threshold(p, n - 1) <= Threshold(p, n - 1 + 1);
      Quotient(n, n, 1, 0);
    }
  }

  // ---- catching up --------------------------------------------------------------------

  /** n polls at one clock reading. */
  function Polls(p: Policy, elapsed: int, step: nat, n: nat): nat {
    if n == 0 then step else Poll(p, elapsed, Polls(p, elapsed, step, n - 1))
  }

  /** step is the largest that is both due and within the limit; step 0 is taken at once. */
  ghost predicate LargestEligible(p: Policy, elapsed: int, step: nat)
    requires |p.layers| > 0
  {
    && (step == 0 || Eligible(p, elapsed, step))
    && (forall later: nat :: later > step ==> !Eligible(p, elapsed, later))
  }

  /** After step 1 no step is due before the previous one.  The first n gaps decide: they recur. */
  predicate Rising(p: Policy)
    requires |p.layers| > 0
  {
    forall step | 2 <= step <= |p.layers| + 1 :: Gap(p, step) >= 0
  }

  lemma GapsRecur(p: Policy, step: nat)
    requires |p.layers| > 0 && step >= 2
    ensures var first := 2 + (step - 2) % |p.layers|;
      2 <= first <= |p.layers| + 1 && first <= step && Gap(p, step) == Gap(p, first)
  {
    var n := |p.layers|;
    var q, first := (step - 2) / n, 2 + (step - 2) % n;
    assert step == n * q + first;
    MulAtLeast(n, q);
    Quotient(n, step, q + first / n, first % n) by {
      assert n * (q + first / n) == n * q + n * (first / n);
    }
  }

  /** Every further cycle costs time, or the number of cycles is limited. */
  predicate Settles(p: Policy)
    requires |p.layers| > 0
  {
    !Unlimited(p) || p.layers[|p.layers| - 1] + p.repeatInterval > 0
  }

  /**
   * step is due no earlier than its predecessor; or the predecessor is due within the minute in which
   * no incident is polled yet.
   */
  predicate InTurn(p: Policy, step: nat)
    requires |p.layers| > 0 && step >= 2
  {
    Gap(p, step) >= 0 || Threshold(p, step - 1) <= 1
  }

  /** What a policy must meet for catch-up to work: a finite check of its delays. */
  predicate CatchesUp(p: Policy)
    requires |p.layers| > 0
  {
    && Settles(p)
    && if Unlimited(p) then Rising(p) else forall step | 2 <= step <= LastStep(p) :: InTurn(p, step)
  }

  lemma StepsInTurn(p: Policy, step: nat)
    requires |p.layers| > 0 && CatchesUp(p) && step >= 2 && WithinLimit(p, step)
    ensures InTurn(p, step)
  {
    if Unlimited(p) {
      GapsRecur(p, step);
    } else {
      LimitExactly(p, step);
    }
  }

  /** Ordered delays catch up if they settle. */
  lemma OrderedCatchesUp(p: Policy)
    requires |p.layers| > 0 && Ordered(p)
    ensures CatchesUp(p) <==> Settles(p)
  {
    MonotoneExactly(p);
    forall step: nat | step >= 2 ensures Gap(p, step) >= 0 {
      assert Threshold(p, step - 1) <= Threshold(p, step - 1 + 1);
      GapIsDifference(p, step - 1);
    }
  }

  /** Once polling has begun, a positive step that may be taken makes all positive steps before it ones that may. */
  lemma {:induction false} EligibleBelow(p: Policy, elapsed: int, i: nat, j: nat)
    requires |p.layers| > 0 && CatchesUp(p) && elapsed > MINUTE
    requires 1 <= i <= j && Eligible(p, elapsed, j)
    ensures Eligible(p, elapsed, i)
    decreases j
  {
    if i < j {
      EligibleBefore(p, elapsed, j);
      EligibleBelow(p, elapsed, i, j - 1);
    }
  }

  lemma EligibleBefore(p: Policy, elapsed: int, step: nat)
    requires |p.layers| > 0 && CatchesUp(p) && elapsed > MINUTE && step >= 2 && Eligible(p, elapsed, step)
    ensures Eligible(p, elapsed, step - 1)
  {
    StepsInTurn(p, step);
    LimitExactly(p, step);
    LimitExactly(p, step - 1);
    GapIsDifference(p, step - 1);
    var before, at := Threshold(p, step - 1), Threshold(p, step);
    assert before <= at || before <= 1;
    assert elapsed >= before * MINUTE;
  }

  function Max(x: int, y: int): int {
    if x < y then y else x
  }

  function Least(delays: seq<int>): (m: int)
    requires |delays| > 0
    ensures forall k | 0 <= k < |delays| :: m <= delays[k]
  {
    if |delays| == 1 then delays[0]
    else
      var m := Least(delays[1..]);
      assert forall k | 0 < k < |delays| :: delays[k] == delays[1..][k - 1];
      if delays[0] < m then delays[0] else m
  }

  /** No step from here on is eligible. */
  function Bound(p: Policy, elapsed: int): nat
    requires |p.layers| > 0
  {
    |p.layers| * (Max(0, Max(p.maxRepeats, elapsed / MINUTE - Least(p.layers))) + 1)
  }

  lemma CyclesBounded(p: Policy, elapsed: int, step: nat)
    requires |p.layers| > 0 && Settles(p) && Eligible(p, elapsed, step)
    ensures step / |p.layers| <= Max(0, Max(p.maxRepeats, elapsed / MINUTE - Least(p.layers)))
  {
    var n := |p.layers|;
    var q := step / n;
    if Unlimited(p) {
      var c := p.layers[n - 1] + p.repeatInterval;
      MulAtLeast(c, q);
      assert Threshold(p, step) >= q + Least(p.layers);
      assert elapsed >= (q + Least(p.layers)) * MINUTE;
    }
  }

  lemma BoundedSteps(p: Policy, elapsed: int, step: nat)
    requires |p.layers| > 0 && Settles(p) && Eligible(p, elapsed, step)
    ensures step < Bound(p, elapsed)
  {
    hide Eligible, Settles;
    var n := |p.layers|;
    var m := Max(0, Max(p.maxRepeats, elapsed / MINUTE - Least(p.layers)));
    CyclesBounded(p, elapsed, step);
    MulMonotone(n, step / n + 1, m + 1);
    assert n * (step / n + 1) == n * (step / n) + n;
  }

  /** Without Settles an ordered policy never settles: once step 1 is due, every later step is. */
  lemma NeverSettles(p: Policy, elapsed: int, step: nat)
    requires |p.layers| > 0 && Ordered(p) && !Settles(p)
    requires elapsed >= p.layers[0] * MINUTE
    ensures Eligible(p, elapsed, step) && Poll(p, elapsed, step) == step + 1
  {
    FlatThreshold(p, step);
    FlatThreshold(p, step + 1);
  }

  lemma FlatThreshold(p: Policy, step: nat)
    requires |p.layers| > 0 && Ordered(p) && !Settles(p)
    ensures Threshold(p, step) == p.layers[0]
  {
    var n := |p.layers|;
    LayersFromFirst(p, n - 1);
    LayersFromFirst(p, step % n);
    LayersToLast(p, step % n);
    assert p.layers[n - 1] + p.repeatInterval == 0;
  }

  lemma {:induction false} LayersToLast(p: Policy, k: nat)
    requires |p.layers| > 0 && Ordered(p) && k < |p.layers|
    ensures p.layers[k] <= p.layers[|p.layers| - 1]
    decreases |p.layers| - k
  {
    if k + 1 < |p.layers| {
      LayersToLast(p, k + 1);
    }
  }

  lemma {:induction false} LayersFromFirst(p: Policy, k: nat)
    requires |p.layers| > 0 && Ordered(p) && k < |p.layers|
    ensures p.layers[0] <= p.layers[k]
  {
    if k > 0 {
      LayersFromFirst(p, k - 1);
    }
  }

  /**
   * Catch-up converges: from a step already taken, polling at a fixed clock reaches the largest
   * eligible step, one step a poll, and then stays there.  Polling begins a minute after the firing.
   */
  lemma CatchUp(p: Policy, elapsed: int, step: nat) returns (target: nat, polls: nat)
    requires |p.layers| > 0
    requires CatchesUp(p) && elapsed > MINUTE
    requires step == 0 || Eligible(p, elapsed, step)
    ensures LargestEligible(p, elapsed, target)
    ensures forall m: nat :: m >= polls ==> Polls(p, elapsed, step, m) == target
    ensures polls == target - step
  {
    target, polls := step, 0;
    while Eligible(p, elapsed, target + 1)
      invariant polls == target - step >= 0
      invariant target == 0 || Eligible(p, elapsed, target)
      invariant Polls(p, elapsed, step, polls) == target
      decreases Bound(p, elapsed) - target
    {
      BoundedSteps(p, elapsed, target + 1);
      target, polls := target + 1, polls + 1;
    }
    forall later: nat | later > target ensures !Eligible(p, elapsed, later) {
      if Eligible(p, elapsed, later) {
        EligibleBelow(p, elapsed, target + 1, later);
      }
    }
    forall m: nat | m >= polls ensures Polls(p, elapsed, step, m) == target {
      StaysPut(p, elapsed, step, polls, m);
    }
  }

  lemma {:induction false} StaysPut(p: Policy, elapsed: int, step: nat, n: nat, m: nat)
    requires n <= m && Poll(p, elapsed, Polls(p, elapsed, step, n)) == Polls(p, elapsed, step, n)
    ensures Polls(p, elapsed, step, m) == Polls(p, elapsed, step, n)
    decreases m
  {
    if n < m {
      StaysPut(p, elapsed, step, n, m - 1);
    }
  }

  /** From step 0, polling at one clock reading gets to the largest eligible step. */
  ghost predicate Converges(p: Policy, elapsed: int)
    requires |p.layers| > 0
  {
    exists n: nat :: LargestEligible(p, elapsed, Polls(p, elapsed, 0, n))
  }

  lemma {:induction false} StuckBelow(p: Policy, elapsed: int, i: nat, n: nat)
    requires |p.layers| > 0 && i >= 1 && !Eligible(p, elapsed, i)
    ensures Polls(p, elapsed, 0, n) < i
  {
    if n > 0 {
      StuckBelow(p, elapsed, i, n - 1);
    }
  }

  /** Catch-up works at every clock reading at which an incident is polled for exactly these policies. */
  lemma CatchUpExactly(p: Policy)
    requires |p.layers| > 0
    ensures (forall elapsed: int | elapsed > MINUTE :: Converges(p, elapsed)) <==> CatchesUp(p)
  {
    if CatchesUp(p) {
      forall elapsed: int | elapsed > MINUTE ensures Converges(p, elapsed) {
        var target, polls := CatchUp(p, elapsed, 0);
        assert LargestEligible(p, elapsed, Polls(p, elapsed, 0, polls));
      }
    } else if Settles(p) {
      FallingSticks(p);
    } else {
      NoLargest(p);
    }
  }

  /** When step is due while its predecessor is not, polling does not get past the predecessor. */
  lemma SticksBelow(p: Policy, step: nat)
    requires |p.layers| > 0 && step >= 2 && WithinLimit(p, step) && !InTurn(p, step)
    ensures exists elapsed: int :: elapsed > MINUTE && !Converges(p, elapsed)
  {
    GapIsDifference(p, step - 1);
    var before, at := Threshold(p, step - 1), Threshold(p, step);
    assert before > at && before >= 2;
    var elapsed := Max(at * MINUTE, MINUTE + 1);
    assert at * MINUTE <= elapsed < before * MINUTE;
    assert Eligible(p, elapsed, step) && !Eligible(p, elapsed, step - 1);
    forall n: nat ensures !LargestEligible(p, elapsed, Polls(p, elapsed, 0, n)) {
      StuckBelow(p, elapsed, step - 1, n);
    }
    assert !Converges(p, elapsed);
  }

  lemma FallingSticks(p: Policy)
    requires |p.layers| > 0 && Settles(p) && !CatchesUp(p)
    ensures exists elapsed: int :: elapsed > MINUTE && !Converges(p, elapsed)
  {
    if !Unlimited(p) {
      var step :| 2 <= step <= LastStep(p) && !InTurn(p, step);
      LimitExactly(p, step);
      SticksBelow(p, step);
    } else {
      // The falling gap recurs in every cycle, and cycles cost time: take a late one.
      var n := |p.layers|;
      var step :| 2 <= step <= n + 1 && Gap(p, step) < 0;
      var k := Max(0, 2 - Threshold(p, step - 1));
      CycleLater(p, step - 1, k);
      CycleLater(p, step, k);
      MulAtLeast(p.layers[n - 1] + p.repeatInterval, k);
      SticksBelow(p, step + n * k);
    }
  }

  /** Layers after 0, 10 and 5 minutes, never repeated: after 7 minutes step 2 is due, but step 1 is in its way. */
  lemma StuckPolicy()
    ensures var p := Policy([0, 10, 5], 0, 0);
      Eligible(p, 7 * MINUTE, 2) && forall n: nat :: Polls(p, 7 * MINUTE, 0, n) == 0
  {
    var p := Policy([0, 10, 5], 0, 0);
    assert Threshold(p, 1) == 10 && Threshold(p, 2) == 5;
    forall n: nat ensures Polls(p, 7 * MINUTE, 0, n) == 0 {
      StuckBelow(p, 7 * MINUTE, 1, n);
    }
  }

  /** k cycles later the same layer is due k cycles' time later. */
  lemma CycleLater(p: Policy, step: nat, k: nat)
    requires |p.layers| > 0
    ensures var later := step + |p.layers| * k;
      && later >= step
      && Threshold(p, later) == Threshold(p, step) + (p.layers[|p.layers| - 1] + p.repeatInterval) * k
      && (step > 0 ==> Gap(p, later) == Gap(p, step))
  {
    var n, q := |p.layers|, step / |p.layers|;
    var c := p.layers[n - 1] + p.repeatInterval;
    MulMonotone(n, 0, k);
    Quotient(n, step + n * k, q + k, step % n) by {
      assert n * (q + k) == n * q + n * k;
    }
    assert c * (q + k) == c * q + c * k;
  }

  /** When cycles cost no time, the first layer of every cycle is due at once with the first. */
  lemma NoLargest(p: Policy)
    requires |p.layers| > 0 && !Settles(p)
    ensures exists elapsed: int :: elapsed > MINUTE && !Converges(p, elapsed)
  {
    var elapsed, n := Max(p.layers[0] * MINUTE, MINUTE + 1), |p.layers|;
    forall m: nat ensures !LargestEligible(p, elapsed, Polls(p, elapsed, 0, m)) {
      var q := Polls(p, elapsed, 0, m) + 1;
      Quotient(n, n * q, q, 0);
      MulAtLeast(n, q);
      FreeCycles(p.layers[n - 1] + p.repeatInterval, q);
      assert Threshold(p, n * q) <= p.layers[0];
      assert Eligible(p, elapsed, n * q);
    }
    assert !Converges(p, elapsed);
  }

  lemma FreeCycles(c: int, q: nat)
    requires c <= 0
    ensures c * q <= 0
  {
  }
}
