/** Metrics of a TEE pair: counters, rates that are refreshed only by outcomes of their own kind, and the status derived
    from them. Rates are reals, durations integers. */
module PairMetrics {

  datatype Status = Active | Degraded | Failed

  datatype Metrics = Metrics(
    tasksProcessed: nat,
    failedTasks: nat,
    consecutiveErrors: nat,
    successRate: real,
    errorRate: real,
    averageTaskTime: int,
    status: Status)

  datatype Outcome = Outcome(success: bool, duration: int)

  const RESET := Metrics(0, 0, 0, 1.0, 0.0, 0, Active)

  /** Go's integer division by two, which truncates toward zero. */
  function Half(x: int): int {
    if x >= 0 then x / 2 else -((-x) / 2)
  }

  function Share(part: nat, whole: nat): real
    requires whole > 0
  {
    part as real / whole as real
  }

  function StatusOf(consecutiveErrors: nat, errorRate: real, successRate: real): Status {
    if consecutiveErrors >= 3 then Failed
    else if errorRate > 0.1 || successRate < 0.9 then Degraded
    else Active
  }

  function Update(m: Metrics, o: Outcome): Metrics
    requires m.failedTasks <= m.tasksProcessed
  {
    var n := m.tasksProcessed + 1;
    var failed := if o.success then m.failedTasks else m.failedTasks + 1;
    var errors := if o.success then 0 else m.consecutiveErrors + 1;
    var successRate := if o.success then Share(n - failed, n) else m.successRate;
    var errorRate := if o.success then m.errorRate else Share(failed, n);
    var time := if m.averageTaskTime == 0 then o.duration else Half(m.averageTaskTime + o.duration);
    Metrics(n, failed, errors, successRate, errorRate, time, StatusOf(errors, errorRate, successRate))
  }

  class TEEPairMetrics {
    var tasksProcessed: nat
    var failedTasks: nat
    var consecutiveErrors: nat
    var successRate: real
    var errorRate: real
    var averageTaskTime: int
    var status: Status

    function Model(): Metrics
      reads this
    {
      Metrics(tasksProcessed, failedTasks, consecutiveErrors, successRate, errorRate, averageTaskTime, status)
    }

    method UpdateMetrics(success: bool, duration: int)
      requires failedTasks <= tasksProcessed
      modifies this
      ensures Model() == Update(old(Model()), Outcome(success, duration)) && failedTasks <= tasksProcessed
    {
      tasksProcessed := tasksProcessed + 1;
      if success {
        consecutiveErrors := 0;
        successRate := (tasksProcessed - failedTasks) as real / tasksProcessed as real;
      } else {
        failedTasks := failedTasks + 1;
        consecutiveErrors := consecutiveErrors + 1;
        errorRate := failedTasks as real / tasksProcessed as real;
      }
      if averageTaskTime == 0 {
        averageTaskTime := duration;
      } else {
        averageTaskTime := Half(averageTaskTime + duration);
      }
      UpdateStatus();
    }

    method UpdateStatus()
      modifies `status
      ensures status == StatusOf(consecutiveErrors, errorRate, successRate)
    {
      if consecutiveErrors >= 3 {
        status := Failed;
      } else if errorRate > 0.1 || successRate < 0.9 {
        status := Degraded;
      } else {
        status := Active;
      }
    }

    method ResetMetrics()
      modifies this
      ensures Model() == RESET
    {
      tasksProcessed, failedTasks, consecutiveErrors := 0, 0, 0;
      successRate, errorRate, averageTaskTime := 1.0, 0.0, 0;
      status := Active;
    }
  }

  // ---- runs from a reset ----

  function Failures(os: seq<Outcome>): (f: nat)
    ensures f <= |os|
  {
    if os == [] then 0 else Failures(os[..|os|-1]) + (if os[|os|-1].success then 0 else 1)
  }

  /** The metrics after a reset and the outcomes; they count tasks and failures correctly. */
  function Run(os: seq<Outcome>): (m: Metrics)
    ensures m.tasksProcessed == |os| && m.failedTasks == Failures(os)
  {
    if os == [] then RESET else Update(Run(os[..|os|-1]), os[|os|-1])
  }

  /** The number of outcomes up to and including the last one of the given kind; 0 when there is none. */
  function LastOf(os: seq<Outcome>, success: bool): (k: nat)
    ensures k <= |os|
    ensures k == |os| <==> os == [] || os[|os|-1].success == success
  {
    if os == [] then 0 else if os[|os|-1].success == success then |os| else LastOf(os[..|os|-1], success)
  }

  function Successes(os: seq<Outcome>): nat {
    |os| - Failures(os)
  }

  /** What the stored rates are: the share at the time of the last outcome of their own kind. */
  lemma {:induction false} StoredRates(os: seq<Outcome>)
    ensures Failures(os) > 0 <==> LastOf(os, false) > 0
    ensures Successes(os) > 0 <==> LastOf(os, true) > 0
    ensures Run(os).errorRate == if Failures(os) == 0 then 0.0 else Share(Failures(os), LastOf(os, false))
    ensures Run(os).successRate == if Successes(os) == 0 then 1.0 else Share(Successes(os), LastOf(os, true))
  {
    if os != [] {
      StoredRates(os[..|os|-1]);
    }
  }

  lemma ProductIsPositive(x: real, y: real)
    requires x > 0.0 && y > 0.0
    ensures x * y > 0.0
  {
  }

  /** A smaller factor gives a smaller product. */
  lemma ProductIsMonotone(x: real, y: real, a: real)
    requires x < y && a > 0.0
    ensures x * a < y * a
  {
    ProductIsPositive(y - x, a);
    assert (y - x) * a == y * a - x * a;
  }

  lemma ShareTimesWhole(part: nat, whole: nat)
    requires whole > 0
    ensures Share(part, whole) * whole as real == part as real && Share(part, whole) >= 0.0
    ensures part > 0 ==> Share(part, whole) > 0.0
  {
  }

  /** Two quotients of one number, by their products alone. */
  lemma QuotientIsAntitone(x: real, y: real, a: real, b: real)
    requires x * a == y * b && 0.0 < a < b && y > 0.0
    ensures x > y
  {
    ProductIsMonotone(a, b, y);
    if x < y { ProductIsMonotone(x, y, a); }
  }

  /** A share of fewer tasks is larger. */
  lemma ShareIsAntitone(part: nat, k: nat, n: nat)
    requires 0 < k <= n
    ensures Share(part, k) >= Share(part, n)
    ensures part > 0 && k < n ==> Share(part, k) > Share(part, n)
  {
    if part > 0 && k < n {
      ShareTimesWhole(part, k);
      ShareTimesWhole(part, n);
      QuotientIsAntitone(Share(part, k), Share(part, n), k as real, n as real);
    } else if part == 0 {
      NoShare(k);
      NoShare(n);
    }
  }

  lemma SharesAddUp(part: nat, rest: nat)
    requires part + rest > 0
    ensures Share(part, part + rest) + Share(rest, part + rest) == 1.0
  {
    var n := (part + rest) as real;
    assert part as real / n + rest as real / n == n / n;
  }

  /** A quotient compared with a tenth, by its product alone. */
  lemma TenthOf(x: real, w: real, p: real)
    requires w > 0.0 && x * w == p
    ensures x <= 0.1 <==> 10.0 * p <= w
  {
    if x < 0.1 {
      ProductIsMonotone(x, 0.1, w);
    } else if x > 0.1 {
      ProductIsMonotone(0.1, x, w);
    }
  }

  lemma TenfoldAsReal(part: nat, whole: nat)
    ensures 10.0 * part as real <= whole as real <==> 10 * part <= whole
  {
    assert (10 * part) as real == 10.0 * part as real;
  }

  lemma ShareAtMostTenth(part: nat, whole: nat)
    requires whole > 0
    ensures Share(part, whole) <= 0.1 <==> 10 * part <= whole
  {
    ShareTimesWhole(part, whole);
    TenthOf(Share(part, whole), whole as real, part as real);
    TenfoldAsReal(part, whole);
  }

  lemma NoShare(whole: nat)
    requires whole > 0
    ensures Share(0, whole) == 0.0
  {
  }

  /** Over any outcomes the stored rates are at least the true shares. */
  lemma StoredRatesAreUpperBounds(os: seq<Outcome>)
    requires os != []
    ensures Run(os).errorRate >= Share(Failures(os), |os|)
    ensures Run(os).successRate >= Share(Successes(os), |os|)
  {
    StoredRates(os);
    NoShare(|os|);
    if Failures(os) > 0 { ShareIsAntitone(Failures(os), LastOf(os, false), |os|); }
    if Successes(os) > 0 { ShareIsAntitone(Successes(os), LastOf(os, true), |os|); }
  }

  /** The two stored rates never add up to less than one. */
  lemma StoredRatesCoverAll(os: seq<Outcome>)
    ensures Run(os).errorRate + Run(os).successRate >= 1.0
  {
    if os != [] {
      var e, s := Share(Failures(os), |os|), Share(Successes(os), |os|);
      StoredRatesAreUpperBounds(os);
      SharesAddUp(Failures(os), Successes(os));
      assert e + s == 1.0;
    }
  }

  /** The error rate is the true one exactly after a failure or while nothing has failed; the success rate exactly after
      a success. */
  lemma StoredRatesAreTrueExactly(os: seq<Outcome>)
    requires os != []
    ensures Run(os).errorRate == Share(Failures(os), |os|) <==> !os[|os|-1].success || Failures(os) == 0
    ensures Run(os).successRate == Share(Successes(os), |os|) <==> os[|os|-1].success
  {
    StoredRates(os);
    NoShare(|os|);
    if Failures(os) > 0 { ShareIsAntitone(Failures(os), LastOf(os, false), |os|); }
    if Successes(os) > 0 { ShareIsAntitone(Successes(os), LastOf(os, true), |os|); }
  }

  /** An active pair has failed at most one task in ten. */
  lemma ActiveMeansFewFailures(os: seq<Outcome>)
    requires Run(os).status == Active
    ensures 10 * Failures(os) <= |os|
  {
    StoredRates(os);
    if Failures(os) > 0 {
      ActiveRates(os);
      ShareAtMostTenth(Failures(os), LastOf(os, false));
    }
  }

  lemma ActiveRates(os: seq<Outcome>)
    requires Run(os).status == Active
    ensures Run(os).errorRate <= 0.1 && Run(os).successRate >= 0.9
  {
  }

  ghost predicate LastThreeFailed(os: seq<Outcome>) {
    var n := |os|;
    n >= 3 && !os[n-1].success && !os[n-2].success && !os[n-3].success
  }

  lemma {:induction false} ConsecutiveErrorsCount(os: seq<Outcome>)
    ensures Run(os).consecutiveErrors >= 1 <==> |os| >= 1 && !os[|os|-1].success
    ensures Run(os).consecutiveErrors >= 2 <==> |os| >= 2 && !os[|os|-1].success && !os[|os|-2].success
    ensures Run(os).consecutiveErrors >= 3 <==> LastThreeFailed(os)
  {
    if os != [] {
      ConsecutiveErrorsCount(os[..|os|-1]);
    }
  }

  /** A pair is failed exactly when its last three tasks failed. */
  lemma FailedExactly(os: seq<Outcome>)
    ensures Run(os).status == Failed <==> LastThreeFailed(os)
  {
    ConsecutiveErrorsCount(os);
  }

  /** The stored error rate is over the limit exactly when more than a tenth of the tasks up to the last failure
      failed. */
  lemma ErrorRateExactly(os: seq<Outcome>)
    ensures Run(os).errorRate <= 0.1 <==> 10 * Failures(os) <= LastOf(os, false)
  {
    StoredRates(os);
    if Failures(os) > 0 {
      ShareAtMostTenth(Failures(os), LastOf(os, false));
    }
  }

  lemma StatusIsDerived(os: seq<Outcome>)
    ensures var m := Run(os); m.status == StatusOf(m.consecutiveErrors, m.errorRate, m.successRate)
  {
  }

  /** The success rate never decides the status: a pair is degraded exactly when its last three tasks did not all fail
      and more than a tenth of its tasks up to the last failure did. */
  lemma DegradedExactly(os: seq<Outcome>)
    ensures Run(os).status == Degraded <==> Run(os).consecutiveErrors < 3 && Run(os).errorRate > 0.1
    ensures Run(os).status == Degraded <==> !LastThreeFailed(os) && 10 * Failures(os) > LastOf(os, false)
  {
    StatusIsDerived(os);
    StoredRatesCoverAll(os);
    ErrorRateExactly(os);
    ConsecutiveErrorsCount(os);
  }

  ghost predicate AllSucceed(os: seq<Outcome>) {
    forall i :: 0 <= i < |os| ==> os[i].success
  }

  lemma {:induction false} SuccessesKeepErrorRate(os: seq<Outcome>, more: seq<Outcome>)
    requires AllSucceed(more)
    ensures Run(os + more).errorRate == Run(os).errorRate
    ensures more != [] ==> Run(os + more).consecutiveErrors == 0
    decreases |more|
  {
    if more == [] {
      assert os + more == os;
    } else {
      var n := |more| - 1;
      assert (os + more)[..|os + more| - 1] == os + more[..n];
      SuccessesKeepErrorRate(os, more[..n]);
    }
  }

  /** Whether successes bring a pair back is decided before they come: any number of them leaves it active exactly when
      at most a tenth of the tasks up to the last failure failed, and degraded otherwise, however small the true share
      of failures becomes. */
  lemma SuccessesRecoverExactly(os: seq<Outcome>, more: seq<Outcome>)
    requires AllSucceed(more) && more != []
    ensures Run(os + more).status == Active <==> Run(os).errorRate <= 0.1
    ensures Run(os + more).status == Active <==> 10 * Failures(os) <= LastOf(os, false)
    ensures Run(os + more).status != Active ==> Run(os + more).status == Degraded
  {
    SuccessesKeepErrorRate(os, more);
    StatusIsDerived(os + more);
    StoredRatesCoverAll(os + more);
    ErrorRateExactly(os);
  }

  /** A degraded pair stays degraded through any number of successes. */
  lemma SuccessesNeverRecover(os: seq<Outcome>, more: seq<Outcome>)
    requires Run(os).status == Degraded && AllSucceed(more)
    ensures Run(os + more).status == Degraded
  {
    DegradedExactly(os);
    if more == [] {
      assert os + more == os;
    } else {
      SuccessesRecoverExactly(os, more);
    }
  }

  /** The running average lies between any bounds on the durations seen. */
  lemma {:induction false} AverageIsBounded(os: seq<Outcome>, lo: int, hi: int)
    requires os != [] && forall i :: 0 <= i < |os| ==> lo <= os[i].duration <= hi
    ensures lo <= Run(os).averageTaskTime <= hi
  {
    if |os| > 1 {
      AverageIsBounded(os[..|os|-1], lo, hi);
    }
  }

  /** x times 2 to the power n. */
  function Scaled(x: int, n: nat): int {
    if n == 0 then x else 2 * Scaled(x, n - 1)
  }

  lemma {:induction false} ScaledAdds(x: int, y: int, n: nat)
    ensures Scaled(x + y, n) == Scaled(x, n) + Scaled(y, n)
  {
    if n > 0 { ScaledAdds(x, y, n - 1); }
  }

  lemma {:induction false} ScaledIsPositive(n: nat)
    ensures Scaled(1, n) > 0 && Scaled(0, n) == 0 && Scaled(-1, n) == -Scaled(1, n)
  {
    if n > 0 { ScaledIsPositive(n - 1); }
  }

  /** The durations with the weights 1, 1, 2, 4, 8 and so on. */
  function Weighted(os: seq<Outcome>): int
    requires os != []
  {
    var n := |os| - 1;
    if n == 0 then os[0].duration else Weighted(os[..n]) + Scaled(os[n].duration, n - 1)
  }

  /** Halving loses less than one, toward zero. */
  lemma HalfLosesLittle(s: int)
    ensures -1 <= 2 * Half(s) - s <= 1
    ensures s >= 0 ==> 2 * Half(s) <= s
  {
  }

  /** The number a is within one of w / 2^n. */
  ghost predicate WithinOne(a: int, w: int, n: nat) {
    -Scaled(1, n) < Scaled(a, n) - w < Scaled(1, n)
  }

  /** The number a is at most w / 2^n. */
  ghost predicate NotAbove(a: int, w: int, n: nat) {
    Scaled(a, n) <= w
  }

  lemma ScaledHalf(a: int, d: int, h: int, e: int, n: nat)
    requires 2 * h == a + d + e
    ensures Scaled(h, n + 1) == Scaled(a, n) + Scaled(d, n) + Scaled(e, n)
  {
    assert Scaled(h, n + 1) == Scaled(h, n) + Scaled(h, n);
    ScaledAdds(h, h, n);
    ScaledAdds(a + d, e, n);
    ScaledAdds(a, d, n);
  }

  lemma NextWithinOne(a: int, w: int, n: nat, d: int, h: int)
    requires -1 <= 2 * h - (a + d) <= 1 && WithinOne(a, w, n)
    ensures WithinOne(h, w + Scaled(d, n), n + 1)
  {
    var e := 2 * h - (a + d);
    ScaledHalf(a, d, h, e, n);
    ScaledIsPositive(n);
    assert Scaled(1, n + 1) == Scaled(1, n) + Scaled(1, n);
  }

  lemma NextNotAbove(a: int, w: int, n: nat, d: int, h: int)
    requires -1 <= 2 * h - (a + d) <= 0 && NotAbove(a, w, n)
    ensures NotAbove(h, w + Scaled(d, n), n + 1)
  {
    ScaledHalf(a, d, h, 2 * h - (a + d), n);
    ScaledIsPositive(n);
  }

  /** The average alone, by the outcomes. */
  function Average(os: seq<Outcome>): int {
    if os == [] then 0
    else
      var a, d := Average(os[..|os|-1]), os[|os|-1].duration;
      if a == 0 then d else Half(a + d)
  }

  lemma {:induction false} StoredAverage(os: seq<Outcome>)
    ensures Run(os).averageTaskTime == Average(os)
  {
    if os != [] {
      StoredAverage(os[..|os|-1]);
    }
  }

  ghost predicate NoneBelow(os: seq<Outcome>, lo: int) {
    forall i :: 0 <= i < |os| ==> os[i].duration >= lo
  }

  lemma {:induction false} AverageIsAtLeast(os: seq<Outcome>, lo: int)
    requires NoneBelow(os, lo) && 0 <= lo <= 1
    ensures Average(os) >= if os == [] then 0 else lo
  {
    if os != [] {
      AverageIsAtLeast(os[..|os|-1], lo);
      HalfLosesLittle(Average(os[..|os|-1]) + os[|os|-1].duration);
    }
  }

  /** No stored average strictly between the first k and all of the outcomes is zero. */
  ghost predicate NeverZeroAfter(os: seq<Outcome>, k: nat) {
    forall j :: k < j < |os| ==> Average(os[..j]) != 0
  }

  lemma NeverZeroBefore(os: seq<Outcome>, k: nat)
    requires os != [] && NeverZeroAfter(os, k)
    ensures NeverZeroAfter(os[..|os|-1], k)
  {
    var before := os[..|os|-1];
    forall j | k < j < |before| ensures Average(before[..j]) != 0 {
      assert before[..j] == os[..j];
    }
  }

  lemma WeightedLast(t: seq<Outcome>, front: seq<Outcome>, last: Outcome)
    requires t == front + [last] && front != []
    ensures Weighted(t) == Weighted(front) + Scaled(last.duration, |front| - 1)
  {
    assert t[..|t|-1] == front;
  }

  lemma WeightedNext(os: seq<Outcome>, k: nat)
    requires k < |os| - 1
    ensures Weighted(os[k..]) == Weighted(os[..|os|-1][k..]) + Scaled(os[|os|-1].duration, |os| - k - 2)
  {
    WeightedLast(os[k..], os[..|os|-1][k..], os[|os|-1]);
  }

  lemma AverageHalves(os: seq<Outcome>)
    requires os != [] && Average(os[..|os|-1]) != 0
    ensures var a, d := Average(os[..|os|-1]), os[|os|-1].duration;
            && -1 <= 2 * Average(os) - (a + d) <= 1
            && (a + d >= 0 ==> 2 * Average(os) <= a + d)
  {
    HalfLosesLittle(Average(os[..|os|-1]) + os[|os|-1].duration);
  }

  lemma {:induction false} AverageSinceZero(os: seq<Outcome>, k: nat)
    requires k < |os| && Average(os[..k]) == 0 && NeverZeroAfter(os, k)
    ensures WithinOne(Average(os), Weighted(os[k..]), |os| - k - 1)
    decreases |os|
  {
    var n := |os| - 1;
    var before := os[..n];
    if k == n {
      assert os[k..] == [os[n]];
    } else {
      NeverZeroBefore(os, k);
      assert before[..k] == os[..k];
      AverageSinceZero(before, k);
      WeightedNext(os, k);
      AverageHalves(os);
      NextWithinOne(Average(before), Weighted(before[k..]), n - k - 1, os[n].duration, Average(os));
    }
  }

  lemma {:induction false} AverageNotAbove(os: seq<Outcome>, k: nat)
    requires k < |os| && Average(os[..k]) == 0 && NeverZeroAfter(os, k) && NoneBelow(os, 0)
    ensures NotAbove(Average(os), Weighted(os[k..]), |os| - k - 1)
    decreases |os|
  {
    var n := |os| - 1;
    var before := os[..n];
    if k == n {
      assert os[k..] == [os[n]];
    } else {
      NeverZeroBefore(os, k);
      assert before[..k] == os[..k] && NoneBelow(before, 0);
      AverageNotAbove(before, k);
      AverageIsAtLeast(before, 0);
      WeightedNext(os, k);
      AverageHalves(os);
      NextNotAbove(Average(before), Weighted(before[k..]), n - k - 1, os[n].duration, Average(os));
    }
  }

  /** What the running average is. A stored zero counts as no average, so the next duration is taken as it is; from
      there on, with k outcomes before it, the average is within one of the durations' mean with the weights 1, 1, 2, 4
      and so on, the latest weighing half, and is never above it while no duration is negative. */
  lemma AverageIsWeighted(os: seq<Outcome>, k: nat)
    requires k < |os| && Run(os[..k]).averageTaskTime == 0
    requires forall j :: k < j < |os| ==> Run(os[..j]).averageTaskTime != 0
    ensures WithinOne(Run(os).averageTaskTime, Weighted(os[k..]), |os| - k - 1)
    ensures NoneBelow(os, 0) ==> NotAbove(Run(os).averageTaskTime, Weighted(os[k..]), |os| - k - 1)
  {
    StoredAverage(os);
    StoredAverage(os[..k]);
    forall j | k < j < |os| ensures Average(os[..j]) != 0 {
      StoredAverage(os[..j]);
    }
    AverageSinceZero(os, k);
    if NoneBelow(os, 0) { AverageNotAbove(os, k); }
  }

  lemma FloorOf(a: int, w: int, n: nat)
    requires WithinOne(a, w, n)
    ensures !NotAbove(a + 1, w, n)
  {
    ScaledAdds(a, 1, n);
  }

  lemma PositiveIsNeverZero(os: seq<Outcome>)
    requires NoneBelow(os, 1)
    ensures NeverZeroAfter(os, 0)
  {
    forall j | 0 < j < |os| ensures Average(os[..j]) != 0 {
      AverageIsAtLeast(os[..j], 1);
    }
  }

  lemma PositiveMean(os: seq<Outcome>)
    requires os != [] && NoneBelow(os, 1)
    ensures NotAbove(Average(os), Weighted(os), |os| - 1) && !NotAbove(Average(os) + 1, Weighted(os), |os| - 1)
  {
    PositiveIsNeverZero(os);
    assert os[0..] == os && os[..0] == [];
    AverageNotAbove(os, 0);
    AverageSinceZero(os, 0);
    FloorOf(Average(os), Weighted(os), |os| - 1);
  }

  /** For durations of at least one the average is the weighted mean of all of them, rounded down. */
  lemma PositiveAverage(os: seq<Outcome>)
    requires os != [] && NoneBelow(os, 1)
    ensures NotAbove(Run(os).averageTaskTime, Weighted(os), |os| - 1)
    ensures !NotAbove(Run(os).averageTaskTime + 1, Weighted(os), |os| - 1)
  {
    StoredAverage(os);
    PositiveMean(os);
  }
}
