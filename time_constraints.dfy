/**
 * Activity-level time constraints and their violations
 * (src/models/time_constraints.rs).
 */
module TimeConstraints {
  import opened Common

  /** Hard constraints must hold; soft ones (the default) cost a penalty. */
  datatype ConstraintType = Hard | Soft

  /** Severity of a violation, ordered as declared. */
  datatype ViolationSeverity = Info | Minor | Major | Critical
  {
    /** The position in declaration order, which the derived `Ord` compares. */
    function Rank(): nat
    {
      match this
      case Info => 0
      case Minor => 1
      case Major => 2
      case Critical => 3
    }
  }

  /** `Ord` on severities, derived from the declaration order. */
  function CompareSeverity(a: ViolationSeverity, b: ViolationSeverity): Ordering
  {
    CompareInt(a.Rank(), b.Rank())
  }

  /** Info < Minor < Major < Critical, and equal ranks mean equal severities. */
  lemma SeverityOrder()
    ensures CompareSeverity(Info, Minor) == Less
    ensures CompareSeverity(Minor, Major) == Less
    ensures CompareSeverity(Major, Critical) == Less
    ensures forall a: ViolationSeverity, b: ViolationSeverity :: CompareSeverity(a, b) == Equal <==> a == b
  {
  }

  /** Earliest/latest start and end bounds on one activity. */
  datatype ActivityTimeConstraint = ActivityTimeConstraint(
    earliestStartMs: Option<int>,
    latestStartMs: Option<int>,
    earliestEndMs: Option<int>,
    latestEndMs: Option<int>,
    constraintType: ConstraintType,
    penaltyPerMs: real)
  {
    function AsHard(): (c: ActivityTimeConstraint)
      ensures c.constraintType == Hard && c.penaltyPerMs == 0.0
      ensures c.(constraintType := constraintType, penaltyPerMs := penaltyPerMs) == this
    {
      this.(constraintType := Hard, penaltyPerMs := 0.0)
    }

    function AsSoft(penaltyPerMs: real): (c: ActivityTimeConstraint)
      ensures c.constraintType == Soft && c.penaltyPerMs == penaltyPerMs
      ensures c.(constraintType := constraintType, penaltyPerMs := this.penaltyPerMs) == this
    {
      this.(constraintType := Soft, penaltyPerMs := penaltyPerMs)
    }

    function WithEarliestStart(ms: int): (c: ActivityTimeConstraint)
      ensures c.earliestStartMs == Some(ms) && c.(earliestStartMs := earliestStartMs) == this
    {
      this.(earliestStartMs := Some(ms))
    }

    function WithLatestStart(ms: int): (c: ActivityTimeConstraint)
      ensures c.latestStartMs == Some(ms) && c.(latestStartMs := latestStartMs) == this
    {
      this.(latestStartMs := Some(ms))
    }

    function WithDueDate(ms: int): (c: ActivityTimeConstraint)
      ensures c.latestEndMs == Some(ms) && c.(latestEndMs := latestEndMs) == this
    {
      this.(latestEndMs := Some(ms))
    }

    /**
     * Compares an interval [startMs, endMs) with the bounds, accumulating how
     * far it is too early and too late (`check_violation`).
     */
    method CheckViolation(startMs: int, endMs: int) returns (r: Option<TimeWindowViolation>)
      ensures r.None? <==> EarlyMs(this, startMs, endMs) == 0 && LateMs(this, startMs, endMs) == 0
      ensures r.Some? ==> r.value.earlyMs == EarlyMs(this, startMs, endMs)
      ensures r.Some? ==> r.value.lateMs == LateMs(this, startMs, endMs)
      ensures r.Some? ==> r.value.severity == (if constraintType == Hard then Critical else Minor)
      ensures r.Some? ==> r.value.penalty == (r.value.earlyMs + r.value.lateMs) as real * penaltyPerMs
    {
      var totalEarly := 0;
      var totalLate := 0;
      if earliestStartMs.Some? && startMs < earliestStartMs.value {
        totalEarly := totalEarly + (earliestStartMs.value - startMs);
      }
      if latestStartMs.Some? && startMs > latestStartMs.value {
        totalLate := totalLate + (startMs - latestStartMs.value);
      }
      if earliestEndMs.Some? && endMs < earliestEndMs.value {
        totalEarly := totalEarly + (earliestEndMs.value - endMs);
      }
      if latestEndMs.Some? && endMs > latestEndMs.value {
        totalLate := totalLate + (endMs - latestEndMs.value);
      }
      if totalEarly == 0 && totalLate == 0 {
        return None;
      }
      var severity := if constraintType == Hard then Critical else Minor;
      return Some(TimeWindowViolation(totalEarly, totalLate, severity, (totalEarly + totalLate) as real * penaltyPerMs));
    }
  }

  /** How far `x` falls below an optional lower bound. */
  function Shortfall(bound: Option<int>, x: int): (r: int)
    ensures 0 <= r
    ensures r == 0 <==> bound.None? || bound.value <= x
  {
    if bound.Some? && x < bound.value then bound.value - x else 0
  }

  /** How far `x` exceeds an optional upper bound. */
  function Excess(bound: Option<int>, x: int): (r: int)
    ensures 0 <= r
    ensures r == 0 <==> bound.None? || x <= bound.value
  {
    if bound.Some? && x > bound.value then x - bound.value else 0
  }

  /** Start below `earliest_start` plus end below `earliest_end`. */
  function EarlyMs(c: ActivityTimeConstraint, startMs: int, endMs: int): int
  {
    Shortfall(c.earliestStartMs, startMs) + Shortfall(c.earliestEndMs, endMs)
  }

  /** Start above `latest_start` plus end above `latest_end`. */
  function LateMs(c: ActivityTimeConstraint, startMs: int, endMs: int): int
  {
    Excess(c.latestStartMs, startMs) + Excess(c.latestEndMs, endMs)
  }

  /** Whether an interval respects every bound that is set. */
  predicate WithinBounds(c: ActivityTimeConstraint, startMs: int, endMs: int)
  {
    (c.earliestStartMs.None? || c.earliestStartMs.value <= startMs) &&
    (c.latestStartMs.None? || startMs <= c.latestStartMs.value) &&
    (c.earliestEndMs.None? || c.earliestEndMs.value <= endMs) &&
    (c.latestEndMs.None? || endMs <= c.latestEndMs.value)
  }

  /**
   * Both amounts are non-negative, and both are 0 (no violation is reported)
   * exactly when the interval respects every bound.
   */
  lemma ViolationIffOutOfBounds(c: ActivityTimeConstraint, startMs: int, endMs: int)
    ensures 0 <= EarlyMs(c, startMs, endMs) && 0 <= LateMs(c, startMs, endMs)
    ensures EarlyMs(c, startMs, endMs) == 0 && LateMs(c, startMs, endMs) == 0 <==> WithinBounds(c, startMs, endMs)
  {
  }

  /** `ActivityTimeConstraint::new`: no bounds, soft, penalty 1 per ms. */
  function NewTimeConstraint(): (c: ActivityTimeConstraint)
    ensures c.earliestStartMs == None && c.latestStartMs == None
    ensures c.earliestEndMs == None && c.latestEndMs == None
    ensures c.constraintType == Soft && c.penaltyPerMs == 1.0
  {
    ActivityTimeConstraint(None, None, None, None, Soft, 1.0)
  }

  /** `bounded(s, e)`: soft, earliest start `s`, latest end `e`. */
  function Bounded(startMs: int, endMs: int): (c: ActivityTimeConstraint)
    ensures c.earliestStartMs == Some(startMs) && c.latestEndMs == Some(endMs)
    ensures c.latestStartMs == None && c.earliestEndMs == None
    ensures c.constraintType == Soft && c.penaltyPerMs == 1.0
  {
    NewTimeConstraint().(earliestStartMs := Some(startMs), latestEndMs := Some(endMs))
  }

  /** `deadline(d)`: hard, only the latest end set, no penalty. */
  function Deadline(deadlineMs: int): (c: ActivityTimeConstraint)
    ensures c.latestEndMs == Some(deadlineMs) && c.constraintType == Hard && c.penaltyPerMs == 0.0
    ensures c.earliestStartMs == None && c.latestStartMs == None && c.earliestEndMs == None
  {
    NewTimeConstraint().(latestEndMs := Some(deadlineMs), constraintType := Hard, penaltyPerMs := 0.0)
  }

  /** `release(r)`: hard, only the earliest start set, no penalty. */
  function Release(releaseMs: int): (c: ActivityTimeConstraint)
    ensures c.earliestStartMs == Some(releaseMs) && c.constraintType == Hard && c.penaltyPerMs == 0.0
    ensures c.latestStartMs == None && c.earliestEndMs == None && c.latestEndMs == None
  {
    NewTimeConstraint().(earliestStartMs := Some(releaseMs), constraintType := Hard, penaltyPerMs := 0.0)
  }

  /** A hard deadline is violated exactly by ending after it, and only by lateness. */
  lemma DeadlineViolation(d: int, startMs: int, endMs: int)
    ensures EarlyMs(Deadline(d), startMs, endMs) == 0
    ensures LateMs(Deadline(d), startMs, endMs) == (if endMs > d then endMs - d else 0)
  {
  }

  /** A release is violated exactly by starting before it, and only by earliness. */
  lemma ReleaseViolation(rel: int, startMs: int, endMs: int)
    ensures LateMs(Release(rel), startMs, endMs) == 0
    ensures EarlyMs(Release(rel), startMs, endMs) == (if startMs < rel then rel - startMs else 0)
  {
  }

  /** The amounts by which an interval misses its bounds. */
  datatype TimeWindowViolation = TimeWindowViolation(earlyMs: int, lateMs: int, severity: ViolationSeverity, penalty: real)
  {
    function TotalViolationMs(): (r: int)
      ensures r >= 0
      ensures earlyMs >= 0 && lateMs >= 0 ==> r == earlyMs + lateMs
    {
      (if earlyMs < 0 then -earlyMs else earlyMs) + (if lateMs < 0 then -lateMs else lateMs)
    }

    predicate IsTardy()
    {
      lateMs > 0
    }

    predicate IsEarly()
    {
      earlyMs > 0
    }
  }

  /** A reported violation is early or tardy (its amounts are non-negative and not both 0). */
  lemma ReportedViolationIsEarlyOrTardy(c: ActivityTimeConstraint, startMs: int, endMs: int)
    requires EarlyMs(c, startMs, endMs) != 0 || LateMs(c, startMs, endMs) != 0
    ensures var v := TimeWindowViolation(EarlyMs(c, startMs, endMs), LateMs(c, startMs, endMs), Minor, 0.0);
      (v.IsEarly() || v.IsTardy()) && v.TotalViolationMs() > 0
  {
  }

  /** Optimistic, most likely and pessimistic durations. */
  datatype PertEstimate = PertEstimate(optimisticMs: int, mostLikelyMs: int, pessimisticMs: int)

  /** `PertEstimate::symmetric(m, s)`: m − s, m, m + s. */
  function Symmetric(mostLikelyMs: int, spreadMs: int): (p: PertEstimate)
    ensures p.mostLikelyMs == mostLikelyMs
    ensures p.mostLikelyMs - p.optimisticMs == spreadMs && p.pessimisticMs - p.mostLikelyMs == spreadMs
    ensures spreadMs >= 0 ==> p.optimisticMs <= p.mostLikelyMs <= p.pessimisticMs
  {
    PertEstimate(mostLikelyMs - spreadMs, mostLikelyMs, mostLikelyMs + spreadMs)
  }
}
