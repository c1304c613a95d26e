/**
 * The integer-valued dispatching rules (src/dispatching/rules/mod.rs).
 * A lower score means a higher priority.
 */
module Rules {
  import opened Common
  import opened Tasks
  import opened SchedulingContexts

  /**
   * A rule score. Every score the modelled rules compute from task fields is
   * a `Finite` integer; `Top` is the `f64::MAX` sentinel given to tasks
   * without a deadline, above every finite score.
   */
  datatype Score = Finite(v: int) | Top

  /**
   * Comparison of two scores: scores that differ are ordered, and two `Top`
   * sentinels tie (their difference is 0).
   */
  function CompareScore(a: Score, b: Score): Ordering
  {
    match (a, b)
    case (Finite(x), Finite(y)) => CompareInt(x, y)
    case (Finite(_), Top) => Less
    case (Top, Finite(_)) => Greater
    case (Top, Top) => Equal
  }

  lemma CompareScoreReverse(a: Score, b: Score)
    ensures CompareScore(b, a) == CompareScore(a, b).Reverse()
    ensures CompareScore(a, b) == Equal <==> a == b
  {
  }

  lemma CompareScoreTransitive(a: Score, b: Score, c: Score)
    requires CompareScore(a, b) != Greater && CompareScore(b, c) != Greater
    ensures CompareScore(a, c) != Greater
    ensures CompareScore(a, b) == Less || CompareScore(b, c) == Less ==> CompareScore(a, c) == Less
  {
  }

  /** The rules whose scores are integers. */
  datatype Rule = Spt | Lpt | Lwkr | Mwkr | Edd | Mst | Fifo | Winq | Priority

  /** The context's remaining work for the task, or its total duration when absent. */
  function RemainingWork(t: Task, ctx: SchedulingContext): int
  {
    if t.id in ctx.remainingWork then ctx.remainingWork[t.id] else t.TotalDurationMs()
  }

  /** `DispatchingRule::evaluate` for each modelled rule. */
  function Evaluate(rule: Rule, t: Task, ctx: SchedulingContext): (r: Score)
    ensures r.Top? <==> (rule == Edd || rule == Mst) && t.deadline.None?
  {
    match rule
    case Spt => Finite(t.TotalDurationMs())
    case Lpt => Finite(-t.TotalDurationMs())
    case Lwkr => Finite(RemainingWork(t, ctx))
    case Mwkr => Finite(-RemainingWork(t, ctx))
    case Edd => if t.deadline.Some? then Finite(t.deadline.value) else Top
    case Mst =>
      if t.deadline.None? then Top
      else Finite((t.deadline.value - ctx.currentTimeMs) - RemainingWork(t, ctx))
    case Fifo =>
      if t.id in ctx.arrivalTimes then Finite(ctx.arrivalTimes[t.id])
      else Finite(t.releaseTime.UnwrapOr(0))
    case Winq => Finite(if t.id in ctx.nextQueueLength then ctx.nextQueueLength[t.id] else 0)
    case Priority => Finite(-t.priority)
  }

  /** SPT orders tasks by total duration: shorter scores strictly lower. */
  lemma SptOrdersByDuration(a: Task, b: Task, ctx: SchedulingContext)
    ensures CompareScore(Evaluate(Spt, a, ctx), Evaluate(Spt, b, ctx)) == CompareInt(a.TotalDurationMs(), b.TotalDurationMs())
    ensures Evaluate(Spt, a, ctx) == Finite(a.TotalDurationMs())
  {
  }

  /** LPT's score is SPT's negated, so it orders tasks the other way round. */
  lemma LptNegatesSpt(a: Task, b: Task, ctx: SchedulingContext)
    ensures Evaluate(Lpt, a, ctx).v == -Evaluate(Spt, a, ctx).v
    ensures CompareScore(Evaluate(Lpt, a, ctx), Evaluate(Lpt, b, ctx)) ==
            CompareScore(Evaluate(Spt, a, ctx), Evaluate(Spt, b, ctx)).Reverse()
  {
  }

  /** LWKR reads the context entry when present and otherwise agrees with SPT. */
  lemma LwkrUsesRemainingWork(t: Task, ctx: SchedulingContext, ms: int)
    ensures Evaluate(Lwkr, t, ctx.WithRemainingWork(t.id, ms)) == Finite(ms)
    ensures t.id !in ctx.remainingWork ==> Evaluate(Lwkr, t, ctx) == Evaluate(Spt, t, ctx)
  {
  }

  /** MWKR's score is the LWKR value negated. */
  lemma MwkrNegatesLwkr(a: Task, b: Task, ctx: SchedulingContext)
    ensures Evaluate(Mwkr, a, ctx).v == -Evaluate(Lwkr, a, ctx).v
    ensures CompareScore(Evaluate(Mwkr, a, ctx), Evaluate(Mwkr, b, ctx)) ==
            CompareScore(Evaluate(Lwkr, a, ctx), Evaluate(Lwkr, b, ctx)).Reverse()
  {
  }

  /** EDD ranks a task with a deadline before every task without one, and deadlines by date. */
  lemma EddRanksByDeadline(a: Task, b: Task, ctx: SchedulingContext)
    ensures a.deadline.Some? && b.deadline.None? ==> CompareScore(Evaluate(Edd, a, ctx), Evaluate(Edd, b, ctx)) == Less
    ensures a.deadline.Some? && b.deadline.Some? ==>
      CompareScore(Evaluate(Edd, a, ctx), Evaluate(Edd, b, ctx)) == CompareInt(a.deadline.value, b.deadline.value)
    ensures a.deadline.None? && b.deadline.None? ==> CompareScore(Evaluate(Edd, a, ctx), Evaluate(Edd, b, ctx)) == Equal
  {
  }

  /** MST is the slack to the deadline, and the sentinel without one; it falls as the clock advances. */
  lemma MstIsSlack(t: Task, ctx: SchedulingContext, later: int)
    ensures t.deadline.None? ==> Evaluate(Mst, t, ctx) == Top
    ensures t.deadline.Some? ==>
      Evaluate(Mst, t, ctx).Finite? &&
      Evaluate(Mst, t, ctx).v + ctx.currentTimeMs + RemainingWork(t, ctx) == t.deadline.value
    ensures t.deadline.Some? && later > ctx.currentTimeMs ==>
      CompareScore(Evaluate(Mst, t, ctx.(currentTimeMs := later)), Evaluate(Mst, t, ctx)) == Less
  {
  }

  /** FIFO uses the context arrival time, else the release time, else 0. */
  lemma FifoUsesArrival(t: Task, ctx: SchedulingContext, ms: int)
    ensures Evaluate(Fifo, t, ctx.WithArrivalTime(t.id, ms)) == Finite(ms)
    ensures t.id !in ctx.arrivalTimes && t.releaseTime.Some? ==> Evaluate(Fifo, t, ctx) == Finite(t.releaseTime.value)
    ensures t.id !in ctx.arrivalTimes && t.releaseTime.None? ==> Evaluate(Fifo, t, ctx) == Finite(0)
  {
  }

  /** WINQ uses the next-queue length, 0 when absent. */
  lemma WinqUsesQueueLength(t: Task, ctx: SchedulingContext, n: nat)
    ensures Evaluate(Winq, t, ctx.WithNextQueue(t.id, n)) == Finite(n)
    ensures t.id !in ctx.nextQueueLength ==> Evaluate(Winq, t, ctx) == Finite(0)
  {
  }

  /** PRIORITY scores −priority, so a higher priority ranks first. */
  lemma PriorityRanksHigherFirst(a: Task, b: Task, ctx: SchedulingContext)
    ensures CompareScore(Evaluate(Priority, a, ctx), Evaluate(Priority, b, ctx)) == CompareInt(b.priority, a.priority)
  {
  }

  /** Every rule except EDD and MST yields a finite score. */
  lemma OnlyDeadlineRulesUseSentinel(rule: Rule, t: Task, ctx: SchedulingContext)
    requires Evaluate(rule, t, ctx) == Top
    ensures (rule == Edd || rule == Mst) && t.deadline.None?
  {
  }
}
