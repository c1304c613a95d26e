/**
 * Schedule quality metrics (src/scheduler/kpi.rs): makespan, tardiness,
 * on-time rate and average flow time of a finished schedule, computed by
 * one pass over the input tasks.
 */
module Kpi {
  import opened Common
  import opened Tasks
  import opened Schedules

  /**
   * The indicators. The source's rates and averages are `f64`; here they are
   * exact reals. The per-resource utilisation map is not part of this model,
   * and its average is supplied by the caller.
   */
  datatype ScheduleKpi = ScheduleKpi(
    makespanMs: int,
    totalTardinessMs: int,
    maxTardinessMs: int,
    onTimeRate: real,
    avgUtilization: real,
    avgFlowTimeMs: real)
  {
    /** `meets_thresholds`: tardiness within the bound and utilisation at least the minimum. */
    predicate MeetsThresholds(maxTardiness: int, minUtilization: real)
    {
      maxTardinessMs <= maxTardiness && avgUtilization >= minUtilization
    }
  }

  /** The completion time of a task: its latest assignment end, `None` without assignments. */
  function Completion(s: seq<Assignment>, taskId: string): Option<int>
  {
    if s == [] then None
    else
      var m := Completion(s[..|s| - 1], taskId);
      var last := s[|s| - 1];
      if last.taskId != taskId then m
      else if m.Some? && m.value > last.endMs then m
      else Some(last.endMs)
  }

  /** The completion is what the schedule's `task_completion_time` returns: the latest end among the task's assignments. */
  lemma {:induction false} CompletionIsMaxEnd(s: seq<Assignment>, taskId: string)
    ensures Completion(s, taskId) == MaxEnd(ForTask(s, taskId))
  {
    if s != [] {
      var init := s[..|s| - 1];
      CompletionIsMaxEnd(init, taskId);
      var f := ForTask(s, taskId);
      if s[|s| - 1].taskId == taskId {
        assert f[..|f| - 1] == ForTask(init, taskId);
      } else {
        assert f == ForTask(init, taskId);
      }
    }
  }

  /** How late one task finishes: completion − deadline when positive, else 0. */
  function TaskTardiness(s: seq<Assignment>, t: Task): (r: int)
    ensures r >= 0
    ensures r > 0 <==> Completion(s, t.id).Some? && t.deadline.Some? && Completion(s, t.id).value > t.deadline.value
    ensures Completion(s, t.id).Some? && t.deadline.Some? ==>
      r == Max(0, Completion(s, t.id).value - t.deadline.value)
  {
    var c := Completion(s, t.id);
    if c.Some? && t.deadline.Some? && c.value > t.deadline.value then c.value - t.deadline.value else 0
  }

  /** The loop's accumulators. */
  datatype Totals = Totals(tardinessMs: int, maxTardinessMs: int, onTime: nat, flowMs: int, counted: nat)

  /** One iteration of the loop over tasks, given the task's completion time. */
  function Step(acc: Totals, completion: Option<int>, t: Task): Totals
  {
    match completion
    case None => acc
    case Some(c) =>
      var flow := acc.flowMs + (c - t.releaseTime.UnwrapOr(0));
      if t.deadline.Some? && c > t.deadline.value then
        var late := c - t.deadline.value;
        Totals(acc.tardinessMs + late, Max(acc.maxTardinessMs, late), acc.onTime, flow, acc.counted + 1)
      else
        Totals(acc.tardinessMs, acc.maxTardinessMs, acc.onTime + 1, flow, acc.counted + 1)
  }

  /** The accumulators after the loop has visited `tasks`. */
  function Accumulate(s: seq<Assignment>, tasks: seq<Task>): (r: Totals)
    ensures r.onTime <= r.counted <= |tasks|
    ensures 0 <= r.maxTardinessMs <= r.tardinessMs
  {
    if tasks == [] then Totals(0, 0, 0, 0, 0)
    else Step(Accumulate(s, tasks[..|tasks| - 1]), Completion(s, tasks[|tasks| - 1].id), tasks[|tasks| - 1])
  }

  /** A total over a count as `f64` division, or `empty` when nothing was counted. */
  function Average(total: int, count: nat, empty: real): real
  {
    if count == 0 then empty else total as real / count as real
  }

  /** The indicators `calculate` returns, given the average utilisation. */
  function KpiOf(s: seq<Assignment>, tasks: seq<Task>, avgUtilization: real): ScheduleKpi
  {
    var acc := Accumulate(s, tasks);
    ScheduleKpi(
      MaxEnd(s).UnwrapOr(0),
      acc.tardinessMs,
      acc.maxTardinessMs,
      Average(acc.onTime, acc.counted, 1.0),
      avgUtilization,
      Average(acc.flowMs, acc.counted, 0.0))
  }

  /**
   * `ScheduleKpi::calculate`: one pass over the tasks with five accumulators.
   * The schedule is only borrowed for reading, so its assignments are read
   * once and each task's completion is the schedule's `task_completion_time`.
   */
  method Calculate(schedule: Schedule, tasks: seq<Task>, avgUtilization: real) returns (kpi: ScheduleKpi)
    ensures kpi == KpiOf(schedule.assignments, tasks, avgUtilization)
  {
    var makespan := schedule.MakespanMs();
    var assignments := schedule.assignments;
    var totalTardiness := 0;
    var maxTardiness := 0;
    var onTimeCount: nat := 0;
    var totalFlowTime := 0;
    var countedTasks: nat := 0;
    for i := 0 to |tasks|
      invariant var acc := Accumulate(assignments, tasks[..i]);
        totalTardiness == acc.tardinessMs && maxTardiness == acc.maxTardinessMs && onTimeCount == acc.onTime &&
        totalFlowTime == acc.flowMs && countedTasks == acc.counted
    {
      var task := tasks[i];
      var completion := Completion(assignments, task.id);
      AccumulateStep(assignments, tasks, i, completion);
      if completion.Some? {
        var c := completion.value;
        countedTasks := countedTasks + 1;
        var release := task.releaseTime.UnwrapOr(0);
        totalFlowTime := totalFlowTime + (c - release);
        if task.deadline.Some? && c > task.deadline.value {
          var tardiness := c - task.deadline.value;
          totalTardiness := totalTardiness + tardiness;
          maxTardiness := Max(maxTardiness, tardiness);
        } else {
          onTimeCount := onTimeCount + 1;
        }
      }
    }
    assert tasks[..|tasks|] == tasks;
    var onTimeRate := Average(onTimeCount, countedTasks, 1.0);
    var avgFlowTimeMs := Average(totalFlowTime, countedTasks, 0.0);
    kpi := ScheduleKpi(makespan, totalTardiness, maxTardiness, onTimeRate, avgUtilization, avgFlowTimeMs);
  }

  /** Visiting one more task is one more `Step`: field by field, what the loop body does. */
  lemma AccumulateStep(s: seq<Assignment>, tasks: seq<Task>, i: nat, completion: Option<int>)
    requires i < |tasks| && completion == Completion(s, tasks[i].id)
    ensures var before, after, t := Accumulate(s, tasks[..i]), Accumulate(s, tasks[..i + 1]), tasks[i];
      (completion.None? ==> after == before) &&
      (completion.Some? ==>
        after.counted == before.counted + 1 &&
        after.flowMs == before.flowMs + (completion.value - t.releaseTime.UnwrapOr(0)) &&
        (t.deadline.Some? && completion.value > t.deadline.value ==>
          after.tardinessMs == before.tardinessMs + (completion.value - t.deadline.value) &&
          after.maxTardinessMs == Max(before.maxTardinessMs, completion.value - t.deadline.value) &&
          after.onTime == before.onTime) &&
        (!(t.deadline.Some? && completion.value > t.deadline.value) ==>
          after.tardinessMs == before.tardinessMs && after.maxTardinessMs == before.maxTardinessMs &&
          after.onTime == before.onTime + 1))
  {
    assert tasks[..i + 1][..i] == tasks[..i];
  }

  /** The KPI makespan is the schedule's: the latest end, 0 for no assignments. */
  lemma KpiMakespanIsScheduleMakespan(s: seq<Assignment>, tasks: seq<Task>, u: real)
    ensures s == [] ==> KpiOf(s, tasks, u).makespanMs == 0
    ensures forall k :: 0 <= k < |s| ==> s[k].endMs <= KpiOf(s, tasks, u).makespanMs
    ensures s != [] ==> exists k :: 0 <= k < |s| && s[k].endMs == KpiOf(s, tasks, u).makespanMs
  {
    assert KpiOf(s, tasks, u).makespanMs == MaxEnd(s).UnwrapOr(0);
  }

  /** The total tardiness is the sum of the tasks' tardiness. */
  function SumTardiness(s: seq<Assignment>, tasks: seq<Task>): int
  {
    if tasks == [] then 0 else SumTardiness(s, tasks[..|tasks| - 1]) + TaskTardiness(s, tasks[|tasks| - 1])
  }

  lemma {:induction false} TotalTardinessIsSum(s: seq<Assignment>, tasks: seq<Task>)
    ensures Accumulate(s, tasks).tardinessMs == SumTardiness(s, tasks)
  {
    if tasks != [] {
      TotalTardinessIsSum(s, tasks[..|tasks| - 1]);
    }
  }

  /**
   * The maximum tardiness bounds every task's tardiness and, when positive,
   * is the tardiness of some task.
   */
  lemma {:induction false} MaxTardinessIsLargest(s: seq<Assignment>, tasks: seq<Task>)
    ensures forall i :: 0 <= i < |tasks| ==> TaskTardiness(s, tasks[i]) <= Accumulate(s, tasks).maxTardinessMs
    ensures Accumulate(s, tasks).maxTardinessMs > 0 ==>
      exists i :: 0 <= i < |tasks| && TaskTardiness(s, tasks[i]) == Accumulate(s, tasks).maxTardinessMs
  {
    if tasks != [] {
      var init := tasks[..|tasks| - 1];
      MaxTardinessIsLargest(s, init);
      assert forall i :: 0 <= i < |init| ==> init[i] == tasks[i];
      var acc := Accumulate(s, init);
      var last := tasks[|tasks| - 1];
      if Accumulate(s, tasks).maxTardinessMs > 0 {
        if Accumulate(s, tasks).maxTardinessMs == acc.maxTardinessMs && acc.maxTardinessMs > 0 {
          var i :| 0 <= i < |init| && TaskTardiness(s, init[i]) == acc.maxTardinessMs;
          assert TaskTardiness(s, tasks[i]) == Accumulate(s, tasks).maxTardinessMs;
        } else {
          assert TaskTardiness(s, tasks[|tasks| - 1]) == Accumulate(s, tasks).maxTardinessMs;
        }
      }
    }
  }

  /** No tardiness in total exactly when every task is on time. */
  lemma NoTardinessIffAllOnTime(s: seq<Assignment>, tasks: seq<Task>)
    ensures Accumulate(s, tasks).tardinessMs == 0 <==> forall i :: 0 <= i < |tasks| ==> TaskTardiness(s, tasks[i]) == 0
  {
    MaxTardinessIsLargest(s, tasks);
  }

  /** A task without assignments changes no accumulator. */
  lemma {:induction false} UnscheduledTaskIsIgnored(s: seq<Assignment>, tasks: seq<Task>, t: Task)
    requires forall k :: 0 <= k < |s| ==> s[k].taskId != t.id
    ensures Accumulate(s, tasks + [t]) == Accumulate(s, tasks)
  {
    NoAssignmentNoCompletion(s, t.id);
    assert (tasks + [t])[..|tasks|] == tasks;
  }

  lemma {:induction false} NoAssignmentNoCompletion(s: seq<Assignment>, taskId: string)
    requires forall k :: 0 <= k < |s| ==> s[k].taskId != taskId
    ensures Completion(s, taskId).None?
  {
    if s != [] {
      NoAssignmentNoCompletion(s[..|s| - 1], taskId);
    }
  }

  /** A scheduled task without a deadline counts once, as on time, and adds its flow time. */
  lemma NoDeadlineCountsOnTime(s: seq<Assignment>, tasks: seq<Task>, t: Task)
    requires t.deadline.None? && Completion(s, t.id).Some?
    ensures var before, after := Accumulate(s, tasks), Accumulate(s, tasks + [t]);
      after.onTime == before.onTime + 1 && after.counted == before.counted + 1 &&
      after.tardinessMs == before.tardinessMs && after.maxTardinessMs == before.maxTardinessMs &&
      after.flowMs == before.flowMs + (Completion(s, t.id).value - t.releaseTime.UnwrapOr(0))
  {
    assert (tasks + [t])[..|tasks|] == tasks;
  }

  /** The number of tasks that have at least one assignment. */
  function ScheduledCount(s: seq<Assignment>, tasks: seq<Task>): nat
  {
    if tasks == [] then 0
    else ScheduledCount(s, tasks[..|tasks| - 1]) + (if Completion(s, tasks[|tasks| - 1].id).Some? then 1 else 0)
  }

  /** Exactly the scheduled tasks are counted, and the late ones are the counted tasks not on time. */
  lemma {:induction false} CountedAreScheduled(s: seq<Assignment>, tasks: seq<Task>)
    ensures Accumulate(s, tasks).counted == ScheduledCount(s, tasks)
    ensures Accumulate(s, tasks).counted - Accumulate(s, tasks).onTime == LateCount(s, tasks)
  {
    if tasks != [] {
      CountedAreScheduled(s, tasks[..|tasks| - 1]);
    }
  }

  /** The number of tasks with positive tardiness. */
  function LateCount(s: seq<Assignment>, tasks: seq<Task>): nat
  {
    if tasks == [] then 0
    else LateCount(s, tasks[..|tasks| - 1]) + (if TaskTardiness(s, tasks[|tasks| - 1]) > 0 then 1 else 0)
  }

  /** The on-time rate lies in [0, 1] and is 1 when no task was counted; so is the flow average 0. */
  lemma RatesOfKpi(s: seq<Assignment>, tasks: seq<Task>, u: real)
    ensures var k, acc := KpiOf(s, tasks, u), Accumulate(s, tasks);
      0.0 <= k.onTimeRate <= 1.0 &&
      (acc.counted == 0 ==> k.onTimeRate == 1.0 && k.avgFlowTimeMs == 0.0) &&
      (k.onTimeRate == 1.0 <==> acc.onTime == acc.counted)
  {
    var acc := Accumulate(s, tasks);
    var k := KpiOf(s, tasks, u);
    if acc.counted > 0 {
      RatioIsFraction(acc.onTime, acc.counted);
    }
  }

  /** A part over a positive whole is a fraction in [0, 1]. */
  lemma RatioIsFraction(part: nat, whole: nat)
    requires 0 < whole && part <= whole
    ensures 0.0 <= part as real / whole as real <= 1.0
    ensures part as real / whole as real == 1.0 <==> part == whole
  {
    var q := part as real / whole as real;
    assert q * whole as real == part as real;
    assert q <= 1.0 by {
      if q > 1.0 {
        assert q * whole as real > 1.0 * whole as real;
      }
    }
  }

  /** Tardiness above the bound fails the thresholds, whatever the utilisation. */
  lemma TardyKpiFailsThresholds(k: ScheduleKpi, maxTardiness: int, minUtilization: real)
    requires k.maxTardinessMs > maxTardiness
    ensures !k.MeetsThresholds(maxTardiness, minUtilization)
  {
  }

  /**
   * For a non-negative bound, the KPI meets the thresholds exactly when
   * every single task is within the tardiness bound and the utilisation is high enough.
   */
  lemma MeetsThresholdsBoundsEveryTask(s: seq<Assignment>, tasks: seq<Task>, u: real, maxTardiness: int, minUtilization: real)
    requires maxTardiness >= 0
    ensures KpiOf(s, tasks, u).MeetsThresholds(maxTardiness, minUtilization) <==>
      (forall i :: 0 <= i < |tasks| ==> TaskTardiness(s, tasks[i]) <= maxTardiness) && u >= minUtilization
  {
    MaxTardinessIsLargest(s, tasks);
  }
}
