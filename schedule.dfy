/**
 * Schedules (src/models/schedule.rs): the assignments a scheduler produces
 * and the queries over them.
 */
module Schedules {
  import opened Common

  /** One activity placed on one resource over [startMs, endMs), the first `setupMs` being setup. */
  datatype Assignment = Assignment(
    activityId: string,
    taskId: string,
    resourceId: string,
    startMs: int,
    endMs: int,
    setupMs: int)
  {
    function WithSetup(s: int): (r: Assignment)
      ensures r.setupMs == s && r.(setupMs := setupMs) == this
    {
      this.(setupMs := s)
    }

    function DurationMs(): int
    {
      endMs - startMs
    }

    function ProcessMs(): int
    {
      DurationMs() - setupMs
    }
  }

  /** `Assignment::new`: no setup recorded. */
  function NewAssignment(activityId: string, taskId: string, resourceId: string, startMs: int, endMs: int): (a: Assignment)
    ensures a.activityId == activityId && a.taskId == taskId && a.resourceId == resourceId
    ensures a.startMs == startMs && a.endMs == endMs && a.setupMs == 0
  {
    Assignment(activityId, taskId, resourceId, startMs, endMs, 0)
  }

  /** The interval splits into setup then processing: start + setup + process = end. */
  lemma DurationSplits(a: Assignment)
    ensures a.DurationMs() == a.endMs - a.startMs
    ensures a.startMs + a.setupMs + a.ProcessMs() == a.endMs
    ensures a.setupMs == 0 ==> a.ProcessMs() == a.DurationMs()
  {
  }

  datatype ViolationType =
    | DeadlineMiss | CapacityExceeded | PrecedenceViolation
    | ResourceUnavailable | SkillMismatch | Custom(name: string)

  /** A constraint violation found in a schedule. */
  datatype Violation = Violation(violationType: ViolationType, entityId: string, message: string, severity: int)

  /** The latest end time of a sequence of assignments (`map(end).max()`). */
  function MaxEnd(s: seq<Assignment>): (r: Option<int>)
    ensures r.None? <==> s == []
    ensures r.Some? ==> forall k :: 0 <= k < |s| ==> s[k].endMs <= r.value
    ensures r.Some? ==> exists k :: 0 <= k < |s| && s[k].endMs == r.value
  {
    if s == [] then None
    else
      var last := s[|s| - 1].endMs;
      var m := MaxEnd(s[..|s| - 1]);
      assert forall k :: 0 <= k < |s| - 1 ==> s[..|s| - 1][k] == s[k];
      if m.Some? && m.value > last then m else Some(last)
  }

  /** The assignments of task `t`, in schedule order (a `filter`). */
  function ForTask(s: seq<Assignment>, t: string): (r: seq<Assignment>)
    ensures forall a :: a in r <==> a in s && a.taskId == t
    ensures |r| <= |s|
  {
    if s == [] then []
    else
      var init := s[..|s| - 1];
      assert s == init + [s[|s| - 1]];
      ForTask(init, t) + (if s[|s| - 1].taskId == t then [s[|s| - 1]] else [])
  }

  /** The assignments on resource `res`, in schedule order (a `filter`). */
  function ForResource(s: seq<Assignment>, res: string): (r: seq<Assignment>)
    ensures forall a :: a in r <==> a in s && a.resourceId == res
    ensures |r| <= |s|
  {
    if s == [] then []
    else
      var init := s[..|s| - 1];
      assert s == init + [s[|s| - 1]];
      ForResource(init, res) + (if s[|s| - 1].resourceId == res then [s[|s| - 1]] else [])
  }

  /** Filtering a concatenation filters each part, so the original order is kept. */
  lemma {:induction false} ForTaskAppend(a: seq<Assignment>, b: seq<Assignment>, t: string)
    ensures ForTask(a + b, t) == ForTask(a, t) + ForTask(b, t)
  {
    if b == [] {
      assert a + b == a;
    } else {
      var binit := b[..|b| - 1];
      assert (a + b)[..|a + b| - 1] == a + binit;
      assert (a + b)[|a + b| - 1] == b[|b| - 1];
      ForTaskAppend(a, binit, t);
    }
  }

  lemma {:induction false} ForResourceAppend(a: seq<Assignment>, b: seq<Assignment>, res: string)
    ensures ForResource(a + b, res) == ForResource(a, res) + ForResource(b, res)
  {
    if b == [] {
      assert a + b == a;
    } else {
      var binit := b[..|b| - 1];
      assert (a + b)[..|a + b| - 1] == a + binit;
      assert (a + b)[|a + b| - 1] == b[|b| - 1];
      ForResourceAppend(a, binit, res);
    }
  }

  /** The first assignment with activity id `id` (a `find`). */
  function FindActivity(s: seq<Assignment>, id: string): (r: Option<Assignment>)
    ensures r.None? <==> forall k :: 0 <= k < |s| ==> s[k].activityId != id
    ensures r.Some? ==> exists k :: 0 <= k < |s| && s[k] == r.value && r.value.activityId == id &&
                                    forall j :: 0 <= j < k ==> s[j].activityId != id
  {
    if s == [] then None
    else if s[0].activityId == id then Some(s[0])
    else
      var r := FindActivity(s[1..], id);
      assert forall k :: 1 <= k < |s| ==> s[k] == s[1..][k - 1];
      r
  }

  /** The sum of the durations of a sequence of assignments. */
  function BusyMs(s: seq<Assignment>): int
  {
    if s == [] then 0 else BusyMs(s[..|s| - 1]) + s[|s| - 1].DurationMs()
  }

  /** The output of a scheduler: assignments in placement order and any violations. */
  class Schedule {
    var assignments: seq<Assignment>
    var violations: seq<Violation>

    /** `Schedule::new`: nothing placed, nothing violated. */
    constructor ()
      ensures assignments == [] && violations == []
    {
      assignments := [];
      violations := [];
    }

    method AddAssignment(a: Assignment)
      modifies this
      ensures assignments == old(assignments) + [a]
      ensures violations == old(violations)
      ensures AssignmentCount() == old(AssignmentCount()) + 1
    {
      assignments := assignments + [a];
    }

    method AddViolation(v: Violation)
      modifies this
      ensures violations == old(violations) + [v]
      ensures assignments == old(assignments)
      ensures !IsValid()
    {
      violations := violations + [v];
    }

    /** `is_valid`: no violation has been recorded. */
    predicate IsValid()
      reads this
      ensures IsValid() <==> |violations| == 0
    {
      violations == []
    }

    /** The latest end over all assignments, or 0 when there are none. */
    function MakespanMs(): (r: int)
      reads this
      ensures assignments == [] ==> r == 0
      ensures forall k :: 0 <= k < |assignments| ==> assignments[k].endMs <= r
      ensures assignments != [] ==> exists k :: 0 <= k < |assignments| && assignments[k].endMs == r
    {
      MaxEnd(assignments).UnwrapOr(0)
    }

    /** The first assignment of the activity, if any. */
    function AssignmentForActivity(activityId: string): (r: Option<Assignment>)
      reads this
      ensures r.None? <==> forall k :: 0 <= k < |assignments| ==> assignments[k].activityId != activityId
      ensures r.Some? ==> r.value in assignments && r.value.activityId == activityId
    {
      FindActivity(assignments, activityId)
    }

    /** The task's assignments, in schedule order. */
    function AssignmentsForTask(taskId: string): (r: seq<Assignment>)
      reads this
      ensures forall a :: a in r <==> a in assignments && a.taskId == taskId
    {
      ForTask(assignments, taskId)
    }

    /** The resource's assignments, in schedule order. */
    function AssignmentsForResource(resourceId: string): (r: seq<Assignment>)
      reads this
      ensures forall a :: a in r <==> a in assignments && a.resourceId == resourceId
    {
      ForResource(assignments, resourceId)
    }

    /** The latest end among the task's assignments; `None` if it has none. */
    function TaskCompletionTime(taskId: string): (r: Option<int>)
      reads this
      ensures r.None? <==> forall k :: 0 <= k < |assignments| ==> assignments[k].taskId != taskId
      ensures r.Some? ==> forall k :: 0 <= k < |assignments| && assignments[k].taskId == taskId ==>
                            assignments[k].endMs <= r.value
      ensures r.Some? ==> exists k :: 0 <= k < |assignments| && assignments[k].taskId == taskId &&
                            assignments[k].endMs == r.value
    {
      var mine := ForTask(assignments, taskId);
      var r := MaxEnd(mine);
      assert forall k :: 0 <= k < |assignments| && assignments[k].taskId == taskId ==> assignments[k] in mine;
      r
    }

    /** Busy time over the horizon for one resource; `None` for a horizon that is not positive. */
    function ResourceUtilization(resourceId: string, horizonMs: int): (r: Option<real>)
      reads this
      ensures r.None? <==> horizonMs <= 0
      ensures r.Some? ==> r.value * horizonMs as real == BusyMs(ForResource(assignments, resourceId)) as real
    {
      if horizonMs <= 0 then None
      else Some(BusyMs(ForResource(assignments, resourceId)) as real / horizonMs as real)
    }

    /** `assignment_count`: the number of assignments. */
    function AssignmentCount(): (n: nat)
      reads this
      ensures n == |assignments|
    {
      |assignments|
    }
  }

  /** `assignment_for_activity` finds the first assignment carrying that activity id. */
  lemma AssignmentForActivityIsFirst(s: Schedule, id: string, k: nat)
    requires k < |s.assignments| && s.assignments[k].activityId == id
    requires forall j :: 0 <= j < k ==> s.assignments[j].activityId != id
    ensures s.AssignmentForActivity(id) == Some(s.assignments[k])
  {
    var r := s.AssignmentForActivity(id);
    var i :| 0 <= i < |s.assignments| && s.assignments[i] == r.value && r.value.activityId == id &&
             forall j :: 0 <= j < i ==> s.assignments[j].activityId != id;
    assert i == k;
  }

  /** Appending an assignment extends exactly the task's and the resource's filters. */
  lemma FiltersAfterAppend(s: seq<Assignment>, a: Assignment, t: string, res: string)
    ensures ForTask(s + [a], t) == ForTask(s, t) + (if a.taskId == t then [a] else [])
    ensures ForResource(s + [a], res) == ForResource(s, res) + (if a.resourceId == res then [a] else [])
  {
    ForTaskAppend(s, [a], t);
    ForResourceAppend(s, [a], res);
    assert [a][..0] == [];
  }
}
