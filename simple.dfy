/**
 * The priority-driven greedy scheduler (src/scheduler/simple.rs).
 *
 * Tasks are taken in rule-engine order (or by descending priority); each
 * activity of a task goes, in turn, to the candidate resource on which it
 * can start earliest, after the sequence-dependent setup time from the
 * transition matrices. A functional reference model (`PlaceActivity`,
 * `PlaceActivities`, `PlaceTasks`) specifies the loop in `ScheduleTasks`.
 */
module Scheduler {
  import opened Common
  import Calendars
  import opened Activities
  import opened Tasks
  import opened Resources
  import Constraints
  import opened Schedules
  import opened SchedulingContexts
  import opened Rules
  import opened Sorting
  import opened Engine
  import ActivityInfos

  /** The input of `schedule_request`. */
  datatype ScheduleRequest = ScheduleRequest(
    tasks: seq<Task>,
    resources: seq<Resource>,
    startTimeMs: int,
    transitionMatrices: Constraints.TransitionMatrixCollection)
  {
    function WithStartTime(startTimeMs: int): (r: ScheduleRequest)
      ensures r.startTimeMs == startTimeMs && r.(startTimeMs := this.startTimeMs) == this
    {
      this.(startTimeMs := startTimeMs)
    }

    function WithTransitionMatrices(m: Constraints.TransitionMatrixCollection): (r: ScheduleRequest)
      ensures r.transitionMatrices == m && r.(transitionMatrices := transitionMatrices) == this
    {
      this.(transitionMatrices := m)
    }
  }

  /** `ScheduleRequest::new`: start at 0, no transition matrices. */
  method NewRequest(tasks: seq<Task>, resources: seq<Resource>) returns (r: ScheduleRequest)
    ensures r.tasks == tasks && r.resources == resources && r.startTimeMs == 0
    ensures fresh(r.transitionMatrices) && r.transitionMatrices.matrices == map[]
  {
    var m := new Constraints.TransitionMatrixCollection();
    r := ScheduleRequest(tasks, resources, 0, m);
  }

  /** The result of scanning the candidates: the chosen resource and its start. */
  datatype Choice = Choice(resource: Option<string>, startMs: int)

  /** When an activity could start on `c`: once `c` is free and the task may proceed. */
  function StartOn(available: map<string, int>, c: string, taskStartMs: int): int
    requires c in available
  {
    Max(available[c], taskStartMs)
  }

  /**
   * The scan over the first `n` candidates: the first one (in candidate
   * order) with the strictly smallest start, among those that are known
   * resources, starting from a best of `i64::MAX`.
   */
  function EarliestCandidate(cands: seq<string>, available: map<string, int>, taskStartMs: int, n: nat): (r: Choice)
    requires n <= |cands|
    ensures r.startMs <= Calendars.I64Max
  {
    if n == 0 then Choice(None, Calendars.I64Max)
    else
      var prev := EarliestCandidate(cands, available, taskStartMs, n - 1);
      var c := cands[n - 1];
      if c in available && StartOn(available, c, taskStartMs) < prev.startMs then
        Choice(Some(c), StartOn(available, c, taskStartMs))
      else prev
  }

  /**
   * The scan finds nothing exactly when no known candidate can start before
   * `i64::MAX`; otherwise it picks a known candidate whose start is not
   * after any other's and strictly before every earlier candidate's.
   */
  lemma {:induction false} EarliestCandidateIsEarliest(cands: seq<string>, available: map<string, int>, taskStartMs: int, n: nat)
    requires n <= |cands|
    ensures var r := EarliestCandidate(cands, available, taskStartMs, n);
      (r.resource.None? ==> r.startMs == Calendars.I64Max) &&
      (r.resource.None? <==>
        forall k :: 0 <= k < n && cands[k] in available ==> StartOn(available, cands[k], taskStartMs) >= Calendars.I64Max) &&
      (forall k :: 0 <= k < n && cands[k] in available ==> r.startMs <= StartOn(available, cands[k], taskStartMs)) &&
      (r.resource.Some? ==>
        exists k :: 0 <= k < n && cands[k] == r.resource.value && cands[k] in available &&
          r.startMs == StartOn(available, cands[k], taskStartMs) &&
          forall j :: 0 <= j < k && cands[j] in available ==> r.startMs < StartOn(available, cands[j], taskStartMs))
  {
    if n > 0 {
      EarliestCandidateIsEarliest(cands, available, taskStartMs, n - 1);
      var prev := EarliestCandidate(cands, available, taskStartMs, n - 1);
      var r := EarliestCandidate(cands, available, taskStartMs, n);
      if r.resource.Some? && r != prev {
        assert cands[n - 1] == r.resource.value && cands[n - 1] in available &&
          r.startMs == StartOn(available, cands[n - 1], taskStartMs);
      }
    }
  }

  /** The state the scheduling loop carries: resource availability, last category per resource, and the schedule. */
  datatype SimState = SimState(available: map<string, int>, lastCategory: map<string, string>, assignments: seq<Assignment>)

  /** The setup before a task of `category` on `res`: the transition from its last category, 0 on first use. */
  function SetupTime(tm: map<string, Constraints.MatrixTable>, st: SimState, res: string, category: string): int
  {
    if res in st.lastCategory then Constraints.TableTime(tm, res, st.lastCategory[res], category) else 0
  }

  /**
   * One activity of task `t`, placed with the task able to proceed at
   * `taskStartMs`; returns the new state and the new task start.
   */
  function PlaceActivity(tm: map<string, Constraints.MatrixTable>, t: Task, act: Activity, st: SimState, taskStartMs: int): (SimState, int)
  {
    var cands := act.CandidateResources();
    var choice := EarliestCandidate(cands, st.available, taskStartMs, |cands|);
    if cands == [] || choice.resource.None? then (st, taskStartMs)
    else
      var res := choice.resource.value;
      var setup := SetupTime(tm, st, res, t.category);
      var end := choice.startMs + setup + act.duration.processMs;
      (SimState(st.available[res := end], st.lastCategory[res := t.category],
                st.assignments + [NewAssignment(act.id, t.id, res, choice.startMs, end).WithSetup(setup)]), end)
  }

  /**
   * Placing one activity either changes nothing (no known candidate can
   * start before `i64::MAX`) or appends one assignment: on a candidate with
   * the earliest start, after the task may proceed and the resource is free,
   * lasting the setup plus the processing time; the resource then becomes
   * free at its end and the task may proceed from there.
   */
  lemma PlaceActivityEffect(tm: map<string, Constraints.MatrixTable>, t: Task, act: Activity, st: SimState, taskStartMs: int)
    ensures var r := PlaceActivity(tm, t, act, st, taskStartMs);
      |r.0.assignments| == |st.assignments| ==> r == (st, taskStartMs)
    ensures var r := PlaceActivity(tm, t, act, st, taskStartMs);
      |r.0.assignments| == |st.assignments| <==>
      forall c :: c in act.CandidateResources() && c in st.available ==> StartOn(st.available, c, taskStartMs) >= Calendars.I64Max
    ensures var r := PlaceActivity(tm, t, act, st, taskStartMs);
      |r.0.assignments| != |st.assignments| ==>
      |r.0.assignments| == |st.assignments| + 1 && r.0.assignments[..|st.assignments|] == st.assignments &&
      var a := r.0.assignments[|st.assignments|];
      a.activityId == act.id && a.taskId == t.id &&
      a.resourceId in act.CandidateResources() && a.resourceId in st.available &&
      a.startMs == StartOn(st.available, a.resourceId, taskStartMs) &&
      (forall c :: c in act.CandidateResources() && c in st.available ==> a.startMs <= StartOn(st.available, c, taskStartMs)) &&
      a.setupMs == SetupTime(tm, st, a.resourceId, t.category) &&
      a.endMs == a.startMs + a.setupMs + act.duration.processMs &&
      r.1 == a.endMs &&
      r.0.available == st.available[a.resourceId := a.endMs] &&
      r.0.lastCategory == st.lastCategory[a.resourceId := t.category]
  {
    var cands := act.CandidateResources();
    EarliestCandidateIsEarliest(cands, st.available, taskStartMs, |cands|);
    var r := PlaceActivity(tm, t, act, st, taskStartMs);
    assert r.0.assignments[..|st.assignments|] == st.assignments;
    assert forall c :: c in cands ==> exists k :: 0 <= k < |cands| && cands[k] == c;
  }

  /** The first `n` activities of `t`, each starting after the previous one ends. */
  function PlaceActivities(tm: map<string, Constraints.MatrixTable>, t: Task, n: nat, st: SimState, taskStartMs: int): (SimState, int)
    requires n <= |t.activities|
  {
    if n == 0 then (st, taskStartMs)
    else
      var p := PlaceActivities(tm, t, n - 1, st, taskStartMs);
      PlaceActivity(tm, t, t.activities[n - 1], p.0, p.1)
  }

  /** A task may start at its release time, and never before the schedule start. */
  function TaskStart(t: Task, startMs: int): (r: int)
    ensures r >= startMs
    ensures t.releaseTime.Some? ==> r >= t.releaseTime.value
  {
    Max(t.releaseTime.UnwrapOr(startMs), startMs)
  }

  /** The first `k` tasks of `order`, one after the other. */
  function PlaceTasks(tm: map<string, Constraints.MatrixTable>, tasks: seq<Task>, order: seq<nat>, k: nat, st: SimState, startMs: int): SimState
    requires k <= |order| && InRange(order, |tasks|)
  {
    if k == 0 then st
    else
      var t := tasks[order[k - 1]];
      PlaceActivities(tm, t, |t.activities|, PlaceTasks(tm, tasks, order, k - 1, st, startMs), TaskStart(t, startMs)).0
  }

  /** The availability map after initialisation: every listed resource free at `startMs`. */
  function InitialAvailability(resources: seq<Resource>, startMs: int): map<string, int>
  {
    if resources == [] then map[]
    else InitialAvailability(resources[..|resources| - 1], startMs)[resources[|resources| - 1].id := startMs]
  }

  /** Exactly the listed resources are known, each free at `startMs`. */
  lemma {:induction false} InitialAvailabilityListsResources(resources: seq<Resource>, startMs: int)
    ensures var m := InitialAvailability(resources, startMs);
      (forall id :: id in m <==> Listed(resources, id)) &&
      (forall id :: id in m ==> m[id] == startMs)
  {
    if resources != [] {
      var init := resources[..|resources| - 1];
      InitialAvailabilityListsResources(init, startMs);
      assert forall k :: 0 <= k < |init| ==> init[k] == resources[k];
      var last := resources[|resources| - 1];
      var m := InitialAvailability(resources, startMs);
      assert m == InitialAvailability(init, startMs)[last.id := startMs];
      forall id | Listed(resources, id)
        ensures id in m
      {
        var q :| 0 <= q < |resources| && resources[q].id == id;
        if q < |init| {
          assert Listed(init, id);
        }
      }
      forall id | id in m
        ensures Listed(resources, id) && m[id] == startMs
      {
        if id != last.id {
          assert id in InitialAvailability(init, startMs);
          assert Listed(init, id);
          var q :| 0 <= q < |init| && init[q].id == id;
          assert resources[q].id == id;
        } else {
          assert resources[|resources| - 1].id == id;
        }
      }
    }
  }

  /** The loop that makes every listed resource free at `startMs`. */
  method InitAvailability(resources: seq<Resource>, startMs: int) returns (available: map<string, int>)
    ensures available == InitialAvailability(resources, startMs)
  {
    available := map[];
    for i := 0 to |resources|
      invariant available == InitialAvailability(resources[..i], startMs)
    {
      assert resources[..i + 1][..i] == resources[..i];
      available := available[resources[i].id := startMs];
    }
    assert resources[..|resources|] == resources;
  }

  /** Sort keys for the default order: `Finite(-priority)`, so a higher priority comes first. */
  function PriorityKeys(tasks: seq<Task>): (r: seq<SortKey>)
    ensures |r| == |tasks| && UniformKeys(r)
    ensures forall i :: 0 <= i < |tasks| ==> r[i] == SortKey([Finite(-tasks[i].priority)], tasks[i].id)
  {
    seq(|tasks|, i requires 0 <= i < |tasks| => SortKey([Finite(-tasks[i].priority)], tasks[i].id))
  }

  datatype SimpleScheduler = SimpleScheduler(transitionMatrices: Constraints.TransitionMatrixCollection, ruleEngine: Option<RuleEngine>)
  {
    function WithTransitionMatrices(m: Constraints.TransitionMatrixCollection): (s: SimpleScheduler)
      ensures s.transitionMatrices == m && s.ruleEngine == ruleEngine
    {
      this.(transitionMatrices := m)
    }

    function WithRuleEngine(e: RuleEngine): (s: SimpleScheduler)
      ensures s.ruleEngine == Some(e) && s.transitionMatrices == transitionMatrices
    {
      this.(ruleEngine := Some(e))
    }

    /** `sort_tasks`: the rule engine's order at the start time, or descending priority. */
    function TaskOrder(tasks: seq<Task>, startMs: int): (r: seq<nat>)
      ensures |r| == |tasks| && InRange(r, |tasks|)
    {
      if ruleEngine.Some? then ruleEngine.value.SortOrder(tasks, AtTime(startMs))
      else StableSortIndices(PriorityKeys(tasks), NextRule, |tasks|)
    }

    /** The final state of `schedule(tasks, resources, startMs)`. */
    function Run(tasks: seq<Task>, resources: seq<Resource>, startMs: int): SimState
      reads transitionMatrices, transitionMatrices.matrices.Values
    {
      var order := TaskOrder(tasks, startMs);
      PlaceTasks(transitionMatrices.Tables(), tasks, order, |order|,
                 SimState(InitialAvailability(resources, startMs), map[], []), startMs)
    }

    /** The assignments `Run` adds, one block per task in task order. */
    ghost function RunBlocks(tasks: seq<Task>, resources: seq<Resource>, startMs: int): seq<seq<Assignment>>
      reads transitionMatrices, transitionMatrices.matrices.Values
    {
      var order := TaskOrder(tasks, startMs);
      TaskBlocks(transitionMatrices.Tables(), tasks, order, |order|,
                 SimState(InitialAvailability(resources, startMs), map[], []), startMs)
    }

    method SortTasks(tasks: seq<Task>, startMs: int) returns (order: seq<nat>)
      ensures order == TaskOrder(tasks, startMs)
    {
      if ruleEngine.Some? {
        var ctx := AtTime(startMs);
        order := ruleEngine.value.SortIndices(tasks, ctx);
      } else {
        order := SortByKeys(PriorityKeys(tasks), NextRule);
      }
    }

    /** The candidate scan of `schedule`: strict `<` against a best that starts at `i64::MAX`. */
    static method ChooseResource(cands: seq<string>, available: map<string, int>, taskStartMs: int)
      returns (best: Option<string>, bestStart: int)
      ensures Choice(best, bestStart) == EarliestCandidate(cands, available, taskStartMs, |cands|)
    {
      best := None;
      bestStart := Calendars.I64Max;
      for i := 0 to |cands|
        invariant Choice(best, bestStart) == EarliestCandidate(cands, available, taskStartMs, i)
      {
        var candidate := cands[i];
        if candidate in available {
          var actualStart := Max(available[candidate], taskStartMs);
          if actualStart < bestStart {
            bestStart := actualStart;
            best := Some(candidate);
          }
        }
      }
    }

    /** One activity: choose the resource, compute the setup and the end, record the assignment. */
    method PlaceActivityStep(s: Schedule, ghost tables: map<string, Constraints.MatrixTable>, t: Task, act: Activity,
                             available: map<string, int>, lastCategory: map<string, string>, taskStart: int)
      returns (available': map<string, int>, lastCategory': map<string, string>, taskStart': int)
      requires tables == transitionMatrices.Tables()
      modifies s
      ensures (SimState(available', lastCategory', s.assignments), taskStart') ==
              PlaceActivity(tables, t, act, SimState(available, lastCategory, old(s.assignments)), taskStart)
      ensures s.violations == old(s.violations)
    {
      available', lastCategory', taskStart' := available, lastCategory, taskStart;
      var cands := act.CandidateResources();
      if cands == [] {
        return;
      }
      var best, bestStart := ChooseResource(cands, available, taskStart);
      if best.Some? {
        var res := best.value;
        var setup := if res in lastCategory then transitionMatrices.GetTransitionTime(res, lastCategory[res], t.category) else 0;
        var end := bestStart + setup + act.duration.processMs;
        s.AddAssignment(NewAssignment(act.id, t.id, res, bestStart, end).WithSetup(setup));
        available' := available[res := end];
        lastCategory' := lastCategory[res := t.category];
        taskStart' := end;
      }
    }

    /** The activities of one task, in the order the task lists them. */
    method PlaceTask(s: Schedule, ghost tables: map<string, Constraints.MatrixTable>, t: Task, startMs: int,
                     available: map<string, int>, lastCategory: map<string, string>)
      returns (available': map<string, int>, lastCategory': map<string, string>)
      requires tables == transitionMatrices.Tables()
      modifies s
      ensures SimState(available', lastCategory', s.assignments) ==
              PlaceActivities(tables, t, |t.activities|, SimState(available, lastCategory, old(s.assignments)), TaskStart(t, startMs)).0
      ensures s.violations == old(s.violations)
    {
      available', lastCategory' := available, lastCategory;
      var taskStart := Max(t.releaseTime.UnwrapOr(startMs), startMs);
      ghost var st0 := SimState(available, lastCategory, old(s.assignments));
      for j := 0 to |t.activities|
        invariant (SimState(available', lastCategory', s.assignments), taskStart) ==
                  PlaceActivities(tables, t, j, st0, TaskStart(t, startMs))
        invariant s.violations == old(s.violations)
        invariant tables == transitionMatrices.Tables()
      {
        available', lastCategory', taskStart := PlaceActivityStep(s, tables, t, t.activities[j], available', lastCategory', taskStart);
      }
    }

    /** `schedule`: places every task in order and returns the schedule. */
    method ScheduleTasks(tasks: seq<Task>, resources: seq<Resource>, startMs: int) returns (s: Schedule)
      ensures fresh(s)
      ensures s.assignments == Run(tasks, resources, startMs).assignments && s.violations == []
    {
      ghost var tables := transitionMatrices.Tables();
      var available := InitAvailability(resources, startMs);
      var order := SortTasks(tasks, startMs);
      ghost var expected := PlaceTasks(tables, tasks, order, |order|, SimState(available, map[], []), startMs);
      assert expected == Run(tasks, resources, startMs);
      s := new Schedule();
      PlaceAll(s, tables, tasks, order, startMs, available);
      assert s.assignments == expected.assignments;
    }

    /** The tasks in `order`, each with the activities it lists, onto an empty schedule. */
    method PlaceAll(s: Schedule, ghost tables: map<string, Constraints.MatrixTable>, tasks: seq<Task>, order: seq<nat>,
                    startMs: int, available0: map<string, int>)
      requires tables == transitionMatrices.Tables()
      requires InRange(order, |tasks|) && s.assignments == [] && s.violations == []
      modifies s
      ensures s.assignments == PlaceTasks(tables, tasks, order, |order|, SimState(available0, map[], []), startMs).assignments
      ensures s.violations == []
    {
      var available := available0;
      var lastCategory: map<string, string> := map[];
      ghost var st0 := SimState(available0, map[], []);
      for k := 0 to |order|
        invariant SimState(available, lastCategory, s.assignments) == PlaceTasks(tables, tasks, order, k, st0, startMs)
        invariant s.violations == []
        invariant tables == transitionMatrices.Tables()
      {
        available, lastCategory := PlaceTask(s, tables, tasks[order[k]], startMs, available, lastCategory);
      }
    }

    /** `schedule_request`: the request's tasks, resources, start and matrices, with this scheduler's engine. */
    method ScheduleFromRequest(request: ScheduleRequest) returns (s: Schedule)
      ensures fresh(s) && s.violations == []
      ensures s.assignments ==
        SimpleScheduler(request.transitionMatrices, ruleEngine).Run(request.tasks, request.resources, request.startTimeMs).assignments
    {
      var scheduler := SimpleScheduler(request.transitionMatrices, ruleEngine);
      s := scheduler.ScheduleTasks(request.tasks, request.resources, request.startTimeMs);
    }
  }

  /**
   * The assignments added for one task: all of that task, the first
   * starting no earlier than `ts`, each next one starting no earlier than
   * the previous one ends, and `end` the last end (`ts` when none).
   */
  ghost predicate ChainOf(added: seq<Assignment>, taskId: string, ts: int, end: int)
  {
    (forall k :: 0 <= k < |added| ==> added[k].taskId == taskId) &&
    (added != [] ==> added[0].startMs >= ts) &&
    (forall k :: 0 <= k < |added| - 1 ==> added[k].endMs <= added[k + 1].startMs) &&
    end == (if added == [] then ts else added[|added| - 1].endMs)
  }

  /** One more activity keeps the chain: it adds nothing, or one assignment starting after the last end. */
  lemma ChainStep(base: seq<Assignment>, before: seq<Assignment>, after: seq<Assignment>,
                  endBefore: int, endAfter: int, taskId: string, ts: int, n: nat)
    requires n > 0 && |base| <= |before| <= |base| + n - 1 && before[..|base|] == base
    requires ChainOf(before[|base|..], taskId, ts, endBefore)
    requires |after| == |before| ==> after == before && endAfter == endBefore
    requires |after| != |before| ==>
      |after| > |before| && after == before + [after[|before|]] && after[|before|].taskId == taskId &&
      after[|before|].startMs >= endBefore && endAfter == after[|before|].endMs
    ensures |base| <= |after| <= |base| + n && after[..|base|] == base
    ensures ChainOf(after[|base|..], taskId, ts, endAfter)
  {
    if |after| != |before| {
      var a := after[|before|];
      assert after[|base|..] == before[|base|..] + [a];
      assert after[..|base|] == before[..|base|];
    }
  }

  /**
   * Placing the first `n` activities of a task appends at most `n`
   * assignments that chain as `ChainOf` says from the task start, and the
   * task may then proceed from the last end.
   */
  lemma {:induction false} PlaceActivitiesChainsTask(tm: map<string, Constraints.MatrixTable>, t: Task, n: nat, st: SimState, ts: int)
    requires n <= |t.activities|
    ensures var r := PlaceActivities(tm, t, n, st, ts);
      |st.assignments| <= |r.0.assignments| <= |st.assignments| + n &&
      r.0.assignments[..|st.assignments|] == st.assignments &&
      ChainOf(r.0.assignments[|st.assignments|..], t.id, ts, r.1)
  {
    if n > 0 {
      PlaceActivitiesChainsTask(tm, t, n - 1, st, ts);
      var p := PlaceActivities(tm, t, n - 1, st, ts);
      PlaceActivityChains(tm, t, t.activities[n - 1], p.0, p.1);
      var r := PlaceActivities(tm, t, n, st, ts);
      ChainStep(st.assignments, p.0.assignments, r.0.assignments, p.1, r.1, t.id, ts, n);
    }
  }

  /**
   * One activity either leaves the state and the task start as they are, or
   * appends one assignment of the task that starts no earlier than the task
   * may start; the task may then proceed from its end.
   */
  lemma PlaceActivityChains(tm: map<string, Constraints.MatrixTable>, t: Task, act: Activity, st: SimState, ts: int)
    ensures var r := PlaceActivity(tm, t, act, st, ts);
      |r.0.assignments| == |st.assignments| ==> r.0.assignments == st.assignments && r.1 == ts
    ensures var r := PlaceActivity(tm, t, act, st, ts);
      |r.0.assignments| != |st.assignments| ==>
      var a := r.0.assignments[|st.assignments|];
      r.0.assignments == st.assignments + [a] && a.taskId == t.id && a.startMs >= ts && r.1 == a.endMs
  {
    var cands := act.CandidateResources();
    var choice := EarliestCandidate(cands, st.available, ts, |cands|);
    EarliestCandidateIsEarliest(cands, st.available, ts, |cands|);
    if cands != [] && choice.resource.Some? {
      var k :| 0 <= k < |cands| && cands[k] == choice.resource.value && cands[k] in st.available &&
        choice.startMs == StartOn(st.available, cands[k], ts);
    }
  }

  /** Whether some assignment of `s` lies on resource `r`. */
  ghost predicate UsesResource(s: seq<Assignment>, r: string)
  {
    exists k :: 0 <= k < |s| && s[k].resourceId == r
  }

  /** A resource has a last category exactly when an assignment lies on it. */
  ghost predicate TracksCategories(st: SimState)
  {
    (forall r :: r in st.lastCategory ==> UsesResource(st.assignments, r)) &&
    (forall k :: 0 <= k < |st.assignments| ==> st.assignments[k].resourceId in st.lastCategory)
  }

  lemma PlaceActivityTracksCategories(tm: map<string, Constraints.MatrixTable>, t: Task, act: Activity, st: SimState, ts: int)
    requires TracksCategories(st)
    ensures TracksCategories(PlaceActivity(tm, t, act, st, ts).0)
  {
    PlaceActivityEffect(tm, t, act, st, ts);
    var st' := PlaceActivity(tm, t, act, st, ts).0;
    if |st'.assignments| != |st.assignments| {
      var n := |st.assignments|;
      assert forall k :: 0 <= k < n ==> st'.assignments[k] == st.assignments[k];
      forall r | r in st'.lastCategory
        ensures UsesResource(st'.assignments, r)
      {
        if r != st'.assignments[n].resourceId {
          var k :| 0 <= k < n && st.assignments[k].resourceId == r;
          assert st'.assignments[k].resourceId == r;
        }
      }
    }
  }

  /** The first use of a resource needs no setup; a later one the transition from its last category. */
  lemma FirstUseHasNoSetup(tm: map<string, Constraints.MatrixTable>, t: Task, act: Activity, st: SimState, ts: int)
    requires TracksCategories(st)
    ensures var st' := PlaceActivity(tm, t, act, st, ts).0;
      |st'.assignments| != |st.assignments| ==>
      var a := st'.assignments[|st.assignments|];
      (!UsesResource(st.assignments, a.resourceId) ==> a.setupMs == 0) &&
      (UsesResource(st.assignments, a.resourceId) ==>
         a.setupMs == Constraints.TableTime(tm, a.resourceId, st.lastCategory[a.resourceId], t.category))
  {
    PlaceActivityEffect(tm, t, act, st, ts);
    var st' := PlaceActivity(tm, t, act, st, ts).0;
    if |st'.assignments| != |st.assignments| {
      var a := st'.assignments[|st.assignments|];
      if UsesResource(st.assignments, a.resourceId) {
        var k :| 0 <= k < |st.assignments| && st.assignments[k].resourceId == a.resourceId;
      }
    }
  }

  /** Every setup entry and default is non-negative. */
  predicate NonNegativeSetups(tm: map<string, Constraints.MatrixTable>)
  {
    forall r :: r in tm ==>
      tm[r].defaultMs >= 0 && (forall p :: p in tm[r].transitions ==> tm[r].transitions[p] >= 0)
  }

  /** Every activity of `t` has a non-negative processing time. */
  predicate NonNegativeProcessing(t: Task)
  {
    forall k :: 0 <= k < |t.activities| ==> t.activities[k].duration.processMs >= 0
  }

  /**
   * What the loop state keeps when no duration is negative: every resource
   * is free no earlier than the schedule start and no earlier than any of
   * its assignments ends; every assignment lies on a known resource and
   * starts no earlier than the schedule start and no later than it ends,
   * with a non-negative setup; and no two assignments on one resource overlap.
   */
  predicate Feasible(st: SimState, startMs: int)
  {
    (forall r :: r in st.available ==> st.available[r] >= startMs) &&
    (forall k :: 0 <= k < |st.assignments| ==>
       st.assignments[k].resourceId in st.available &&
       st.assignments[k].endMs <= st.available[st.assignments[k].resourceId] &&
       startMs <= st.assignments[k].startMs <= st.assignments[k].endMs &&
       0 <= st.assignments[k].setupMs) &&
    (forall i, j :: 0 <= i < j < |st.assignments| && st.assignments[i].resourceId == st.assignments[j].resourceId ==>
       st.assignments[i].endMs <= st.assignments[j].startMs)
  }

  /** Appending an assignment that starts once its resource is free keeps the state feasible. */
  lemma FeasibleExtend(st: SimState, a: Assignment, categories: map<string, string>, startMs: int)
    requires Feasible(st, startMs) && a.resourceId in st.available
    requires st.available[a.resourceId] <= a.startMs <= a.endMs && 0 <= a.setupMs
    ensures Feasible(SimState(st.available[a.resourceId := a.endMs], categories, st.assignments + [a]), startMs)
  {
    var st' := SimState(st.available[a.resourceId := a.endMs], categories, st.assignments + [a]);
    var n := |st.assignments|;
    assert forall k :: 0 <= k < n ==> st'.assignments[k] == st.assignments[k];
    assert st'.assignments[n] == a;
  }

  lemma PlaceActivityFeasible(tm: map<string, Constraints.MatrixTable>, t: Task, act: Activity, st: SimState, ts: int, startMs: int)
    requires NonNegativeSetups(tm) && act.duration.processMs >= 0
    requires Feasible(st, startMs) && ts >= startMs
    ensures Feasible(PlaceActivity(tm, t, act, st, ts).0, startMs)
    ensures PlaceActivity(tm, t, act, st, ts).1 >= startMs
    ensures PlaceActivity(tm, t, act, st, ts).0.available.Keys == st.available.Keys
  {
    PlaceActivityEffect(tm, t, act, st, ts);
    var r := PlaceActivity(tm, t, act, st, ts);
    if |r.0.assignments| != |st.assignments| {
      var a := r.0.assignments[|st.assignments|];
      assert a.setupMs >= 0 by {
        if a.resourceId in st.lastCategory && a.resourceId in tm {
          var from := st.lastCategory[a.resourceId];
          assert (from, t.category) in tm[a.resourceId].transitions ==>
            tm[a.resourceId].transitions[(from, t.category)] >= 0;
        }
      }
      assert r.0.assignments == st.assignments + [a];
      FeasibleExtend(st, a, r.0.lastCategory, startMs);
    }
  }

  lemma {:induction false} PlaceActivitiesFeasible(tm: map<string, Constraints.MatrixTable>, t: Task, n: nat, st: SimState, ts: int, startMs: int)
    requires n <= |t.activities| && NonNegativeSetups(tm) && NonNegativeProcessing(t)
    requires Feasible(st, startMs) && TracksCategories(st) && ts >= startMs
    ensures Feasible(PlaceActivities(tm, t, n, st, ts).0, startMs)
    ensures TracksCategories(PlaceActivities(tm, t, n, st, ts).0)
    ensures PlaceActivities(tm, t, n, st, ts).1 >= startMs
    ensures PlaceActivities(tm, t, n, st, ts).0.available.Keys == st.available.Keys
  {
    if n > 0 {
      PlaceActivitiesFeasible(tm, t, n - 1, st, ts, startMs);
      var p := PlaceActivities(tm, t, n - 1, st, ts);
      PlaceActivityFeasible(tm, t, t.activities[n - 1], p.0, p.1, startMs);
      PlaceActivityTracksCategories(tm, t, t.activities[n - 1], p.0, p.1);
    }
  }

  lemma {:induction false} PlaceTasksFeasible(tm: map<string, Constraints.MatrixTable>, tasks: seq<Task>, order: seq<nat>, k: nat, st: SimState, startMs: int)
    requires k <= |order| && InRange(order, |tasks|) && NonNegativeSetups(tm)
    requires forall i :: 0 <= i < |tasks| ==> NonNegativeProcessing(tasks[i])
    requires Feasible(st, startMs) && TracksCategories(st)
    ensures Feasible(PlaceTasks(tm, tasks, order, k, st, startMs), startMs)
    ensures TracksCategories(PlaceTasks(tm, tasks, order, k, st, startMs))
    ensures PlaceTasks(tm, tasks, order, k, st, startMs).available.Keys == st.available.Keys
  {
    if k > 0 {
      PlaceTasksFeasible(tm, tasks, order, k - 1, st, startMs);
      var t := tasks[order[k - 1]];
      PlaceActivitiesFeasible(tm, t, |t.activities|, PlaceTasks(tm, tasks, order, k - 1, st, startMs), TaskStart(t, startMs), startMs);
    }
  }

  /**
   * `a` lasts its setup plus the processing time of an activity carrying its
   * activity id, in a task carrying its task id.
   */
  ghost predicate Timed(tasks: seq<Task>, a: Assignment)
  {
    exists i, j :: 0 <= i < |tasks| && 0 <= j < |tasks[i].activities| &&
      tasks[i].id == a.taskId && tasks[i].activities[j].id == a.activityId &&
      a.endMs == a.startMs + a.setupMs + tasks[i].activities[j].duration.processMs
  }

  lemma {:induction false} PlaceActivitiesTimed(tm: map<string, Constraints.MatrixTable>, tasks: seq<Task>, i: nat, n: nat, st: SimState, ts: int)
    requires i < |tasks| && n <= |tasks[i].activities|
    requires forall x :: x in st.assignments ==> Timed(tasks, x)
    ensures forall x :: x in PlaceActivities(tm, tasks[i], n, st, ts).0.assignments ==> Timed(tasks, x)
  {
    if n > 0 {
      PlaceActivitiesTimed(tm, tasks, i, n - 1, st, ts);
      var t := tasks[i];
      var p := PlaceActivities(tm, t, n - 1, st, ts);
      PlaceActivityEffect(tm, t, t.activities[n - 1], p.0, p.1);
      var r := PlaceActivity(tm, t, t.activities[n - 1], p.0, p.1);
      if |r.0.assignments| != |p.0.assignments| {
        var a := r.0.assignments[|p.0.assignments|];
        assert t.activities[n - 1].id == a.activityId;
        assert Timed(tasks, a);
        assert r.0.assignments == p.0.assignments + [a];
      }
    }
  }

  lemma {:induction false} PlaceTasksTimed(tm: map<string, Constraints.MatrixTable>, tasks: seq<Task>, order: seq<nat>, k: nat, st: SimState, startMs: int)
    requires k <= |order| && InRange(order, |tasks|)
    requires forall x :: x in st.assignments ==> Timed(tasks, x)
    ensures forall x :: x in PlaceTasks(tm, tasks, order, k, st, startMs).assignments ==> Timed(tasks, x)
  {
    if k > 0 {
      PlaceTasksTimed(tm, tasks, order, k - 1, st, startMs);
      var t := tasks[order[k - 1]];
      PlaceActivitiesTimed(tm, tasks, order[k - 1], |t.activities|, PlaceTasks(tm, tasks, order, k - 1, st, startMs), TaskStart(t, startMs));
    }
  }

  /**
   * Every assignment of a run ends at its start plus its setup plus the
   * processing time of its activity.
   */
  lemma RunTimesActivities(sch: SimpleScheduler, tasks: seq<Task>, resources: seq<Resource>, startMs: int)
    ensures var s := sch.Run(tasks, resources, startMs).assignments;
      forall k :: 0 <= k < |s| ==> Timed(tasks, s[k])
  {
    var order := sch.TaskOrder(tasks, startMs);
    PlaceTasksTimed(sch.transitionMatrices.Tables(), tasks, order, |order|,
                    SimState(InitialAvailability(resources, startMs), map[], []), startMs);
  }

  /** Every assignment of a well-formed run starts no earlier than the start of a task it belongs to. */
  lemma RunRespectsTaskStart(sch: SimpleScheduler, tasks: seq<Task>, resources: seq<Resource>, startMs: int)
    requires forall x :: x in sch.Run(tasks, resources, startMs).assignments ==> x.startMs <= x.endMs
    ensures var s := sch.Run(tasks, resources, startMs).assignments;
      var order := sch.TaskOrder(tasks, startMs);
      forall k :: 0 <= k < |s| ==>
        exists i :: 0 <= i < |order| && s[k].taskId == tasks[order[i]].id && s[k].startMs >= TaskStart(tasks[order[i]], startMs)
  {
    var s := sch.Run(tasks, resources, startMs).assignments;
    var order := sch.TaskOrder(tasks, startMs);
    RunChainsTasks(sch, tasks, resources, startMs);
    var b := sch.RunBlocks(tasks, resources, startMs);
    forall k | 0 <= k < |s|
      ensures exists i :: 0 <= i < |order| && s[k].taskId == tasks[order[i]].id && s[k].startMs >= TaskStart(tasks[order[i]], startMs)
    {
      ConcatMember(b, k);
      var i, j :| 0 <= i < |b| && 0 <= j < |b[i]| && s[k] == b[i][j];
      ConcatContains(b, i);
      ChainStartsAfter(b[i], tasks[order[i]].id, TaskStart(tasks[order[i]], startMs), j);
    }
  }

  /** Some resource of the list has this id. */
  ghost predicate Listed(resources: seq<Resource>, id: string)
  {
    exists q :: 0 <= q < |resources| && resources[q].id == id
  }

  /**
   * The schedule `schedule` builds, when no setup or processing time is
   * negative: no two assignments on one resource overlap, every assignment
   * lies on a listed resource, and none starts before the schedule start or
   * ends before it starts; nor before the start of a task it belongs to,
   * which is its release time when it has one. Each lasts its non-negative
   * setup plus the processing time of its activity.
   */
  lemma RunIsFeasible(sch: SimpleScheduler, tasks: seq<Task>, resources: seq<Resource>, startMs: int)
    requires NonNegativeSetups(sch.transitionMatrices.Tables())
    requires forall i :: 0 <= i < |tasks| ==> NonNegativeProcessing(tasks[i])
    ensures var s := sch.Run(tasks, resources, startMs).assignments;
      (forall k :: 0 <= k < |s| ==> startMs <= s[k].startMs <= s[k].endMs) &&
      (forall k :: 0 <= k < |s| ==> 0 <= s[k].setupMs && Timed(tasks, s[k])) &&
      (forall k :: 0 <= k < |s| ==> Listed(resources, s[k].resourceId)) &&
      (forall i, j :: 0 <= i < j < |s| && s[i].resourceId == s[j].resourceId ==> s[i].endMs <= s[j].startMs)
    ensures var s := sch.Run(tasks, resources, startMs).assignments;
      var order := sch.TaskOrder(tasks, startMs);
      forall k :: 0 <= k < |s| ==>
        exists i :: 0 <= i < |order| && s[k].taskId == tasks[order[i]].id && s[k].startMs >= TaskStart(tasks[order[i]], startMs)
  {
    var tm := sch.transitionMatrices.Tables();
    var order := sch.TaskOrder(tasks, startMs);
    var st0 := SimState(InitialAvailability(resources, startMs), map[], []);
    InitialAvailabilityListsResources(resources, startMs);
    forall r | r in st0.available
      ensures st0.available[r] >= startMs
    {
      assert r in InitialAvailability(resources, startMs);
    }
    PlaceTasksFeasible(tm, tasks, order, |order|, st0, startMs);
    var s := sch.Run(tasks, resources, startMs).assignments;
    forall k | 0 <= k < |s|
      ensures Listed(resources, s[k].resourceId)
    {
      assert s[k].resourceId in st0.available;
    }
    forall x | x in s
      ensures x.startMs <= x.endMs
    {
      var k :| 0 <= k < |s| && s[k] == x;
    }
    RunRespectsTaskStart(sch, tasks, resources, startMs);
    RunTimesActivities(sch, tasks, resources, startMs);
  }

  /** A whole block of one task chains from `ts`, ending at its own last end. */
  ghost predicate IsChain(added: seq<Assignment>, taskId: string, ts: int)
  {
    ChainOf(added, taskId, ts, if added == [] then ts else added[|added| - 1].endMs)
  }

  /** A chain that ends at `end` is a whole chain. */
  lemma ChainIsChain(added: seq<Assignment>, taskId: string, ts: int, end: int)
    requires ChainOf(added, taskId, ts, end)
    ensures IsChain(added, taskId, ts)
  {
  }

  /** The blocks, one after the other. */
  function Concat(bs: seq<seq<Assignment>>): seq<Assignment>
  {
    if bs == [] then [] else Concat(bs[..|bs| - 1]) + bs[|bs| - 1]
  }

  /** The assignments each of the first `k` tasks of `order` appends, one block per task. */
  ghost function TaskBlocks(tm: map<string, Constraints.MatrixTable>, tasks: seq<Task>, order: seq<nat>, k: nat,
                            st: SimState, startMs: int): (b: seq<seq<Assignment>>)
    requires k <= |order| && InRange(order, |tasks|)
    ensures |b| == k
  {
    if k == 0 then []
    else
      var before := PlaceTasks(tm, tasks, order, k - 1, st, startMs);
      var t := tasks[order[k - 1]];
      PlaceActivitiesChainsTask(tm, t, |t.activities|, before, TaskStart(t, startMs));
      var after := PlaceActivities(tm, t, |t.activities|, before, TaskStart(t, startMs)).0;
      TaskBlocks(tm, tasks, order, k - 1, st, startMs) + [after.assignments[|before.assignments|..]]
  }

  /** The block of `order[i]` holds at most one assignment per activity of that task and chains from its start. */
  ghost predicate BlocksChain(tasks: seq<Task>, order: seq<nat>, bs: seq<seq<Assignment>>, startMs: int)
    requires |bs| <= |order| && InRange(order, |tasks|)
  {
    forall i :: 0 <= i < |bs| ==>
      |bs[i]| <= |tasks[order[i]].activities| && IsChain(bs[i], tasks[order[i]].id, TaskStart(tasks[order[i]], startMs))
  }

  /** One more chaining block keeps `BlocksChain`. */
  lemma BlocksChainSnoc(tasks: seq<Task>, order: seq<nat>, bs: seq<seq<Assignment>>, blk: seq<Assignment>, startMs: int)
    requires |bs| < |order| && InRange(order, |tasks|) && BlocksChain(tasks, order, bs, startMs)
    requires |blk| <= |tasks[order[|bs|]].activities| && IsChain(blk, tasks[order[|bs|]].id, TaskStart(tasks[order[|bs|]], startMs))
    ensures BlocksChain(tasks, order, bs + [blk], startMs)
  {
    var bs' := bs + [blk];
    forall i | 0 <= i < |bs'|
      ensures |bs'[i]| <= |tasks[order[i]].activities| && IsChain(bs'[i], tasks[order[i]].id, TaskStart(tasks[order[i]], startMs))
    {
      if i < |bs| {
        assert bs'[i] == bs[i];
      }
    }
  }

  /** A sequence that starts with `ys` is `ys` followed by the rest. */
  lemma SplitAt(xs: seq<Assignment>, ys: seq<Assignment>)
    requires |ys| <= |xs| && xs[..|ys|] == ys
    ensures xs == ys + xs[|ys|..]
  {
  }

  /** Concatenating one more block appends it. */
  lemma ConcatSnoc(bs: seq<seq<Assignment>>, blk: seq<Assignment>)
    ensures Concat(bs + [blk]) == Concat(bs) + blk
  {
    assert (bs + [blk])[..|bs|] == bs;
  }

  /** The induction step of `PlaceTasksBlocks`, over plain sequences. */
  lemma BlocksInduct(tasks: seq<Task>, order: seq<nat>, base: seq<Assignment>, before: seq<Assignment>, after: seq<Assignment>,
                     prev: seq<seq<Assignment>>, bs: seq<seq<Assignment>>, startMs: int)
    requires |prev| < |order| && InRange(order, |tasks|)
    requires before == base + Concat(prev) && BlocksChain(tasks, order, prev, startMs)
    requires |before| <= |after| <= |before| + |tasks[order[|prev|]].activities| && after == before + after[|before|..]
    requires bs == prev + [after[|before|..]]
    requires IsChain(after[|before|..], tasks[order[|prev|]].id, TaskStart(tasks[order[|prev|]], startMs))
    ensures after == base + Concat(bs) && BlocksChain(tasks, order, bs, startMs)
  {
    ConcatSnoc(prev, after[|before|..]);
    BlocksChainSnoc(tasks, order, prev, after[|before|..], startMs);
  }

  /** Task `k - 1` of `order` extends what `PlaceTasksBlocks` states for the tasks before it by its block. */
  lemma PlaceTasksStep(tm: map<string, Constraints.MatrixTable>, tasks: seq<Task>, order: seq<nat>, k: nat,
                       st: SimState, startMs: int)
    requires 0 < k <= |order| && InRange(order, |tasks|)
    ensures PlaceTasks(tm, tasks, order, k, st, startMs).assignments == st.assignments + Concat(TaskBlocks(tm, tasks, order, k, st, startMs))
    ensures BlocksChain(tasks, order, TaskBlocks(tm, tasks, order, k, st, startMs), startMs)
    decreases k, 0
  {
    PlaceTasksBlocks(tm, tasks, order, k - 1, st, startMs);
    var before := PlaceTasks(tm, tasks, order, k - 1, st, startMs);
    var t := tasks[order[k - 1]];
    var ts := TaskStart(t, startMs);
    PlaceActivitiesChainsTask(tm, t, |t.activities|, before, ts);
    var r := PlaceActivities(tm, t, |t.activities|, before, ts);
    var blk := r.0.assignments[|before.assignments|..];
    SplitAt(r.0.assignments, before.assignments);
    ChainIsChain(blk, t.id, ts, r.1);
    var prev := TaskBlocks(tm, tasks, order, k - 1, st, startMs);
    BlocksInduct(tasks, order, st.assignments, before.assignments, r.0.assignments, prev, prev + [blk], startMs);
  }

  /**
   * Placing the first `k` tasks of `order` appends one block per task, in
   * that order; the block of `order[i]` holds at most one assignment per
   * activity of that task and chains from the task's start.
   */
  lemma {:induction false} PlaceTasksBlocks(tm: map<string, Constraints.MatrixTable>, tasks: seq<Task>, order: seq<nat>, k: nat,
                                             st: SimState, startMs: int)
    requires k <= |order| && InRange(order, |tasks|)
    ensures PlaceTasks(tm, tasks, order, k, st, startMs).assignments == st.assignments + Concat(TaskBlocks(tm, tasks, order, k, st, startMs))
    ensures BlocksChain(tasks, order, TaskBlocks(tm, tasks, order, k, st, startMs), startMs)
    decreases k, 1
  {
    if k > 0 {
      PlaceTasksStep(tm, tasks, order, k, st, startMs);
    }
  }

  /** Every entry of `Concat(bs)` is an entry of one of the blocks. */
  lemma {:induction false} ConcatMember(bs: seq<seq<Assignment>>, k: nat)
    requires k < |Concat(bs)|
    ensures exists i, j :: 0 <= i < |bs| && 0 <= j < |bs[i]| && Concat(bs)[k] == bs[i][j]
  {
    var init := bs[..|bs| - 1];
    if k < |Concat(init)| {
      ConcatMember(init, k);
      var i, j :| 0 <= i < |init| && 0 <= j < |init[i]| && Concat(init)[k] == init[i][j];
      assert bs[i] == init[i];
    } else {
      var i, j := |bs| - 1, k - |Concat(init)|;
      assert Concat(bs)[k] == bs[i][j];
    }
  }

  /** Every entry of a block is an entry of `Concat(bs)`. */
  lemma {:induction false} ConcatContains(bs: seq<seq<Assignment>>, i: nat)
    requires i < |bs|
    ensures forall x :: x in bs[i] ==> x in Concat(bs)
  {
    var init := bs[..|bs| - 1];
    if i < |bs| - 1 {
      ConcatContains(init, i);
      assert init[i] == bs[i];
    }
  }

  /** In a chain of assignments that each end no earlier than they start, every one starts no earlier than `ts`. */
  lemma {:induction false} ChainStartsAfter(added: seq<Assignment>, taskId: string, ts: int, j: nat)
    requires IsChain(added, taskId, ts) && j < |added|
    requires forall x :: x in added ==> x.startMs <= x.endMs
    ensures added[j].startMs >= ts
  {
    if j > 0 {
      ChainStartsAfter(added, taskId, ts, j - 1);
      assert added[j - 1] in added;
    }
  }

  /** The number of activities of the tasks `order` lists, counted with repetition. */
  function OrderedActivityCount(tasks: seq<Task>, order: seq<nat>): nat
    requires InRange(order, |tasks|)
  {
    if order == [] then 0
    else OrderedActivityCount(tasks, order[..|order| - 1]) + |tasks[order[|order| - 1]].activities|
  }

  lemma {:induction false} OrderedCountAppend(tasks: seq<Task>, a: seq<nat>, b: seq<nat>)
    requires InRange(a, |tasks|) && InRange(b, |tasks|)
    ensures InRange(a + b, |tasks|)
    ensures OrderedActivityCount(tasks, a + b) == OrderedActivityCount(tasks, a) + OrderedActivityCount(tasks, b)
    decreases |b|
  {
    if b != [] {
      var init := b[..|b| - 1];
      OrderedCountAppend(tasks, a, init);
      assert (a + b)[..|a + b| - 1] == a + init;
      assert (a + b)[|a + b| - 1] == b[|b| - 1];
    } else {
      assert a + b == a;
    }
  }

  /** Taking the entry at `j` out of `order` removes its task's activities from the count. */
  lemma OrderedCountRemove(tasks: seq<Task>, order: seq<nat>, j: nat)
    requires InRange(order, |tasks|) && j < |order|
    ensures InRange(order[..j] + order[j + 1..], |tasks|)
    ensures OrderedActivityCount(tasks, order) ==
      OrderedActivityCount(tasks, order[..j] + order[j + 1..]) + |tasks[order[j]].activities|
  {
    var x := order[j];
    assert order == order[..j] + [x] + order[j + 1..];
    OrderedCountAppend(tasks, order[..j] + [x], order[j + 1..]);
    OrderedCountAppend(tasks, order[..j], [x]);
    OrderedCountAppend(tasks, order[..j], order[j + 1..]);
    assert [x][..0] == [];
  }

  /** Taking the last entry of `a` and an equal entry of `b` out of two permutations leaves permutations. */
  lemma RemoveLastPermutes(a: seq<nat>, b: seq<nat>, j: nat)
    requires multiset(a) == multiset(b) && a != [] && j < |b| && b[j] == a[|a| - 1]
    ensures multiset(a[..|a| - 1]) == multiset(b[..j] + b[j + 1..])
  {
    var x := b[j];
    var init, rest := a[..|a| - 1], b[..j] + b[j + 1..];
    assert a == init + [x];
    assert b == b[..j] + [x] + b[j + 1..];
    assert multiset(rest) == multiset(b) - multiset{x};
    assert multiset(init) == multiset(a) - multiset{x};
  }

  /** The count depends only on which indices `order` lists, not on their order. */
  lemma {:induction false} OrderedCountPermutes(tasks: seq<Task>, a: seq<nat>, b: seq<nat>)
    requires InRange(a, |tasks|) && InRange(b, |tasks|) && multiset(a) == multiset(b)
    ensures OrderedActivityCount(tasks, a) == OrderedActivityCount(tasks, b)
    decreases |a|
  {
    if a == [] {
      assert |b| == |multiset(b)| == 0;
    } else {
      var x := a[|a| - 1];
      assert x in multiset(b) by {
        assert a == a[..|a| - 1] + [x];
      }
      var j :| 0 <= j < |b| && b[j] == x;
      RemoveLastPermutes(a, b, j);
      OrderedCountRemove(tasks, b, j);
      OrderedCountPermutes(tasks, a[..|a| - 1], b[..j] + b[j + 1..]);
    }
  }

  /** Listing the indices `0 .. n - 1` counts the activities of the first `n` tasks. */
  lemma {:induction false} OrderedCountIota(tasks: seq<Task>, n: nat)
    requires n <= |tasks|
    ensures InRange(Iota(n), |tasks|)
    ensures OrderedActivityCount(tasks, Iota(n)) == ActivityInfos.ActivityTotal(tasks[..n])
  {
    if n > 0 {
      OrderedCountIota(tasks, n - 1);
      assert Iota(n)[..n - 1] == Iota(n - 1);
      assert tasks[..n][..n - 1] == tasks[..n - 1];
    }
  }

  /** The blocks are no longer, together, than their bounds. */
  lemma {:induction false} ConcatBound(tasks: seq<Task>, order: seq<nat>, bs: seq<seq<Assignment>>)
    requires InRange(order, |tasks|) && |bs| == |order|
    requires forall i :: 0 <= i < |bs| ==> |bs[i]| <= |tasks[order[i]].activities|
    ensures |Concat(bs)| <= OrderedActivityCount(tasks, order)
  {
    if bs != [] {
      ConcatBound(tasks, order[..|order| - 1], bs[..|bs| - 1]);
    }
  }

  /** Either way, `sort_tasks` lists every task index exactly once. */
  lemma TaskOrderPermutes(sch: SimpleScheduler, tasks: seq<Task>, startMs: int)
    ensures multiset(sch.TaskOrder(tasks, startMs)) == multiset(Iota(|tasks|))
  {
    if sch.ruleEngine.Some? {
      SortOrderIsStableSort(sch.ruleEngine.value, tasks, AtTime(startMs));
    } else {
      PriorityOrderIsDescending(tasks);
    }
  }

  /**
   * What `schedule` builds is one block per task, in the order `sort_tasks`
   * gives: the block of a task holds at most one assignment per activity,
   * all of that task, the first starting no earlier than the task's start
   * (its release time and the schedule start) and each next one no earlier
   * than the previous one ends; so there are at most as many assignments as
   * activities.
   */
  lemma RunChainsTasks(sch: SimpleScheduler, tasks: seq<Task>, resources: seq<Resource>, startMs: int)
    ensures var s := sch.Run(tasks, resources, startMs).assignments;
      var order := sch.TaskOrder(tasks, startMs);
      var b := sch.RunBlocks(tasks, resources, startMs);
      s == Concat(b) && |b| == |order| && BlocksChain(tasks, order, b, startMs)
    ensures |sch.Run(tasks, resources, startMs).assignments| <= ActivityInfos.ActivityTotal(tasks)
  {
    var tm := sch.transitionMatrices.Tables();
    var order := sch.TaskOrder(tasks, startMs);
    var st0 := SimState(InitialAvailability(resources, startMs), map[], []);
    PlaceTasksBlocks(tm, tasks, order, |order|, st0, startMs);
    var b := sch.RunBlocks(tasks, resources, startMs);
    ConcatBound(tasks, order, b);
    TaskOrderPermutes(sch, tasks, startMs);
    OrderedCountIota(tasks, |tasks|);
    OrderedCountPermutes(tasks, order, Iota(|tasks|));
    assert tasks[..|tasks|] == tasks;
  }

  /** The default order's key comparison is descending priority. */
  lemma PriorityKeyOrder(a: Task, b: Task)
    ensures CompareKeys(NextRule, SortKey([Finite(-a.priority)], a.id), SortKey([Finite(-b.priority)], b.id)) ==
            CompareInt(b.priority, a.priority)
  {
    var xs, ys := [Finite(-a.priority)], [Finite(-b.priority)];
    assert CompareScoresFrom(xs, ys, 1) == Equal;
  }

  /**
   * Without a rule engine the tasks come by descending priority, every task
   * exactly once, and tasks of equal priority keep their input order.
   */
  lemma PriorityOrderIsDescending(tasks: seq<Task>)
    ensures var o := StableSortIndices(PriorityKeys(tasks), NextRule, |tasks|);
      multiset(o) == multiset(Iota(|tasks|)) &&
      (forall i, j :: 0 <= i < j < |o| ==> tasks[o[i]].priority >= tasks[o[j]].priority) &&
      (forall i, j :: 0 <= i < j < |o| && tasks[o[i]].priority == tasks[o[j]].priority ==> o[i] < o[j])
  {
    var keys := PriorityKeys(tasks);
    var o := StableSortIndices(keys, NextRule, |tasks|);
    StableSortIsSortedPermutation(keys, NextRule, |tasks|);
    assert SortedBy(keys, NextRule, o) && StableBy(keys, NextRule, o);
    forall i, j | 0 <= i < j < |o|
      ensures tasks[o[i]].priority >= tasks[o[j]].priority
      ensures tasks[o[i]].priority == tasks[o[j]].priority ==> o[i] < o[j]
    {
      PrioritySortedPair(tasks, keys, o[i], o[j]);
    }
  }

  /** One pair of the sorted default order, read back as priorities. */
  lemma PrioritySortedPair(tasks: seq<Task>, keys: seq<SortKey>, x: nat, y: nat)
    requires keys == PriorityKeys(tasks) && x < |tasks| && y < |tasks|
    requires CompareKeys(NextRule, keys[x], keys[y]) != Greater
    requires CompareKeys(NextRule, keys[x], keys[y]) == Equal ==> x < y
    ensures tasks[x].priority >= tasks[y].priority
    ensures tasks[x].priority == tasks[y].priority ==> x < y
  {
    PriorityKeyOrder(tasks[x], tasks[y]);
  }

  /** `SimpleScheduler::new`: no transition matrices and no rule engine. */
  method NewScheduler() returns (s: SimpleScheduler)
    ensures fresh(s.transitionMatrices) && s.transitionMatrices.matrices == map[] && s.ruleEngine == None
  {
    var m := new Constraints.TransitionMatrixCollection();
    s := SimpleScheduler(m, None);
  }
}
