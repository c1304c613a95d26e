/**
 * The scheduling problem the genetic algorithm optimises
 * (src/ga/problem.rs): the activity descriptors, the task maps the decoder
 * reads, the decoder from an OSV/MAV chromosome to a schedule, and the
 * tardiness term of the fitness.
 */
module GaProblems {
  import opened Common
  import opened Tasks
  import opened Resources
  import Constraints
  import opened Schedules
  import opened ActivityInfos
  import opened Chromosomes
  import Scheduler
  import Kpi

  /** Each task's category, the last task listed winning for a repeated id. */
  function CategoriesOf(tasks: seq<Task>): map<string, string>
  {
    if tasks == [] then map[]
    else
      var t := tasks[|tasks| - 1];
      CategoriesOf(tasks[..|tasks| - 1])[t.id := t.category]
  }

  /** The deadlines of the tasks that have one. */
  function DeadlinesOf(tasks: seq<Task>): map<string, int>
  {
    if tasks == [] then map[]
    else
      var t := tasks[|tasks| - 1];
      var m := DeadlinesOf(tasks[..|tasks| - 1]);
      if t.deadline.Some? then m[t.id := t.deadline.value] else m
  }

  /** The release times of the tasks that have one. */
  function ReleasesOf(tasks: seq<Task>): map<string, int>
  {
    if tasks == [] then map[]
    else
      var t := tasks[|tasks| - 1];
      var m := ReleasesOf(tasks[..|tasks| - 1]);
      if t.releaseTime.Some? then m[t.id := t.releaseTime.value] else m
  }

  /**
   * Every task id has a category, and no other key does; a task that no
   * later task repeats has its own category, its own deadline when it has
   * one, and its own release time when it has one.
   */
  lemma {:induction false} TaskMapsHoldLastTask(tasks: seq<Task>, i: nat)
    requires i < |tasks| && forall j :: i < j < |tasks| ==> tasks[j].id != tasks[i].id
    ensures tasks[i].id in CategoriesOf(tasks) && CategoriesOf(tasks)[tasks[i].id] == tasks[i].category
    ensures tasks[i].deadline.Some? ==>
      tasks[i].id in DeadlinesOf(tasks) && DeadlinesOf(tasks)[tasks[i].id] == tasks[i].deadline.value
    ensures tasks[i].releaseTime.Some? ==>
      tasks[i].id in ReleasesOf(tasks) && ReleasesOf(tasks)[tasks[i].id] == tasks[i].releaseTime.value
  {
    if i < |tasks| - 1 {
      var init := tasks[..|tasks| - 1];
      assert forall j :: i < j < |init| ==> init[j] == tasks[j];
      TaskMapsHoldLastTask(init, i);
    }
  }

  /** The keys of the category map are exactly the task ids. */
  lemma {:induction false} CategoryKeysAreTaskIds(tasks: seq<Task>, id: string)
    ensures id in CategoriesOf(tasks) <==> exists j :: 0 <= j < |tasks| && tasks[j].id == id
  {
    if tasks != [] {
      var init := tasks[..|tasks| - 1];
      CategoryKeysAreTaskIds(init, id);
      if id in CategoriesOf(init) {
        var j :| 0 <= j < |init| && init[j].id == id;
        assert tasks[j].id == id;
      }
      if exists j :: 0 <= j < |tasks| && tasks[j].id == id {
        var j :| 0 <= j < |tasks| && tasks[j].id == id;
        if j < |init| {
          assert init[j].id == id;
        }
      }
    }
  }

  /** The state the decoding loop carries. */
  datatype DecodeState = DecodeState(
    resourceAvailable: map<string, int>,
    taskAvailable: map<string, int>,
    lastCategory: map<string, string>,
    assignments: seq<Assignment>)

  /** `position`: the first descriptor of (task id, sequence), `None` when there is none. */
  function FindInfo(activities: seq<ActivityInfo>, taskId: string, sequence: int): (r: Option<nat>)
    ensures r.None? <==> forall k :: 0 <= k < |activities| ==>
      !(activities[k].taskId == taskId && activities[k].sequence == sequence)
    ensures r.Some? ==> r.value < |activities| && activities[r.value].taskId == taskId
    ensures r.Some? ==> r.value < |activities| && activities[r.value].sequence == sequence
    ensures r.Some? ==> forall k :: 0 <= k < r.value ==>
      !(activities[k].taskId == taskId && activities[k].sequence == sequence)
  {
    if activities == [] then None
    else if activities[0].taskId == taskId && activities[0].sequence == sequence then Some(0)
    else
      var r := FindInfo(activities[1..], taskId, sequence);
      assert forall k :: 1 <= k < |activities| ==> activities[k] == activities[1..][k - 1];
      if r.Some? then Some(r.value + 1) else None
  }

  /** `max(resource ready, task ready, release)`: the earliest start of an operation. */
  function EarliestStart(resourceReady: int, taskReady: int, release: int): (r: int)
    ensures r >= resourceReady && r >= taskReady && r >= release
    ensures r == resourceReady || r == taskReady || r == release
  {
    Max(Max(resourceReady, taskReady), release)
  }

  /**
   * The problem: activity descriptors, resources, the task maps and the
   * transition matrices. The weight is the source's `f64` as an exact real.
   */
  datatype SchedulingGaProblem = SchedulingGaProblem(
    activities: seq<ActivityInfo>,
    resources: seq<Resource>,
    taskCategories: map<string, string>,
    transitionMatrices: Constraints.TransitionMatrixCollection,
    deadlines: map<string, int>,
    releaseTimes: map<string, int>,
    tardinessWeight: real)
  {
    function WithTransitionMatrices(m: Constraints.TransitionMatrixCollection): (p: SchedulingGaProblem)
      ensures p.transitionMatrices == m && p.(transitionMatrices := transitionMatrices) == this
    {
      this.(transitionMatrices := m)
    }

    /** The weight clamped into [0, 1]. */
    function WithTardinessWeight(w: real): (p: SchedulingGaProblem)
      ensures 0.0 <= p.tardinessWeight <= 1.0
      ensures 0.0 <= w <= 1.0 ==> p.tardinessWeight == w
      ensures w < 0.0 ==> p.tardinessWeight == 0.0
      ensures w > 1.0 ==> p.tardinessWeight == 1.0
      ensures p.(tardinessWeight := tardinessWeight) == this
    {
      this.(tardinessWeight := if w < 0.0 then 0.0 else if w > 1.0 then 1.0 else w)
    }

    /** The category the setup lookup uses: the task's, `""` for an unknown task. */
    function CategoryOf(taskId: string): string
    {
      if taskId in taskCategories then taskCategories[taskId] else ""
    }

    /**
     * One OSV entry (task id, sequence): skipped when no descriptor matches
     * or the MAV has no non-empty resource for it; otherwise the operation
     * starts once its resource, its task and its release allow, takes the
     * setup from the resource's last category (none on first use) plus its
     * processing time, and the resource and the task are ready at its end.
     */
    function DecodeOne(tables: map<string, Constraints.MatrixTable>, mav: seq<string>, index: map<(string, int), nat>,
                       st: DecodeState, op: (string, int)): DecodeState
    {
      var (taskId, sequence) := op;
      var found := FindInfo(activities, taskId, sequence);
      var resource := Lookup(mav, index, taskId, sequence);
      if found.None? || resource.None? || resource.value == "" then st
      else DecodePlace(tables, st, activities[found.value], taskId, resource.value)
    }

    /** A decoded operation of task `taskId` with descriptor `act`, placed on resource `res`. */
    function DecodePlace(tables: map<string, Constraints.MatrixTable>, st: DecodeState, act: ActivityInfo,
                         taskId: string, res: string): DecodeState
    {
      var start := EarliestStart(Get(st.resourceAvailable, res), Get(st.taskAvailable, taskId), Get(releaseTimes, taskId));
      var setup := if res in st.lastCategory then Constraints.TableTime(tables, res, st.lastCategory[res], CategoryOf(taskId)) else 0;
      var end := start + setup + act.processMs;
      DecodeState(
        st.resourceAvailable[res := end],
        st.taskAvailable[taskId := end],
        if taskId in taskCategories then st.lastCategory[res := taskCategories[taskId]] else st.lastCategory,
        st.assignments + [NewAssignment(act.taskId, taskId, res, start, end).WithSetup(setup)])
    }

    /** The first `n` operations of `ops`, one after the other. */
    function DecodeFold(tables: map<string, Constraints.MatrixTable>, mav: seq<string>, index: map<(string, int), nat>,
                        ops: seq<(string, int)>, n: nat, st: DecodeState): DecodeState
      requires n <= |ops|
    {
      if n == 0 then st else DecodeOne(tables, mav, index, DecodeFold(tables, mav, index, ops, n - 1, st), ops[n - 1])
    }

    /** The state after decoding: all resources ready at 0, then every OSV operation in order. */
    function Decoded(tables: map<string, Constraints.MatrixTable>, osv: seq<string>, mav: seq<string>,
                     index: map<(string, int), nat>): DecodeState
    {
      var ops := OccurrencePairs(osv);
      DecodeFold(tables, mav, index, ops, |ops|, DecodeState(Scheduler.InitialAvailability(resources, 0), map[], map[], []))
    }

    /** The loop body of `decode` for one operation. */
    method DecodeOperation(s: Schedule, ghost tables: map<string, Constraints.MatrixTable>, mav: seq<string>,
                           index: map<(string, int), nat>, op: (string, int), resourceAvailable: map<string, int>,
                           taskAvailable: map<string, int>, lastCategory: map<string, string>)
      returns (resourceAvailable': map<string, int>, taskAvailable': map<string, int>, lastCategory': map<string, string>)
      requires tables == transitionMatrices.Tables()
      modifies s
      ensures DecodeState(resourceAvailable', taskAvailable', lastCategory', s.assignments) ==
              DecodeOne(tables, mav, index, DecodeState(resourceAvailable, taskAvailable, lastCategory, old(s.assignments)), op)
      ensures s.violations == old(s.violations)
    {
      resourceAvailable', taskAvailable', lastCategory' := resourceAvailable, taskAvailable, lastCategory;
      var (taskId, sequence) := op;
      var actIdx := FindInfo(activities, taskId, sequence);
      if actIdx.None? {
        return;
      }
      var act := activities[actIdx.value];
      var resourceId := "";
      var key := (taskId, sequence);
      if key in index && index[key] < |mav| && mav[index[key]] != "" {
        resourceId := mav[index[key]];
      } else {
        return;
      }
      assert Lookup(mav, index, taskId, sequence) == Some(resourceId);
      resourceAvailable', taskAvailable', lastCategory' :=
        PlaceOperation(s, tables, act, taskId, resourceId, resourceAvailable, taskAvailable, lastCategory);
    }

    /** The rest of the loop body of `decode`: the operation placed on the resource its MAV entry names. */
    method PlaceOperation(s: Schedule, ghost tables: map<string, Constraints.MatrixTable>, act: ActivityInfo,
                          taskId: string, resourceId: string, resourceAvailable: map<string, int>,
                          taskAvailable: map<string, int>, lastCategory: map<string, string>)
      returns (resourceAvailable': map<string, int>, taskAvailable': map<string, int>, lastCategory': map<string, string>)
      requires tables == transitionMatrices.Tables()
      modifies s
      ensures DecodeState(resourceAvailable', taskAvailable', lastCategory', s.assignments) ==
              DecodePlace(tables, DecodeState(resourceAvailable, taskAvailable, lastCategory, old(s.assignments)), act, taskId, resourceId)
      ensures s.violations == old(s.violations)
    {
      var start := EarliestStart(Get(resourceAvailable, resourceId), Get(taskAvailable, taskId), Get(releaseTimes, taskId));
      var setup := 0;
      if resourceId in lastCategory {
        setup := transitionMatrices.GetTransitionTime(resourceId, lastCategory[resourceId], CategoryOf(taskId));
      }
      var end := start + setup + act.processMs;
      s.AddAssignment(NewAssignment(act.taskId, taskId, resourceId, start, end).WithSetup(setup));
      resourceAvailable' := resourceAvailable[resourceId := end];
      taskAvailable' := taskAvailable[taskId := end];
      lastCategory' := if taskId in taskCategories then lastCategory[resourceId := taskCategories[taskId]] else lastCategory;
    }

    /** `decode`: the chromosome's operations decoded in OSV order into a new schedule. */
    method Decode(c: ScheduleChromosome) returns (s: Schedule)
      ensures fresh(s) && s.violations == []
      ensures s.assignments == Decoded(transitionMatrices.Tables(), c.osv, c.mav, c.activityIndex).assignments
    {
      ghost var tables := transitionMatrices.Tables();
      s := new Schedule();
      var resourceAvailable := Scheduler.InitAvailability(resources, 0);
      var taskAvailable: map<string, int> := map[];
      var lastCategory: map<string, string> := map[];
      var operationOrder := c.DecodeOsv();
      ghost var st0 := DecodeState(resourceAvailable, map[], map[], []);
      for i := 0 to |operationOrder|
        invariant DecodeState(resourceAvailable, taskAvailable, lastCategory, s.assignments) ==
                  DecodeFold(tables, c.mav, c.activityIndex, operationOrder, i, st0)
        invariant s.violations == []
      {
        resourceAvailable, taskAvailable, lastCategory :=
          DecodeOperation(s, tables, c.mav, c.activityIndex, operationOrder[i], resourceAvailable, taskAvailable, lastCategory);
      }
    }
  }

  /** `SchedulingGaProblem::new`: the descriptors and task maps of `tasks`, no matrices, tardiness weight 0.5. */
  method NewProblem(tasks: seq<Task>, resources: seq<Resource>) returns (p: SchedulingGaProblem)
    ensures fresh(p.transitionMatrices) && p.transitionMatrices.matrices == map[]
    ensures p.activities == InfosOf(tasks) && p.resources == resources
    ensures p.taskCategories == CategoriesOf(tasks) && p.deadlines == DeadlinesOf(tasks)
    ensures p.releaseTimes == ReleasesOf(tasks) && p.tardinessWeight == 0.5
  {
    var activities := FromTasks(tasks);
    var taskCategories: map<string, string> := map[];
    var deadlines: map<string, int> := map[];
    var releaseTimes: map<string, int> := map[];
    for i := 0 to |tasks|
      invariant taskCategories == CategoriesOf(tasks[..i])
      invariant deadlines == DeadlinesOf(tasks[..i]) && releaseTimes == ReleasesOf(tasks[..i])
    {
      var task := tasks[i];
      assert tasks[..i + 1][..i] == tasks[..i];
      taskCategories := taskCategories[task.id := task.category];
      if task.deadline.Some? {
        deadlines := deadlines[task.id := task.deadline.value];
      }
      if task.releaseTime.Some? {
        releaseTimes := releaseTimes[task.id := task.releaseTime.value];
      }
    }
    assert tasks[..|tasks|] == tasks;
    var m := new Constraints.TransitionMatrixCollection();
    p := SchedulingGaProblem(activities, resources, taskCategories, m, deadlines, releaseTimes, 0.5);
  }

  /** The descriptor `decode` uses for an operation, and the MAV resource it runs on, when it is not skipped. */
  predicate Placed(p: SchedulingGaProblem, mav: seq<string>, index: map<(string, int), nat>, op: (string, int))
  {
    FindInfo(p.activities, op.0, op.1).Some? &&
    Lookup(mav, index, op.0, op.1).Some? && Lookup(mav, index, op.0, op.1).value != ""
  }

  /**
   * A skipped operation changes nothing. A placed one appends one
   * assignment, whose activity id is the task id, on its MAV resource,
   * starting at the latest of the resource's ready time, the task's ready
   * time and its release (each 0 when unknown), with no setup on a resource
   * without a last category and the transition from it otherwise, and
   * lasting the setup plus the first matching descriptor's processing time;
   * the resource and the task are then ready at its end.
   */
  lemma DecodeOneEffect(p: SchedulingGaProblem, tables: map<string, Constraints.MatrixTable>, mav: seq<string>,
                        index: map<(string, int), nat>, st: DecodeState, op: (string, int))
    ensures !Placed(p, mav, index, op) ==> p.DecodeOne(tables, mav, index, st, op) == st
    ensures Placed(p, mav, index, op) ==>
      var r := p.DecodeOne(tables, mav, index, st, op);
      var res := Lookup(mav, index, op.0, op.1).value;
      |r.assignments| == |st.assignments| + 1 && r.assignments[..|st.assignments|] == st.assignments &&
      var a := r.assignments[|st.assignments|];
      a.activityId == op.0 && a.taskId == op.0 && a.resourceId == res &&
      a.startMs == EarliestStart(Get(st.resourceAvailable, res), Get(st.taskAvailable, op.0), Get(p.releaseTimes, op.0)) &&
      a.setupMs == (if res in st.lastCategory then Constraints.TableTime(tables, res, st.lastCategory[res], p.CategoryOf(op.0)) else 0) &&
      a.endMs == a.startMs + a.setupMs + p.activities[FindInfo(p.activities, op.0, op.1).value].processMs &&
      r.resourceAvailable == st.resourceAvailable[res := a.endMs] &&
      r.taskAvailable == st.taskAvailable[op.0 := a.endMs]
  {
    var r := p.DecodeOne(tables, mav, index, st, op);
    if Placed(p, mav, index, op) {
      assert r.assignments[..|st.assignments|] == st.assignments;
    }
  }

  /** Decoding appends: the first assignments stay, one more at most per operation. */
  lemma {:induction false} DecodeFoldAppends(p: SchedulingGaProblem, tables: map<string, Constraints.MatrixTable>, mav: seq<string>,
                                             index: map<(string, int), nat>, ops: seq<(string, int)>, n: nat, st: DecodeState)
    requires n <= |ops|
    ensures var r := p.DecodeFold(tables, mav, index, ops, n, st);
      |st.assignments| <= |r.assignments| <= |st.assignments| + n && r.assignments[..|st.assignments|] == st.assignments
  {
    if n > 0 {
      DecodeFoldAppends(p, tables, mav, index, ops, n - 1, st);
      var q := p.DecodeFold(tables, mav, index, ops, n - 1, st);
      DecodeOneEffect(p, tables, mav, index, q, ops[n - 1]);
      var r := p.DecodeOne(tables, mav, index, q, ops[n - 1]);
      assert r.assignments[..|q.assignments|] == q.assignments;
      assert r.assignments[..|st.assignments|] == r.assignments[..|q.assignments|][..|st.assignments|];
    }
  }

  /**
   * What the decoding loop keeps when no duration is negative: ready times
   * are never negative; every assignment has the task id as activity id,
   * starts no earlier than 0 and its release, ends no earlier than it
   * starts and has a non-negative setup, and its resource and its task are ready no earlier than it
   * ends; and no two assignments on one resource, nor two of one task,
   * overlap.
   */
  predicate DecodeOk(st: DecodeState, releases: map<string, int>)
  {
    (forall r :: r in st.resourceAvailable ==> st.resourceAvailable[r] >= 0) &&
    (forall t :: t in st.taskAvailable ==> st.taskAvailable[t] >= 0) &&
    Bounded(st.assignments, releases, st.resourceAvailable, st.taskAvailable) &&
    ResourceOrdered(st.assignments) && TaskOrdered(st.assignments)
  }

  /** Each assignment is well formed, with a non-negative setup, and ends before its resource and its task are ready. */
  predicate Bounded(s: seq<Assignment>, releases: map<string, int>, ra: map<string, int>, ta: map<string, int>)
  {
    forall k :: 0 <= k < |s| ==>
      s[k].activityId == s[k].taskId &&
      0 <= s[k].startMs <= s[k].endMs && 0 <= s[k].setupMs &&
      Get(releases, s[k].taskId) <= s[k].startMs &&
      s[k].endMs <= Get(ra, s[k].resourceId) &&
      s[k].endMs <= Get(ta, s[k].taskId)
  }

  /** Assignments on one resource follow each other in list order. */
  predicate ResourceOrdered(s: seq<Assignment>)
  {
    forall i, j :: 0 <= i < j < |s| && s[i].resourceId == s[j].resourceId ==> s[i].endMs <= s[j].startMs
  }

  /** Assignments of one task follow each other in list order. */
  predicate TaskOrdered(s: seq<Assignment>)
  {
    forall i, j :: 0 <= i < j < |s| && s[i].taskId == s[j].taskId ==> s[i].endMs <= s[j].startMs
  }

  /** Appending an assignment that starts once its resource and its task are ready keeps the invariant. */
  lemma DecodeOkExtend(st: DecodeState, a: Assignment, lastCategory: map<string, string>, releases: map<string, int>)
    requires DecodeOk(st, releases) && a.activityId == a.taskId && 0 <= a.setupMs
    requires Get(st.resourceAvailable, a.resourceId) <= a.startMs && Get(st.taskAvailable, a.taskId) <= a.startMs
    requires Get(releases, a.taskId) <= a.startMs <= a.endMs
    ensures DecodeOk(DecodeState(st.resourceAvailable[a.resourceId := a.endMs], st.taskAvailable[a.taskId := a.endMs],
                                 lastCategory, st.assignments + [a]), releases)
  {
    var ra, ta := st.resourceAvailable, st.taskAvailable;
    assert Get(ra, a.resourceId) >= 0 && Get(ta, a.taskId) >= 0;
    BoundedExtend(st.assignments, a, releases, ra, ta);
    ResourceOrderedExtend(st.assignments, a, releases, ra, ta);
    TaskOrderedExtend(st.assignments, a, releases, ra, ta);
  }

  lemma BoundedExtend(s: seq<Assignment>, a: Assignment, releases: map<string, int>, ra: map<string, int>, ta: map<string, int>)
    requires Bounded(s, releases, ra, ta) && a.activityId == a.taskId && 0 <= a.startMs && 0 <= a.setupMs
    requires Get(ra, a.resourceId) <= a.startMs && Get(ta, a.taskId) <= a.startMs
    requires Get(releases, a.taskId) <= a.startMs <= a.endMs
    ensures Bounded(s + [a], releases, ra[a.resourceId := a.endMs], ta[a.taskId := a.endMs])
  {
    var s' := s + [a];
    forall k | 0 <= k < |s'|
      ensures s'[k].endMs <= Get(ra[a.resourceId := a.endMs], s'[k].resourceId)
      ensures s'[k].endMs <= Get(ta[a.taskId := a.endMs], s'[k].taskId)
    {
      if k < |s| {
        assert s'[k] == s[k];
      }
    }
  }

  lemma ResourceOrderedExtend(s: seq<Assignment>, a: Assignment, releases: map<string, int>, ra: map<string, int>,
                              ta: map<string, int>)
    requires ResourceOrdered(s) && Bounded(s, releases, ra, ta) && Get(ra, a.resourceId) <= a.startMs
    ensures ResourceOrdered(s + [a])
  {
    var s' := s + [a];
    forall i, j | 0 <= i < j < |s'| && s'[i].resourceId == s'[j].resourceId
      ensures s'[i].endMs <= s'[j].startMs
    {
      assert s'[i] == s[i];
    }
  }

  lemma TaskOrderedExtend(s: seq<Assignment>, a: Assignment, releases: map<string, int>, ra: map<string, int>,
                          ta: map<string, int>)
    requires TaskOrdered(s) && Bounded(s, releases, ra, ta) && Get(ta, a.taskId) <= a.startMs
    ensures TaskOrdered(s + [a])
  {
    var s' := s + [a];
    forall i, j | 0 <= i < j < |s'| && s'[i].taskId == s'[j].taskId
      ensures s'[i].endMs <= s'[j].startMs
    {
      assert s'[i] == s[i];
    }
  }

  /** Every descriptor has a non-negative processing time. */
  predicate NonNegativeInfos(activities: seq<ActivityInfo>)
  {
    forall k :: 0 <= k < |activities| ==> activities[k].processMs >= 0
  }

  lemma DecodeOneOk(p: SchedulingGaProblem, tables: map<string, Constraints.MatrixTable>, mav: seq<string>,
                    index: map<(string, int), nat>, st: DecodeState, op: (string, int))
    requires Scheduler.NonNegativeSetups(tables) && NonNegativeInfos(p.activities) && DecodeOk(st, p.releaseTimes)
    ensures DecodeOk(p.DecodeOne(tables, mav, index, st, op), p.releaseTimes)
  {
    DecodeOneEffect(p, tables, mav, index, st, op);
    if Placed(p, mav, index, op) {
      var r := p.DecodeOne(tables, mav, index, st, op);
      var a := r.assignments[|st.assignments|];
      assert a.setupMs >= 0 by {
        if a.resourceId in st.lastCategory && a.resourceId in tables {
          var from := st.lastCategory[a.resourceId];
          assert (from, p.CategoryOf(op.0)) in tables[a.resourceId].transitions ==>
            tables[a.resourceId].transitions[(from, p.CategoryOf(op.0))] >= 0;
        }
      }
      assert r.assignments == st.assignments + [a];
      DecodeOkExtend(st, a, r.lastCategory, p.releaseTimes);
    }
  }

  lemma {:induction false} DecodeFoldOk(p: SchedulingGaProblem, tables: map<string, Constraints.MatrixTable>, mav: seq<string>,
                                        index: map<(string, int), nat>, ops: seq<(string, int)>, n: nat, st: DecodeState)
    requires n <= |ops| && Scheduler.NonNegativeSetups(tables) && NonNegativeInfos(p.activities)
    requires DecodeOk(st, p.releaseTimes)
    ensures DecodeOk(p.DecodeFold(tables, mav, index, ops, n, st), p.releaseTimes)
  {
    if n > 0 {
      DecodeFoldOk(p, tables, mav, index, ops, n - 1, st);
      DecodeOneOk(p, tables, mav, index, p.DecodeFold(tables, mav, index, ops, n - 1, st), ops[n - 1]);
    }
  }

  /**
   * The schedule `decode` builds, when no setup or processing time is
   * negative: at most one assignment per OSV entry; each has the task id as
   * its activity id, starts no earlier than 0 and its task's release,
   * ends no earlier than it starts, and lasts its non-negative setup plus
   * the processing time of a descriptor of its task; no two on one resource overlap, and no
   * two of one task overlap.
   */
  lemma DecodedIsFeasible(p: SchedulingGaProblem, tables: map<string, Constraints.MatrixTable>, osv: seq<string>,
                          mav: seq<string>, index: map<(string, int), nat>)
    requires Scheduler.NonNegativeSetups(tables) && NonNegativeInfos(p.activities)
    ensures var s := p.Decoded(tables, osv, mav, index).assignments;
      |s| <= |osv| &&
      (forall k :: 0 <= k < |s| ==> s[k].activityId == s[k].taskId) &&
      (forall k :: 0 <= k < |s| ==> 0 <= s[k].startMs <= s[k].endMs && Get(p.releaseTimes, s[k].taskId) <= s[k].startMs) &&
      (forall k :: 0 <= k < |s| ==> 0 <= s[k].setupMs && Timed(p.activities, s[k])) &&
      (forall i, j :: 0 <= i < j < |s| && s[i].resourceId == s[j].resourceId ==> s[i].endMs <= s[j].startMs) &&
      (forall i, j :: 0 <= i < j < |s| && s[i].taskId == s[j].taskId ==> s[i].endMs <= s[j].startMs)
  {
    var ops := OccurrencePairs(osv);
    var avail := Scheduler.InitialAvailability(p.resources, 0);
    var st0 := DecodeState(avail, map[], map[], []);
    Scheduler.InitialAvailabilityListsResources(p.resources, 0);
    forall r | r in avail
      ensures avail[r] >= 0
    {
      assert r in Scheduler.InitialAvailability(p.resources, 0);
      assert avail[r] == 0;
    }
    DecodeFoldOk(p, tables, mav, index, ops, |ops|, st0);
    DecodeFoldAppends(p, tables, mav, index, ops, |ops|, st0);
    DecodeFoldTimed(p, tables, mav, index, ops, |ops|, st0);
  }

  /** `a` lasts its setup plus the processing time of a descriptor of its task. */
  ghost predicate Timed(infos: seq<ActivityInfo>, a: Assignment)
  {
    exists k :: 0 <= k < |infos| && infos[k].taskId == a.taskId &&
      a.endMs == a.startMs + a.setupMs + infos[k].processMs
  }

  /** Every decoded assignment ends at its start plus its setup plus its operation's processing time. */
  lemma {:induction false} DecodeFoldTimed(p: SchedulingGaProblem, tables: map<string, Constraints.MatrixTable>, mav: seq<string>,
                                           index: map<(string, int), nat>, ops: seq<(string, int)>, n: nat, st: DecodeState)
    requires n <= |ops|
    requires forall x :: x in st.assignments ==> Timed(p.activities, x)
    ensures forall x :: x in p.DecodeFold(tables, mav, index, ops, n, st).assignments ==> Timed(p.activities, x)
  {
    if n > 0 {
      DecodeFoldTimed(p, tables, mav, index, ops, n - 1, st);
      var q := p.DecodeFold(tables, mav, index, ops, n - 1, st);
      DecodeOneEffect(p, tables, mav, index, q, ops[n - 1]);
      if Placed(p, mav, index, ops[n - 1]) {
        var r := p.DecodeOne(tables, mav, index, q, ops[n - 1]);
        var a := r.assignments[|q.assignments|];
        assert Timed(p.activities, a);
        assert r.assignments == q.assignments + [a];
      }
    }
  }

  /** Whether some assignment of `s` lies on resource `r`. */
  ghost predicate UsesResource(s: seq<Assignment>, r: string)
  {
    exists k :: 0 <= k < |s| && s[k].resourceId == r
  }

  /** Only a resource some assignment lies on has a last category. */
  ghost predicate TracksCategories(st: DecodeState)
  {
    forall r :: r in st.lastCategory ==> UsesResource(st.assignments, r)
  }

  lemma DecodeOneTracksCategories(p: SchedulingGaProblem, tables: map<string, Constraints.MatrixTable>, mav: seq<string>,
                                  index: map<(string, int), nat>, st: DecodeState, op: (string, int))
    requires TracksCategories(st)
    ensures TracksCategories(p.DecodeOne(tables, mav, index, st, op))
  {
    DecodeOneEffect(p, tables, mav, index, st, op);
    var r := p.DecodeOne(tables, mav, index, st, op);
    if Placed(p, mav, index, op) {
      var n := |st.assignments|;
      assert forall k :: 0 <= k < n ==> r.assignments[k] == st.assignments[k];
      forall x | x in r.lastCategory
        ensures UsesResource(r.assignments, x)
      {
        if x != r.assignments[n].resourceId {
          var k :| 0 <= k < n && st.assignments[k].resourceId == x;
          assert r.assignments[k].resourceId == x;
        }
      }
    }
  }

  lemma {:induction false} DecodeFoldTracksCategories(p: SchedulingGaProblem, tables: map<string, Constraints.MatrixTable>,
                                                      mav: seq<string>, index: map<(string, int), nat>,
                                                      ops: seq<(string, int)>, n: nat, st: DecodeState)
    requires n <= |ops| && TracksCategories(st)
    ensures TracksCategories(p.DecodeFold(tables, mav, index, ops, n, st))
  {
    if n > 0 {
      DecodeFoldTracksCategories(p, tables, mav, index, ops, n - 1, st);
      DecodeOneTracksCategories(p, tables, mav, index, p.DecodeFold(tables, mav, index, ops, n - 1, st), ops[n - 1]);
    }
  }

  /**
   * In the decoding from no state, the first operation placed on a
   * resource gets no setup.
   */
  lemma FirstUseHasNoSetup(p: SchedulingGaProblem, tables: map<string, Constraints.MatrixTable>, mav: seq<string>,
                           index: map<(string, int), nat>, ops: seq<(string, int)>, n: nat, avail: map<string, int>)
    requires n < |ops|
    ensures var st := p.DecodeFold(tables, mav, index, ops, n, DecodeState(avail, map[], map[], []));
      var r := p.DecodeOne(tables, mav, index, st, ops[n]);
      |r.assignments| > |st.assignments| && !UsesResource(st.assignments, r.assignments[|st.assignments|].resourceId) ==>
      r.assignments[|st.assignments|].setupMs == 0
  {
    var st0 := DecodeState(avail, map[], map[], []);
    DecodeFoldTracksCategories(p, tables, mav, index, ops, n, st0);
    var st := p.DecodeFold(tables, mav, index, ops, n, st0);
    DecodeOneEffect(p, tables, mav, index, st, ops[n]);
  }

  /**
   * The tardiness term of `compute_fitness` over the deadline entries:
   * completion − deadline when positive, a task without assignments
   * completing at 0.
   */
  function Tardiness(s: seq<Assignment>, entries: seq<(string, int)>): (r: int)
    ensures r >= 0
  {
    if entries == [] then 0
    else
      var e := entries[|entries| - 1];
      Tardiness(s, entries[..|entries| - 1]) + Max(0, Kpi.Completion(s, e.0).UnwrapOr(0) - e.1)
  }

  /** The total tardiness is 0 exactly when every task with a deadline completes by it. */
  lemma {:induction false} TardinessZeroIffOnTime(s: seq<Assignment>, entries: seq<(string, int)>)
    ensures Tardiness(s, entries) == 0 <==>
      forall i :: 0 <= i < |entries| ==> Kpi.Completion(s, entries[i].0).UnwrapOr(0) <= entries[i].1
  {
    if entries != [] {
      var init := entries[..|entries| - 1];
      TardinessZeroIffOnTime(s, init);
      assert forall i :: 0 <= i < |init| ==> init[i] == entries[i];
    }
  }

  lemma {:induction false} TardinessAppend(s: seq<Assignment>, a: seq<(string, int)>, b: seq<(string, int)>)
    ensures Tardiness(s, a + b) == Tardiness(s, a) + Tardiness(s, b)
    decreases |b|
  {
    if b == [] {
      assert a + b == a;
    } else {
      var binit := b[..|b| - 1];
      assert (a + b)[..|a + b| - 1] == a + binit;
      assert (a + b)[|a + b| - 1] == b[|b| - 1];
      TardinessAppend(s, a, binit);
    }
  }

  /** Taking out one entry takes out its term. */
  lemma TardinessRemove(s: seq<Assignment>, entries: seq<(string, int)>, j: nat)
    requires j < |entries|
    ensures Tardiness(s, entries) ==
      Tardiness(s, entries[..j] + entries[j + 1..]) + Max(0, Kpi.Completion(s, entries[j].0).UnwrapOr(0) - entries[j].1)
  {
    var e := entries[j];
    assert entries == entries[..j] + [e] + entries[j + 1..];
    TardinessAppend(s, entries[..j] + [e], entries[j + 1..]);
    TardinessAppend(s, entries[..j], [e]);
    TardinessAppend(s, entries[..j], entries[j + 1..]);
    assert [e][..0] == [];
  }

  /** Taking the last entry of `a` and an equal entry of `b` out of two permutations leaves permutations. */
  lemma RemoveLastPermutes(a: seq<(string, int)>, b: seq<(string, int)>, j: nat)
    requires multiset(a) == multiset(b) && a != [] && j < |b| && b[j] == a[|a| - 1]
    ensures multiset(a[..|a| - 1]) == multiset(b[..j] + b[j + 1..])
  {
    var x := b[j];
    var init, rest := a[..|a| - 1], b[..j] + b[j + 1..];
    assert a == init + [x];
    assert b == b[..j] + [x] + b[j + 1..];
    assert multiset(rest) == multiset(b) - multiset{x};
    assert multiset(init) == multiset(a) - multiset{x};
  }

  /** The sum does not depend on the order of the entries. */
  lemma {:induction false} TardinessIgnoresOrder(s: seq<Assignment>, a: seq<(string, int)>, b: seq<(string, int)>)
    requires multiset(a) == multiset(b)
    ensures Tardiness(s, a) == Tardiness(s, b)
    decreases |a|
  {
    if a == [] {
      assert |b| == |multiset(b)| == 0;
    } else {
      var x := a[|a| - 1];
      var init := a[..|a| - 1];
      assert a == init + [x];
      assert x in multiset(b);
      var j :| 0 <= j < |b| && b[j] == x;
      var rest := b[..j] + b[j + 1..];
      RemoveLastPermutes(a, b, j);
      TardinessIgnoresOrder(s, init, rest);
      TardinessRemove(s, b, j);
    }
  }

  /** `entries` lists the map's entries, each key once: one order in which `HashMap::iter` may visit them. */
  ghost predicate Enumerates(entries: seq<(string, int)>, m: map<string, int>)
  {
    (forall i, j :: 0 <= i < j < |entries| ==> entries[i].0 != entries[j].0) &&
    (forall i :: 0 <= i < |entries| ==> entries[i].0 in m && m[entries[i].0] == entries[i].1) &&
    (forall k :: k in m ==> exists i :: 0 <= i < |entries| && entries[i].0 == k)
  }

  /** With each key once, an entry occurs once or not at all. */
  lemma {:induction false} DistinctKeysOccurOnce(entries: seq<(string, int)>, x: (string, int))
    requires forall i, j :: 0 <= i < j < |entries| ==> entries[i].0 != entries[j].0
    ensures multiset(entries)[x] == if x in entries then 1 else 0
  {
    if entries != [] {
      var init := entries[..|entries| - 1];
      var last := entries[|entries| - 1];
      assert entries == init + [last];
      assert forall i :: 0 <= i < |init| ==> init[i] == entries[i];
      DistinctKeysOccurOnce(init, x);
      if last == x {
        assert x !in init;
      }
    }
  }

  /** Two listings of the same map are permutations of each other. */
  lemma EnumerationsPermute(a: seq<(string, int)>, b: seq<(string, int)>, m: map<string, int>)
    requires Enumerates(a, m) && Enumerates(b, m)
    ensures multiset(a) == multiset(b)
  {
    forall x
      ensures multiset(a)[x] == multiset(b)[x]
    {
      DistinctKeysOccurOnce(a, x);
      DistinctKeysOccurOnce(b, x);
      if x in a {
        var i :| 0 <= i < |a| && a[i] == x;
        var j :| 0 <= j < |b| && b[j].0 == x.0;
        assert b[j] == x;
      }
      if x in b {
        var j :| 0 <= j < |b| && b[j] == x;
        var i :| 0 <= i < |a| && a[i].0 == x.0;
        assert a[i] == x;
      }
    }
  }

  /** So the tardiness of a problem's deadlines is the same whichever order the map is visited in. */
  lemma TardinessOfDeadlines(p: SchedulingGaProblem, s: seq<Assignment>, a: seq<(string, int)>, b: seq<(string, int)>)
    requires Enumerates(a, p.deadlines) && Enumerates(b, p.deadlines)
    ensures Tardiness(s, a) == Tardiness(s, b)
  {
    EnumerationsPermute(a, b, p.deadlines);
    TardinessIgnoresOrder(s, a, b);
  }
}
