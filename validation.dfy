/**
 * Input validation (src/validation.rs): duplicate ids, empty tasks,
 * unknown resource and predecessor references, and cycles among the
 * predecessor edges, all collected before scheduling.
 */
module Validation {
  import opened Common
  import opened Activities
  import opened Tasks
  import opened Resources

  datatype ValidationErrorKind = DuplicateId | InvalidResourceReference | CyclicDependency | EmptyTask | InvalidPredecessor

  /** What an error's `entityId` names. */
  datatype Entity = ResourceEntity | TaskEntity | ActivityEntity

  /**
   * A validation error. The source's human-readable message is replaced by
   * what it names: the entity and, for a reference, the unknown id.
   */
  datatype ValidationError = ValidationError(kind: ValidationErrorKind, entity: Entity, entityId: string, reference: string)

  datatype ValidationResult = Ok | Err(errors: seq<ValidationError>)

  /** The elements of a sequence. */
  function ToSet(s: seq<string>): (r: set<string>)
    ensures forall x :: x in r <==> x in s
  {
    set x | x in s
  }

  /** Every activity of every task, task after task. */
  function AllActivities(tasks: seq<Task>): seq<Activity>
  {
    if tasks == [] then [] else AllActivities(tasks[..|tasks| - 1]) + tasks[|tasks| - 1].activities
  }

  function ActivityIds(acts: seq<Activity>): (r: seq<string>)
    ensures |r| == |acts| && forall i :: 0 <= i < |acts| ==> r[i] == acts[i].id
  {
    seq(|acts|, i requires 0 <= i < |acts| => acts[i].id)
  }

  function TaskIdsOf(tasks: seq<Task>): (r: seq<string>)
    ensures |r| == |tasks| && forall i :: 0 <= i < |tasks| ==> r[i] == tasks[i].id
  {
    seq(|tasks|, i requires 0 <= i < |tasks| => tasks[i].id)
  }

  function ResourceIds(resources: seq<Resource>): (r: seq<string>)
    ensures |r| == |resources| && forall i :: 0 <= i < |resources| ==> r[i] == resources[i].id
  {
    seq(|resources|, i requires 0 <= i < |resources| => resources[i].id)
  }

  lemma ActivityIdsAppend(a: seq<Activity>, b: seq<Activity>)
    ensures ActivityIds(a + b) == ActivityIds(a) + ActivityIds(b)
  {
  }

  /**
   * The entries of `ids` that a `HashSet::insert` rejects: those already in
   * `seen` or earlier in `ids`, in order.
   */
  function Repeats(seen: seq<string>, ids: seq<string>): seq<string>
  {
    if ids == [] then []
    else
      var init, last := ids[..|ids| - 1], ids[|ids| - 1];
      Repeats(seen, init) + (if last in seen || last in init then [last] else [])
  }

  /** An id is rejected exactly when some occurrence of it follows another, or follows `seen`. */
  lemma {:induction false} RepeatsAre(seen: seq<string>, ids: seq<string>, x: string)
    ensures x in Repeats(seen, ids) <==>
      exists j :: 0 <= j < |ids| && ids[j] == x && (x in seen || x in ids[..j])
  {
    if ids != [] {
      var init, last := ids[..|ids| - 1], ids[|ids| - 1];
      RepeatsAre(seen, init, x);
      assert ids[..|ids| - 1] == init;
      if x in Repeats(seen, init) {
        var j :| 0 <= j < |init| && init[j] == x && (x in seen || x in init[..j]);
        assert ids[j] == x && init[..j] == ids[..j];
      }
      if exists j :: 0 <= j < |ids| && ids[j] == x && (x in seen || x in ids[..j]) {
        var j :| 0 <= j < |ids| && ids[j] == x && (x in seen || x in ids[..j]);
        if j < |init| {
          assert init[j] == x && init[..j] == ids[..j];
        }
      }
    }
  }

  lemma {:induction false} RepeatsAppend(seen: seq<string>, a: seq<string>, b: seq<string>)
    ensures Repeats(seen, a + b) == Repeats(seen, a) + Repeats(seen + a, b)
    decreases |b|
  {
    if b == [] {
      assert a + b == a;
    } else {
      var binit, last := b[..|b| - 1], b[|b| - 1];
      assert (a + b)[..|a + b| - 1] == a + binit;
      assert (a + b)[|a + b| - 1] == last;
      RepeatsAppend(seen, a, binit);
      assert (last in seen || last in a + binit) <==> (last in seen + a || last in binit);
    }
  }

  function DuplicateErrors(entity: Entity, ids: seq<string>): (r: seq<ValidationError>)
    ensures |r| == |ids| && forall i :: 0 <= i < |ids| ==> r[i] == ValidationError(DuplicateId, entity, ids[i], "")
  {
    seq(|ids|, i requires 0 <= i < |ids| => ValidationError(DuplicateId, entity, ids[i], ""))
  }

  lemma DuplicateErrorsAppend(entity: Entity, a: seq<string>, b: seq<string>)
    ensures DuplicateErrors(entity, a + b) == DuplicateErrors(entity, a) + DuplicateErrors(entity, b)
  {
    assert forall i :: 0 <= i < |a| ==> (a + b)[i] == a[i];
    assert forall i :: |a| <= i < |a + b| ==> (a + b)[i] == b[i - |a|];
  }

  /** The errors one task adds in the second pass: a repeated task id, no activities, repeated activity ids. */
  function TaskErrors(t: Task, seenTasks: seq<string>, seenActivities: seq<string>): seq<ValidationError>
  {
    (if t.id in seenTasks then [ValidationError(DuplicateId, TaskEntity, t.id, "")] else []) +
    (if t.activities == [] then [ValidationError(EmptyTask, TaskEntity, t.id, "")] else []) +
    DuplicateErrors(ActivityEntity, Repeats(seenActivities, ActivityIds(t.activities)))
  }

  /** The errors of the second pass over `tasks`. */
  function TaskPhase(tasks: seq<Task>): seq<ValidationError>
  {
    if tasks == [] then []
    else
      var init := tasks[..|tasks| - 1];
      TaskPhase(init) + TaskErrors(tasks[|tasks| - 1], TaskIdsOf(init), ActivityIds(AllActivities(init)))
  }

  /** The ids an activity refers to: its candidates for resource references, its predecessors otherwise. */
  function Refs(kind: ValidationErrorKind, act: Activity): seq<string>
  {
    if kind == InvalidPredecessor then act.predecessors else act.CandidateResources()
  }

  /** One error of `kind` per reference of `entityId` that is not `known`, in order. */
  function Unknown(kind: ValidationErrorKind, entityId: string, refs: seq<string>, known: set<string>): seq<ValidationError>
  {
    if refs == [] then []
    else
      var init, last := refs[..|refs| - 1], refs[|refs| - 1];
      Unknown(kind, entityId, init, known) +
      (if last in known then [] else [ValidationError(kind, ActivityEntity, entityId, last)])
  }

  /** The errors of a reference pass over the activities. */
  function UnknownRefs(kind: ValidationErrorKind, acts: seq<Activity>, known: set<string>): seq<ValidationError>
  {
    if acts == [] then []
    else
      var last := acts[|acts| - 1];
      UnknownRefs(kind, acts[..|acts| - 1], known) + Unknown(kind, last.id, Refs(kind, last), known)
  }

  lemma {:induction false} UnknownAppend(kind: ValidationErrorKind, entityId: string, a: seq<string>, b: seq<string>,
                                         known: set<string>)
    ensures Unknown(kind, entityId, a + b, known) == Unknown(kind, entityId, a, known) + Unknown(kind, entityId, b, known)
    decreases |b|
  {
    if b == [] {
      assert a + b == a;
    } else {
      var binit := b[..|b| - 1];
      assert (a + b)[..|a + b| - 1] == a + binit;
      assert (a + b)[|a + b| - 1] == b[|b| - 1];
      UnknownAppend(kind, entityId, a, binit, known);
    }
  }

  lemma {:induction false} UnknownRefsAppend(kind: ValidationErrorKind, a: seq<Activity>, b: seq<Activity>, known: set<string>)
    ensures UnknownRefs(kind, a + b, known) == UnknownRefs(kind, a, known) + UnknownRefs(kind, b, known)
    decreases |b|
  {
    if b == [] {
      assert a + b == a;
    } else {
      var binit, blast := b[..|b| - 1], b[|b| - 1];
      UnknownRefsDropLast(kind, a, b, known);
      UnknownRefsAppend(kind, a, binit, known);
      AppendAssoc(UnknownRefs(kind, a, known), UnknownRefs(kind, binit, known),
                  Unknown(kind, blast.id, Refs(kind, blast), known));
    }
  }

  /** Unfolding `UnknownRefs` on an appended list at its last activity. */
  lemma UnknownRefsDropLast(kind: ValidationErrorKind, a: seq<Activity>, b: seq<Activity>, known: set<string>)
    requires b != []
    ensures UnknownRefs(kind, a + b, known) ==
      UnknownRefs(kind, a + b[..|b| - 1], known) + Unknown(kind, b[|b| - 1].id, Refs(kind, b[|b| - 1]), known)
  {
    assert (a + b)[..|a + b| - 1] == a + b[..|b| - 1];
  }

  /** The `kind` errors are exactly the unknown references, each naming its entity and the reference. */
  lemma {:induction false} UnknownAre(kind: ValidationErrorKind, entityId: string, refs: seq<string>, known: set<string>,
                                      e: ValidationError)
    ensures e in Unknown(kind, entityId, refs, known) <==>
      e.kind == kind && e.entity == ActivityEntity && e.entityId == entityId && e.reference in refs && e.reference !in known
  {
    if refs != [] {
      var init := refs[..|refs| - 1];
      UnknownAre(kind, entityId, init, known, e);
      assert refs == init + [refs[|refs| - 1]];
    }
  }

  /** An activity's reference to an id outside `known`, of the kind the pass checks. */
  ghost predicate RefersOutside(kind: ValidationErrorKind, acts: seq<Activity>, known: set<string>, e: ValidationError)
  {
    e.kind == kind && e.entity == ActivityEntity && e.reference !in known &&
    exists k :: 0 <= k < |acts| && acts[k].id == e.entityId && e.reference in Refs(kind, acts[k])
  }

  lemma {:induction false} UnknownRefsSound(kind: ValidationErrorKind, acts: seq<Activity>, known: set<string>,
                                            e: ValidationError)
    requires e in UnknownRefs(kind, acts, known)
    ensures RefersOutside(kind, acts, known, e)
  {
    var init, last := acts[..|acts| - 1], acts[|acts| - 1];
    if e in UnknownRefs(kind, init, known) {
      UnknownRefsSound(kind, init, known, e);
      var k :| 0 <= k < |init| && init[k].id == e.entityId && e.reference in Refs(kind, init[k]);
      assert acts[k] == init[k];
    } else {
      UnknownAre(kind, last.id, Refs(kind, last), known, e);
      assert acts[|acts| - 1] == last;
    }
  }

  lemma {:induction false} UnknownRefsComplete(kind: ValidationErrorKind, acts: seq<Activity>, known: set<string>,
                                               e: ValidationError, k: nat)
    requires e.kind == kind && e.entity == ActivityEntity && e.reference !in known
    requires k < |acts| && acts[k].id == e.entityId && e.reference in Refs(kind, acts[k])
    ensures e in UnknownRefs(kind, acts, known)
  {
    var init, last := acts[..|acts| - 1], acts[|acts| - 1];
    if k < |init| {
      assert init[k] == acts[k];
      UnknownRefsComplete(kind, init, known, e, k);
    } else {
      UnknownAre(kind, last.id, Refs(kind, last), known, e);
    }
  }

  lemma UnknownRefsAre(kind: ValidationErrorKind, acts: seq<Activity>, known: set<string>, e: ValidationError)
    ensures e in UnknownRefs(kind, acts, known) <==> RefersOutside(kind, acts, known, e)
  {
    if e in UnknownRefs(kind, acts, known) {
      UnknownRefsSound(kind, acts, known, e);
    }
    if RefersOutside(kind, acts, known, e) {
      var k :| 0 <= k < |acts| && acts[k].id == e.entityId && e.reference in Refs(kind, acts[k]);
      UnknownRefsComplete(kind, acts, known, e, k);
    }
  }

  /** The errors `validate_input` records before the cycle check, in the order it records them. */
  function ListedErrors(tasks: seq<Task>, resources: seq<Resource>): seq<ValidationError>
  {
    var acts := AllActivities(tasks);
    DuplicateErrors(ResourceEntity, Repeats([], ResourceIds(resources))) +
    TaskPhase(tasks) +
    UnknownRefs(InvalidResourceReference, acts, ToSet(ResourceIds(resources))) +
    UnknownRefs(InvalidPredecessor, acts, ToSet(ActivityIds(acts)))
  }

  /** Some id occurs twice. */
  ghost predicate Repeated(ids: seq<string>, x: string)
  {
    exists i, j :: 0 <= i < j < |ids| && ids[i] == x && ids[j] == x
  }

  ghost predicate Distinct(ids: seq<string>)
  {
    forall i, j :: 0 <= i < j < |ids| ==> ids[i] != ids[j]
  }

  lemma RejectedIffRepeated(ids: seq<string>, x: string)
    ensures x in Repeats([], ids) <==> Repeated(ids, x)
  {
    RepeatsAre([], ids, x);
    if x in Repeats([], ids) {
      var j :| 0 <= j < |ids| && ids[j] == x && x in ids[..j];
      var i :| 0 <= i < j && ids[..j][i] == x;
      assert ids[i] == x;
    }
    if Repeated(ids, x) {
      var i, j :| 0 <= i < j < |ids| && ids[i] == x && ids[j] == x;
      assert ids[..j][i] == x;
    }
  }

  lemma DuplicateErrorsAre(entity: Entity, ids: seq<string>, e: ValidationError)
    ensures e in DuplicateErrors(entity, ids) <==>
      e.kind == DuplicateId && e.entity == entity && e.entityId in ids && e.reference == ""
  {
    if e.kind == DuplicateId && e.entity == entity && e.entityId in ids && e.reference == "" {
      var i :| 0 <= i < |ids| && ids[i] == e.entityId;
      assert DuplicateErrors(entity, ids)[i] == e;
    }
  }

  /** The ids a duplicate error of `entity` is about. */
  function IdsOf(entity: Entity, tasks: seq<Task>, resources: seq<Resource>): seq<string>
  {
    match entity
    case ResourceEntity => ResourceIds(resources)
    case TaskEntity => TaskIdsOf(tasks)
    case ActivityEntity => ActivityIds(AllActivities(tasks))
  }

  lemma TaskIdRepeatsStep(tasks: seq<Task>)
    requires tasks != []
    ensures var init, last := tasks[..|tasks| - 1], tasks[|tasks| - 1];
      Repeats([], TaskIdsOf(tasks)) ==
      Repeats([], TaskIdsOf(init)) + (if last.id in TaskIdsOf(init) then [last.id] else [])
  {
    assert TaskIdsOf(tasks)[..|tasks| - 1] == TaskIdsOf(tasks[..|tasks| - 1]);
  }

  lemma ActivityIdRepeatsStep(tasks: seq<Task>)
    requires tasks != []
    ensures var init, last := tasks[..|tasks| - 1], tasks[|tasks| - 1];
      Repeats([], ActivityIds(AllActivities(tasks))) ==
      Repeats([], ActivityIds(AllActivities(init))) + Repeats(ActivityIds(AllActivities(init)), ActivityIds(last.activities))
  {
    var init, last := tasks[..|tasks| - 1], tasks[|tasks| - 1];
    var front := ActivityIds(AllActivities(init));
    ActivityIdsAppend(AllActivities(init), last.activities);
    RepeatsAppend([], front, ActivityIds(last.activities));
    assert [] + front == front;
  }

  /** The second pass reports a repeated task id, and only that, as a task duplicate. */
  lemma {:induction false} TaskPhaseTaskDuplicates(tasks: seq<Task>, x: string)
    ensures ValidationError(DuplicateId, TaskEntity, x, "") in TaskPhase(tasks) <==> x in Repeats([], TaskIdsOf(tasks))
  {
    if tasks != [] {
      var init := tasks[..|tasks| - 1];
      TaskPhaseTaskDuplicates(init, x);
      TaskIdRepeatsStep(tasks);
      DuplicateErrorsAre(ActivityEntity, Repeats(ActivityIds(AllActivities(init)), ActivityIds(tasks[|tasks| - 1].activities)),
                         ValidationError(DuplicateId, TaskEntity, x, ""));
    }
  }

  /** The second pass reports a repeated activity id, and only that, as an activity duplicate. */
  lemma {:induction false} TaskPhaseActivityDuplicates(tasks: seq<Task>, x: string)
    ensures ValidationError(DuplicateId, ActivityEntity, x, "") in TaskPhase(tasks) <==>
      x in Repeats([], ActivityIds(AllActivities(tasks)))
  {
    if tasks != [] {
      var init := tasks[..|tasks| - 1];
      TaskPhaseActivityDuplicates(init, x);
      ActivityIdRepeatsStep(tasks);
      DuplicateErrorsAre(ActivityEntity, Repeats(ActivityIds(AllActivities(init)), ActivityIds(tasks[|tasks| - 1].activities)),
                         ValidationError(DuplicateId, ActivityEntity, x, ""));
    }
  }

  /** The errors of one task hold an empty-task error exactly when the task has no activities. */
  lemma TaskErrorsEmpty(t: Task, seenTasks: seq<string>, seenActivities: seq<string>, x: string)
    ensures ValidationError(EmptyTask, TaskEntity, x, "") in TaskErrors(t, seenTasks, seenActivities) <==>
      t.id == x && t.activities == []
  {
    DuplicateErrorsAre(ActivityEntity, Repeats(seenActivities, ActivityIds(t.activities)),
                       ValidationError(EmptyTask, TaskEntity, x, ""));
  }

  /** The second pass reports a task without activities. */
  lemma TaskPhaseEmptyTasks(tasks: seq<Task>, x: string)
    ensures ValidationError(EmptyTask, TaskEntity, x, "") in TaskPhase(tasks) <==>
      exists k :: 0 <= k < |tasks| && tasks[k].id == x && tasks[k].activities == []
  {
    if ValidationError(EmptyTask, TaskEntity, x, "") in TaskPhase(tasks) {
      TaskPhaseEmptySound(tasks, x);
    }
    if exists k :: 0 <= k < |tasks| && tasks[k].id == x && tasks[k].activities == [] {
      var k :| 0 <= k < |tasks| && tasks[k].id == x && tasks[k].activities == [];
      TaskPhaseEmptyComplete(tasks, x, k);
    }
  }

  lemma {:induction false} TaskPhaseEmptySound(tasks: seq<Task>, x: string)
    requires ValidationError(EmptyTask, TaskEntity, x, "") in TaskPhase(tasks)
    ensures exists k :: 0 <= k < |tasks| && tasks[k].id == x && tasks[k].activities == []
  {
    var init, last := tasks[..|tasks| - 1], tasks[|tasks| - 1];
    TaskErrorsEmpty(last, TaskIdsOf(init), ActivityIds(AllActivities(init)), x);
    if ValidationError(EmptyTask, TaskEntity, x, "") in TaskPhase(init) {
      TaskPhaseEmptySound(init, x);
      var k :| 0 <= k < |init| && init[k].id == x && init[k].activities == [];
      assert tasks[k] == init[k];
    } else {
      assert tasks[|tasks| - 1] == last;
    }
  }

  lemma {:induction false} TaskPhaseEmptyComplete(tasks: seq<Task>, x: string, k: nat)
    requires k < |tasks| && tasks[k].id == x && tasks[k].activities == []
    ensures ValidationError(EmptyTask, TaskEntity, x, "") in TaskPhase(tasks)
  {
    var init, last := tasks[..|tasks| - 1], tasks[|tasks| - 1];
    if k < |init| {
      assert init[k] == tasks[k];
      TaskPhaseEmptyComplete(init, x, k);
    } else {
      TaskErrorsEmpty(last, TaskIdsOf(init), ActivityIds(AllActivities(init)), x);
    }
  }

  /** The second pass reports only duplicates and empty tasks. */
  lemma {:induction false} TaskPhaseKinds(tasks: seq<Task>, e: ValidationError)
    requires e in TaskPhase(tasks)
    ensures e.reference == "" && ((e.kind == DuplicateId && e.entity != ResourceEntity) ||
                                  (e.kind == EmptyTask && e.entity == TaskEntity))
  {
    var init, last := tasks[..|tasks| - 1], tasks[|tasks| - 1];
    if e in TaskPhase(init) {
      TaskPhaseKinds(init, e);
    } else {
      DuplicateErrorsAre(ActivityEntity, Repeats(ActivityIds(AllActivities(init)), ActivityIds(last.activities)), e);
    }
  }

  lemma UnknownRefsKinds(kind: ValidationErrorKind, acts: seq<Activity>, known: set<string>, e: ValidationError)
    requires e in UnknownRefs(kind, acts, known)
    ensures e.kind == kind && e.entity == ActivityEntity
  {
    UnknownRefsAre(kind, acts, known, e);
  }

  /** Every listed error is a duplicate, an empty task or an unknown reference, never a cycle. */
  lemma ListedKinds(tasks: seq<Task>, resources: seq<Resource>, e: ValidationError)
    requires e in ListedErrors(tasks, resources)
    ensures (e.kind == DuplicateId && e.reference == "") ||
            (e.kind == EmptyTask && e.entity == TaskEntity && e.reference == "") ||
            ((e.kind == InvalidResourceReference || e.kind == InvalidPredecessor) && e.entity == ActivityEntity)
  {
    var acts := AllActivities(tasks);
    if e in DuplicateErrors(ResourceEntity, Repeats([], ResourceIds(resources))) {
      DuplicateErrorsAre(ResourceEntity, Repeats([], ResourceIds(resources)), e);
    } else if e in TaskPhase(tasks) {
      TaskPhaseKinds(tasks, e);
    } else if e in UnknownRefs(InvalidResourceReference, acts, ToSet(ResourceIds(resources))) {
      UnknownRefsKinds(InvalidResourceReference, acts, ToSet(ResourceIds(resources)), e);
    } else {
      UnknownRefsKinds(InvalidPredecessor, acts, ToSet(ActivityIds(acts)), e);
    }
  }

  /** A duplicate error of `entity` is listed exactly when its id occurs twice among that entity's ids. */
  lemma ListsDuplicates(tasks: seq<Task>, resources: seq<Resource>, entity: Entity, x: string)
    ensures ValidationError(DuplicateId, entity, x, "") in ListedErrors(tasks, resources) <==>
      Repeated(IdsOf(entity, tasks, resources), x)
  {
    var e := ValidationError(DuplicateId, entity, x, "");
    var acts := AllActivities(tasks);
    var refs := UnknownRefs(InvalidResourceReference, acts, ToSet(ResourceIds(resources)));
    var preds := UnknownRefs(InvalidPredecessor, acts, ToSet(ActivityIds(acts)));
    if e in refs {
      UnknownRefsKinds(InvalidResourceReference, acts, ToSet(ResourceIds(resources)), e);
    }
    if e in preds {
      UnknownRefsKinds(InvalidPredecessor, acts, ToSet(ActivityIds(acts)), e);
    }
    DuplicateErrorsAre(ResourceEntity, Repeats([], ResourceIds(resources)), e);
    RejectedIffRepeated(IdsOf(entity, tasks, resources), x);
    match entity
    case ResourceEntity =>
      if e in TaskPhase(tasks) {
        TaskPhaseKinds(tasks, e);
      }
    case TaskEntity =>
      TaskPhaseTaskDuplicates(tasks, x);
    case ActivityEntity =>
      TaskPhaseActivityDuplicates(tasks, x);
  }

  /** An empty-task error is listed exactly for the tasks without activities. */
  lemma ListsEmptyTasks(tasks: seq<Task>, resources: seq<Resource>, x: string)
    ensures ValidationError(EmptyTask, TaskEntity, x, "") in ListedErrors(tasks, resources) <==>
      exists k :: 0 <= k < |tasks| && tasks[k].id == x && tasks[k].activities == []
  {
    var e := ValidationError(EmptyTask, TaskEntity, x, "");
    var acts := AllActivities(tasks);
    var refs := UnknownRefs(InvalidResourceReference, acts, ToSet(ResourceIds(resources)));
    var preds := UnknownRefs(InvalidPredecessor, acts, ToSet(ActivityIds(acts)));
    if e in refs {
      UnknownRefsKinds(InvalidResourceReference, acts, ToSet(ResourceIds(resources)), e);
    }
    if e in preds {
      UnknownRefsKinds(InvalidPredecessor, acts, ToSet(ActivityIds(acts)), e);
    }
    DuplicateErrorsAre(ResourceEntity, Repeats([], ResourceIds(resources)), e);
    TaskPhaseEmptyTasks(tasks, x);
  }

  /** An unknown-resource error is listed exactly for a candidate that is no resource's id. */
  lemma ListsUnknownResources(tasks: seq<Task>, resources: seq<Resource>, a: string, c: string)
    ensures var acts := AllActivities(tasks);
      ValidationError(InvalidResourceReference, ActivityEntity, a, c) in ListedErrors(tasks, resources) <==>
      c !in ResourceIds(resources) && exists k :: 0 <= k < |acts| && acts[k].id == a && c in acts[k].CandidateResources()
  {
    var e := ValidationError(InvalidResourceReference, ActivityEntity, a, c);
    var acts := AllActivities(tasks);
    assert e !in TaskPhase(tasks) by {
      if e in TaskPhase(tasks) {
        TaskPhaseKinds(tasks, e);
      }
    }
    assert e !in UnknownRefs(InvalidPredecessor, acts, ToSet(ActivityIds(acts))) by {
      if e in UnknownRefs(InvalidPredecessor, acts, ToSet(ActivityIds(acts))) {
        UnknownRefsKinds(InvalidPredecessor, acts, ToSet(ActivityIds(acts)), e);
      }
    }
    assert e !in DuplicateErrors(ResourceEntity, Repeats([], ResourceIds(resources))) by {
      DuplicateErrorsAre(ResourceEntity, Repeats([], ResourceIds(resources)), e);
    }
    UnknownRefsAre(InvalidResourceReference, acts, ToSet(ResourceIds(resources)), e);
  }

  /** An unknown-predecessor error is listed exactly for a predecessor that is no activity's id. */
  lemma ListsUnknownPredecessors(tasks: seq<Task>, resources: seq<Resource>, a: string, p: string)
    ensures var acts := AllActivities(tasks);
      ValidationError(InvalidPredecessor, ActivityEntity, a, p) in ListedErrors(tasks, resources) <==>
      p !in ActivityIds(acts) && exists k :: 0 <= k < |acts| && acts[k].id == a && p in acts[k].predecessors
  {
    var e := ValidationError(InvalidPredecessor, ActivityEntity, a, p);
    var acts := AllActivities(tasks);
    assert e !in TaskPhase(tasks) by {
      if e in TaskPhase(tasks) {
        TaskPhaseKinds(tasks, e);
      }
    }
    assert e !in UnknownRefs(InvalidResourceReference, acts, ToSet(ResourceIds(resources))) by {
      if e in UnknownRefs(InvalidResourceReference, acts, ToSet(ResourceIds(resources))) {
        UnknownRefsKinds(InvalidResourceReference, acts, ToSet(ResourceIds(resources)), e);
      }
    }
    assert e !in DuplicateErrors(ResourceEntity, Repeats([], ResourceIds(resources))) by {
      DuplicateErrorsAre(ResourceEntity, Repeats([], ResourceIds(resources)), e);
    }
    UnknownRefsAre(InvalidPredecessor, acts, ToSet(ActivityIds(acts)), e);
  }

  /** Conditions 1 to 6 of `validate_input`'s documentation. */
  ghost predicate ListedChecksPass(tasks: seq<Task>, resources: seq<Resource>)
  {
    var acts := AllActivities(tasks);
    Distinct(TaskIdsOf(tasks)) && Distinct(ActivityIds(acts)) && Distinct(ResourceIds(resources)) &&
    (forall k :: 0 <= k < |tasks| ==> tasks[k].activities != []) &&
    (forall k, c :: 0 <= k < |acts| && c in acts[k].CandidateResources() ==> c in ResourceIds(resources)) &&
    (forall k, p :: 0 <= k < |acts| && p in acts[k].predecessors ==> p in ActivityIds(acts))
  }

  lemma RepeatedIffNotDistinct(ids: seq<string>)
    ensures !Distinct(ids) <==> exists x :: Repeated(ids, x)
  {
    if !Distinct(ids) {
      var i, j :| 0 <= i < j < |ids| && ids[i] == ids[j];
      assert Repeated(ids, ids[i]);
    }
  }

  lemma ListedDuplicateBreaksChecks(tasks: seq<Task>, resources: seq<Resource>, entity: Entity, x: string)
    requires ValidationError(DuplicateId, entity, x, "") in ListedErrors(tasks, resources)
    ensures !Distinct(IdsOf(entity, tasks, resources))
  {
    ListsDuplicates(tasks, resources, entity, x);
    var ids := IdsOf(entity, tasks, resources);
    var i, j :| 0 <= i < j < |ids| && ids[i] == x && ids[j] == x;
  }

  lemma ListedReferenceBreaksChecks(tasks: seq<Task>, resources: seq<Resource>, e: ValidationError)
    requires e in ListedErrors(tasks, resources) && e.entity == ActivityEntity
    requires e.kind == InvalidResourceReference || e.kind == InvalidPredecessor
    ensures !ListedChecksPass(tasks, resources)
  {
    var acts := AllActivities(tasks);
    if e.kind == InvalidResourceReference {
      ListsUnknownResources(tasks, resources, e.entityId, e.reference);
      var k :| 0 <= k < |acts| && acts[k].id == e.entityId && e.reference in acts[k].CandidateResources();
    } else {
      ListsUnknownPredecessors(tasks, resources, e.entityId, e.reference);
      var k :| 0 <= k < |acts| && acts[k].id == e.entityId && e.reference in acts[k].predecessors;
    }
  }

  /** A listed error shows that one of conditions 1 to 6 fails. */
  lemma ListedErrorBreaksChecks(tasks: seq<Task>, resources: seq<Resource>, e: ValidationError)
    requires e in ListedErrors(tasks, resources)
    ensures !ListedChecksPass(tasks, resources)
  {
    ListedKinds(tasks, resources, e);
    if e.kind == DuplicateId {
      ListedDuplicateBreaksChecks(tasks, resources, e.entity, e.entityId);
      assert e.entity.ResourceEntity? || e.entity.TaskEntity? || e.entity.ActivityEntity?;
    } else if e.kind == EmptyTask {
      ListsEmptyTasks(tasks, resources, e.entityId);
    } else {
      ListedReferenceBreaksChecks(tasks, resources, e);
    }
  }

  lemma NothingListedDistinct(tasks: seq<Task>, resources: seq<Resource>, entity: Entity)
    requires ListedErrors(tasks, resources) == []
    ensures Distinct(IdsOf(entity, tasks, resources))
  {
    var ids := IdsOf(entity, tasks, resources);
    RepeatedIffNotDistinct(ids);
    if !Distinct(ids) {
      var x :| Repeated(ids, x);
      ListsDuplicates(tasks, resources, entity, x);
    }
  }

  lemma NothingListedResources(tasks: seq<Task>, resources: seq<Resource>)
    requires ListedErrors(tasks, resources) == []
    ensures var acts := AllActivities(tasks);
      forall k, c :: 0 <= k < |acts| && c in acts[k].CandidateResources() ==> c in ResourceIds(resources)
  {
    var acts := AllActivities(tasks);
    forall k, c | 0 <= k < |acts| && c in acts[k].CandidateResources()
      ensures c in ResourceIds(resources)
    {
      ListsUnknownResources(tasks, resources, acts[k].id, c);
      assert ValidationError(InvalidResourceReference, ActivityEntity, acts[k].id, c) !in ListedErrors(tasks, resources);
      assert 0 <= k < |acts| && acts[k].id == acts[k].id && c in acts[k].CandidateResources();
    }
  }

  lemma NothingListedPredecessors(tasks: seq<Task>, resources: seq<Resource>)
    requires ListedErrors(tasks, resources) == []
    ensures var acts := AllActivities(tasks);
      forall k, p :: 0 <= k < |acts| && p in acts[k].predecessors ==> p in ActivityIds(acts)
  {
    var acts := AllActivities(tasks);
    forall k, p | 0 <= k < |acts| && p in acts[k].predecessors
      ensures p in ActivityIds(acts)
    {
      ListsUnknownPredecessors(tasks, resources, acts[k].id, p);
      assert ValidationError(InvalidPredecessor, ActivityEntity, acts[k].id, p) !in ListedErrors(tasks, resources);
      assert 0 <= k < |acts| && acts[k].id == acts[k].id && p in acts[k].predecessors;
    }
  }

  lemma NothingListedNonEmpty(tasks: seq<Task>, resources: seq<Resource>)
    requires ListedErrors(tasks, resources) == []
    ensures forall k :: 0 <= k < |tasks| ==> tasks[k].activities != []
  {
    forall k | 0 <= k < |tasks|
      ensures tasks[k].activities != []
    {
      ListsEmptyTasks(tasks, resources, tasks[k].id);
    }
  }

  /** No error is listed exactly when conditions 1 to 6 hold. */
  lemma NoListedErrorsIffChecksPass(tasks: seq<Task>, resources: seq<Resource>)
    ensures ListedErrors(tasks, resources) == [] <==> ListedChecksPass(tasks, resources)
  {
    if ListedErrors(tasks, resources) != [] {
      ListedErrorBreaksChecks(tasks, resources, ListedErrors(tasks, resources)[0]);
    } else {
      NothingListedDistinct(tasks, resources, TaskEntity);
      NothingListedDistinct(tasks, resources, ActivityEntity);
      NothingListedDistinct(tasks, resources, ResourceEntity);
      assert IdsOf(TaskEntity, tasks, resources) == TaskIdsOf(tasks);
      assert IdsOf(ActivityEntity, tasks, resources) == ActivityIds(AllActivities(tasks));
      assert IdsOf(ResourceEntity, tasks, resources) == ResourceIds(resources);
      NothingListedResources(tasks, resources);
      NothingListedPredecessors(tasks, resources);
      NothingListedNonEmpty(tasks, resources);
    }
  }


  // ---------------------------------------------------------------------------
  // The precedence graph and its cycles

  /** `adj`: each predecessor id to the activities that name it, in the order they do. */
  function AddEdges(adj: map<string, seq<string>>, preds: seq<string>, id: string): map<string, seq<string>>
  {
    if preds == [] then adj
    else
      var m := AddEdges(adj, preds[..|preds| - 1], id);
      var p := preds[|preds| - 1];
      m[p := (if p in m then m[p] else []) + [id]]
  }

  function AdjOf(acts: seq<Activity>): map<string, seq<string>>
  {
    if acts == [] then map[]
    else
      var last := acts[|acts| - 1];
      AddEdges(AdjOf(acts[..|acts| - 1]), last.predecessors, last.id)
  }

  ghost predicate Edge(adj: map<string, seq<string>>, a: string, b: string)
  {
    a in adj && b in adj[a]
  }

  lemma {:induction false} AddEdgesAre(adj: map<string, seq<string>>, preds: seq<string>, id: string, a: string, b: string)
    ensures Edge(AddEdges(adj, preds, id), a, b) <==> Edge(adj, a, b) || (b == id && a in preds)
  {
    if preds != [] {
      var init := preds[..|preds| - 1];
      AddEdgesAre(adj, init, id, a, b);
      assert preds == init + [preds[|preds| - 1]];
    }
  }

  /** An edge leads from `a` to `b` exactly when activity `b` names `a` as a predecessor. */
  lemma {:induction false} EdgesAre(acts: seq<Activity>, a: string, b: string)
    ensures Edge(AdjOf(acts), a, b) <==> exists k :: 0 <= k < |acts| && acts[k].id == b && a in acts[k].predecessors
  {
    if acts != [] {
      var init, last := acts[..|acts| - 1], acts[|acts| - 1];
      EdgesAre(init, a, b);
      AddEdgesAre(AdjOf(init), last.predecessors, last.id, a, b);
      assert forall k :: 0 <= k < |init| ==> init[k] == acts[k];
      if exists k :: 0 <= k < |acts| && acts[k].id == b && a in acts[k].predecessors {
        var k :| 0 <= k < |acts| && acts[k].id == b && a in acts[k].predecessors;
        if k < |init| {
          assert init[k] == acts[k];
        }
      }
    }
  }

  /** Consecutive entries are joined by edges. */
  ghost predicate IsWalk(adj: map<string, seq<string>>, w: seq<string>)
  {
    forall i :: 0 <= i < |w| - 1 ==> Edge(adj, w[i], w[i + 1])
  }

  /** A closed walk of at least one edge. */
  ghost predicate HasCycle(adj: map<string, seq<string>>)
  {
    exists w :: |w| >= 2 && w[0] == w[|w| - 1] && IsWalk(adj, w)
  }

  /** Every edge leads into `nodes`. */
  ghost predicate Closed(adj: map<string, seq<string>>, nodes: set<string>)
  {
    forall a, b :: Edge(adj, a, b) ==> b in nodes
  }

  /** Each finished node's successors finished before it. */
  ghost predicate Finished(adj: map<string, seq<string>>, order: seq<string>)
  {
    forall i, v :: 0 <= i < |order| && Edge(adj, order[i], v) ==> v in order[..i]
  }

  /**
   * The DFS state: `in_stack` holds the current path, a walk; `visited` is
   * the path together with the finished nodes.
   */
  ghost predicate DfsState(adj: map<string, seq<string>>, visited: set<string>, inStack: set<string>,
                           path: seq<string>, order: seq<string>)
  {
    inStack == ToSet(path) && IsWalk(adj, path) && visited == ToSet(order) + inStack &&
    ToSet(order) !! inStack && Finished(adj, order)
  }

  /** An edge back into the current path closes a cycle. */
  lemma BackEdgeCycle(adj: map<string, seq<string>>, path: seq<string>, next: string)
    requires path != [] && IsWalk(adj, path) && next in path && Edge(adj, path[|path| - 1], next)
    ensures HasCycle(adj)
  {
    var i :| 0 <= i < |path| && path[i] == next;
    var w := path[i..] + [next];
    assert forall k :: 0 <= k < |w| - 1 ==> w[k] == path[i + k];
    assert IsWalk(adj, w);
  }

  /** The first position of `x` in `s`. */
  function FirstIndex(s: seq<string>, x: string): (r: nat)
    requires x in s
    ensures r < |s| && s[r] == x && x !in s[..r]
  {
    if s[0] == x then 0
    else
      var r := FirstIndex(s[1..], x);
      assert s[1..][..r] == s[1..r + 1];
      r + 1
  }

  /** Along an edge between finished nodes the first position goes down. */
  lemma FinishedEdgeGoesDown(adj: map<string, seq<string>>, order: seq<string>, u: string, v: string)
    requires Finished(adj, order) && u in order && Edge(adj, u, v)
    ensures v in order && FirstIndex(order, v) < FirstIndex(order, u)
  {
    var i := FirstIndex(order, u);
    assert v in order[..i];
    var j :| 0 <= j < i && order[..i][j] == v;
    assert order[j] == v;
  }

  lemma {:induction false} WalkGoesDown(adj: map<string, seq<string>>, order: seq<string>, w: seq<string>, k: nat)
    requires Finished(adj, order) && IsWalk(adj, w) && 1 <= k < |w| && w[0] in order
    ensures w[k] in order && FirstIndex(order, w[k]) < FirstIndex(order, w[0])
  {
    if k == 1 {
      FinishedEdgeGoesDown(adj, order, w[0], w[1]);
    } else {
      WalkGoesDown(adj, order, w, k - 1);
      FinishedEdgeGoesDown(adj, order, w[k - 1], w[k]);
    }
  }

  /** When every node an edge leads to has finished, there is no cycle. */
  lemma AllFinishedIsAcyclic(adj: map<string, seq<string>>, order: seq<string>, nodes: set<string>)
    requires Finished(adj, order) && Closed(adj, nodes) && nodes <= ToSet(order)
    ensures !HasCycle(adj)
  {
    if HasCycle(adj) {
      var w :| |w| >= 2 && w[0] == w[|w| - 1] && IsWalk(adj, w);
      assert Edge(adj, w[|w| - 2], w[|w| - 1]);
      assert w[0] in order;
      WalkGoesDown(adj, order, w, |w| - 1);
    }
  }

  /** The recursion of `has_cycle_dfs` shrinks the unvisited part of `nodes`. */
  lemma UnvisitedShrinks(nodes: set<string>, visited: set<string>, now: set<string>, node: string)
    requires node in nodes && node !in visited && visited + {node} <= now
    ensures |nodes - now| < |nodes - visited|
  {
    var gone := (nodes - visited) - (nodes - now);
    assert node in gone;
    assert nodes - visited == (nodes - now) + gone;
    assert (nodes - now) !! gone;
  }

  lemma UnvisitedMonotone(nodes: set<string>, visited: set<string>, now: set<string>)
    requires visited <= now
    ensures |nodes - now| <= |nodes - visited|
  {
    var gone := (nodes - visited) - (nodes - now);
    assert nodes - visited == (nodes - now) + gone;
    assert (nodes - now) !! gone;
  }

  lemma NeighborsFinish(neighbors: seq<string>, j: nat, before: set<string>, after: set<string>, inStack: set<string>)
    requires j < |neighbors| && before <= after && neighbors[j] in after && neighbors[j] !in inStack
    requires forall k :: 0 <= k < j ==> neighbors[k] in before && neighbors[k] !in inStack
    ensures forall k :: 0 <= k < j + 1 ==> neighbors[k] in after && neighbors[k] !in inStack
  {
  }

  /** Entering a node extends the path by an edge. */
  lemma EnterNode(adj: map<string, seq<string>>, visited: set<string>, inStack: set<string>,
                  path: seq<string>, order: seq<string>, node: string)
    requires DfsState(adj, visited, inStack, path, order) && node !in visited
    requires path != [] ==> Edge(adj, path[|path| - 1], node)
    ensures DfsState(adj, visited + {node}, inStack + {node}, path + [node], order)
  {
    var p := path + [node];
    assert forall i :: 0 <= i < |path| ==> p[i] == path[i];
    assert ToSet(p) == ToSet(path) + {node};
  }

  /** A node whose successors have all finished leaves the path and finishes. */
  lemma LeaveNode(adj: map<string, seq<string>>, visited: set<string>, inStack: set<string>,
                  path: seq<string>, order: seq<string>, node: string)
    requires DfsState(adj, visited, inStack + {node}, path + [node], order)
    requires inStack == ToSet(path) && IsWalk(adj, path) && node !in inStack
    requires node in adj ==> forall v :: v in adj[node] ==> v in visited && v !in inStack + {node}
    ensures DfsState(adj, visited, inStack, path, order + [node])
  {
    var o := order + [node];
    assert ToSet(o) == ToSet(order) + {node};
    forall i, v | 0 <= i < |o| && Edge(adj, o[i], v)
      ensures v in o[..i]
    {
      if i < |order| {
        assert o[..i] == order[..i];
      } else {
        assert o[..i] == order;
      }
    }
  }

  /**
   * `has_cycle_dfs`: enters `node` (into `visited` and `in_stack`),
   * follows its edges, and takes it off the stack once none of them has
   * shown a cycle. The finish order and the path are ghost.
   */
  method HasCycleDfs(node: string, adj: map<string, seq<string>>, ghost nodes: set<string>,
                     visited: set<string>, inStack: set<string>, ghost path: seq<string>, ghost order: seq<string>)
    returns (found: bool, visited': set<string>, inStack': set<string>, ghost order': seq<string>)
    requires Closed(adj, nodes) && node in nodes && node !in visited
    requires DfsState(adj, visited, inStack, path, order)
    requires path != [] ==> Edge(adj, path[|path| - 1], node)
    ensures visited <= visited' && node in visited'
    ensures found ==> HasCycle(adj)
    ensures !found ==> inStack' == inStack && node !in inStack && DfsState(adj, visited', inStack', path, order')
    decreases |nodes - visited|, 2
  {
    UnvisitedShrinks(nodes, visited, visited + {node}, node);
    found, visited', inStack', order' := VisitNeighbors(node, adj, nodes, visited, inStack, path, order, |nodes - visited|);
    if !found {
      LeaveNode(adj, visited', inStack, path, order', node);
      inStack' := inStack;
      order' := order' + [node];
    }
  }

  /**
   * The entry into `node` and the `for &next in neighbors` loop of
   * `has_cycle_dfs`; on return without a cycle `node` is still on the stack.
   */
  method VisitNeighbors(node: string, adj: map<string, seq<string>>, ghost nodes: set<string>,
                        visited: set<string>, inStack: set<string>, ghost path: seq<string>, ghost order: seq<string>,
                        ghost bound: nat)
    returns (found: bool, visited': set<string>, inStack': set<string>, ghost order': seq<string>)
    requires Closed(adj, nodes) && node !in visited
    requires DfsState(adj, visited, inStack, path, order) && |nodes - (visited + {node})| < bound
    requires path != [] ==> Edge(adj, path[|path| - 1], node)
    ensures visited + {node} <= visited'
    ensures found ==> HasCycle(adj)
    ensures !found ==> inStack' == inStack + {node} && DfsState(adj, visited', inStack', path + [node], order')
    ensures !found && node in adj ==> forall v :: v in adj[node] ==> v in visited' && v !in inStack'
    decreases bound, 1
  {
    EnterNode(adj, visited, inStack, path, order, node);
    ghost var path' := path + [node];
    visited', inStack', order' := visited + {node}, inStack + {node}, order;
    var neighbors := if node in adj then adj[node] else [];
    for j := 0 to |neighbors|
      invariant DfsState(adj, visited', inStack', path', order')
      invariant visited + {node} <= visited' && inStack' == inStack + {node} && |nodes - visited'| < bound
      invariant forall k :: 0 <= k < j ==> neighbors[k] in visited' && neighbors[k] !in inStack'
    {
      assert Edge(adj, node, neighbors[j]);
      ghost var before := visited';
      found, visited', inStack', order' := VisitNeighbor(neighbors[j], adj, nodes, visited', inStack', path', order', bound);
      if found {
        return;
      }
      UnvisitedMonotone(nodes, before, visited');
      NeighborsFinish(neighbors, j, before, visited', inStack');
    }
    found := false;
  }

  /**
   * One edge `node -> next` of `has_cycle_dfs`: a successor on the stack is
   * a back edge and a cycle, an unvisited one is searched, a finished one
   * is passed over.
   */
  method VisitNeighbor(next: string, adj: map<string, seq<string>>, ghost nodes: set<string>,
                       visited: set<string>, inStack: set<string>, ghost path: seq<string>, ghost order: seq<string>,
                       ghost bound: nat)
    returns (found: bool, visited': set<string>, inStack': set<string>, ghost order': seq<string>)
    requires Closed(adj, nodes) && path != [] && Edge(adj, path[|path| - 1], next)
    requires DfsState(adj, visited, inStack, path, order) && |nodes - visited| < bound
    ensures visited <= visited'
    ensures found ==> HasCycle(adj)
    ensures !found ==> inStack' == inStack && DfsState(adj, visited', inStack', path, order')
    ensures !found ==> next in visited' && next !in inStack
    decreases bound, 0
  {
    if next in inStack {
      BackEdgeCycle(adj, path, next);
      return true, visited, inStack, order;
    }
    if next in visited {
      return false, visited, inStack, order;
    }
    found, visited', inStack', order' := HasCycleDfs(next, adj, nodes, visited, inStack, path, order);
  }


  // ---------------------------------------------------------------------------
  // The passes of `validate_input`

  /** The first pass: resource ids into a set, each rejected insert an error. */
  method CollectResourceIds(resources: seq<Resource>) returns (ids: set<string>, errors: seq<ValidationError>)
    ensures ids == ToSet(ResourceIds(resources))
    ensures errors == DuplicateErrors(ResourceEntity, Repeats([], ResourceIds(resources)))
  {
    ghost var all := ResourceIds(resources);
    ids, errors := {}, [];
    for i := 0 to |resources|
      invariant ids == ToSet(all[..i])
      invariant errors == DuplicateErrors(ResourceEntity, Repeats([], all[..i]))
    {
      IdStep([], all, i);
      if resources[i].id in ids {
        DuplicateErrorsSnoc(ResourceEntity, Repeats([], all[..i]), resources[i].id);
        errors := errors + [ValidationError(DuplicateId, ResourceEntity, resources[i].id, "")];
      }
      ids := ids + {resources[i].id};
    }
    assert all[..|resources|] == all;
  }

  /** One more id: repeated when `seen` or the ids before it hold it, and added to the set of ids met. */
  lemma IdStep(seen: seq<string>, all: seq<string>, i: nat)
    requires i < |all|
    ensures Repeats(seen, all[..i + 1]) == Repeats(seen, all[..i]) + (if all[i] in seen || all[i] in all[..i] then [all[i]] else [])
    ensures ToSet(all[..i + 1]) == ToSet(all[..i]) + {all[i]}
    ensures ToSet(seen + all[..i + 1]) == ToSet(seen + all[..i]) + {all[i]}
  {
    var p, q := all[..i], all[..i + 1];
    assert q[..i] == p && q[i] == all[i];
    assert q == p + [all[i]];
    ToSetAppend(p, all[i]);
    assert seen + q == (seen + p) + [all[i]];
    ToSetAppend(seen + p, all[i]);
  }

  lemma DuplicateErrorsSnoc(entity: Entity, ids: seq<string>, x: string)
    ensures DuplicateErrors(entity, ids + [x]) == DuplicateErrors(entity, ids) + [ValidationError(DuplicateId, entity, x, "")]
  {
    DuplicateErrorsAppend(entity, ids, [x]);
  }

  /** The activity-id part of the second pass, for one task's activities. */
  method CollectActivityIds(acts: seq<Activity>, seen: set<string>, ghost seenIds: seq<string>)
    returns (seen': set<string>, errors: seq<ValidationError>)
    requires seen == ToSet(seenIds)
    ensures seen' == ToSet(seenIds + ActivityIds(acts))
    ensures errors == DuplicateErrors(ActivityEntity, Repeats(seenIds, ActivityIds(acts)))
  {
    ghost var ids := ActivityIds(acts);
    seen', errors := seen, [];
    for j := 0 to |acts|
      invariant seen' == ToSet(seenIds + ids[..j])
      invariant errors == DuplicateErrors(ActivityEntity, Repeats(seenIds, ids[..j]))
    {
      IdStep(seenIds, ids, j);
      if acts[j].id in seen' {
        DuplicateErrorsSnoc(ActivityEntity, Repeats(seenIds, ids[..j]), acts[j].id);
        errors := errors + [ValidationError(DuplicateId, ActivityEntity, acts[j].id, "")];
      }
      seen' := seen' + {acts[j].id};
    }
    assert ids[..|acts|] == ids;
  }

  lemma AllActivitiesStep(tasks: seq<Task>, i: nat)
    requires i < |tasks|
    ensures AllActivities(tasks[..i + 1]) == AllActivities(tasks[..i]) + tasks[i].activities
    ensures ActivityIds(AllActivities(tasks[..i + 1])) == ActivityIds(AllActivities(tasks[..i])) + ActivityIds(tasks[i].activities)
  {
    assert tasks[..i + 1][..i] == tasks[..i];
    ActivityIdsAppend(AllActivities(tasks[..i]), tasks[i].activities);
  }

  /** One task of the second pass. */
  method CollectTask(task: Task, taskIds: set<string>, activityIds: set<string>,
                     ghost seenTasks: seq<string>, ghost seenActivities: seq<string>)
    returns (taskIds': set<string>, activityIds': set<string>, errors: seq<ValidationError>)
    requires taskIds == ToSet(seenTasks) && activityIds == ToSet(seenActivities)
    ensures taskIds' == ToSet(seenTasks + [task.id])
    ensures activityIds' == ToSet(seenActivities + ActivityIds(task.activities))
    ensures errors == TaskErrors(task, seenTasks, seenActivities)
  {
    errors := [];
    if task.id in taskIds {
      errors := errors + [ValidationError(DuplicateId, TaskEntity, task.id, "")];
    }
    taskIds' := taskIds + {task.id};
    if task.activities == [] {
      errors := errors + [ValidationError(EmptyTask, TaskEntity, task.id, "")];
    }
    var more;
    activityIds', more := CollectActivityIds(task.activities, activityIds, seenActivities);
    errors := errors + more;
  }

  /** The second pass: task ids, empty tasks and activity ids, task by task. */
  method CollectTaskIds(tasks: seq<Task>) returns (activityIds: set<string>, errors: seq<ValidationError>)
    ensures activityIds == ToSet(ActivityIds(AllActivities(tasks)))
    ensures errors == TaskPhase(tasks)
  {
    var taskIds: set<string> := {};
    activityIds, errors := {}, [];
    for i := 0 to |tasks|
      invariant taskIds == ToSet(TaskIdsOf(tasks[..i]))
      invariant activityIds == ToSet(ActivityIds(AllActivities(tasks[..i])))
      invariant errors == TaskPhase(tasks[..i])
    {
      ghost var prefix := tasks[..i];
      assert tasks[..i + 1][..i] == prefix;
      assert TaskIdsOf(tasks[..i + 1]) == TaskIdsOf(prefix) + [tasks[i].id];
      var more;
      taskIds, activityIds, more := CollectTask(tasks[i], taskIds, activityIds, TaskIdsOf(prefix),
                                                ActivityIds(AllActivities(prefix)));
      AllActivitiesStep(tasks, i);
      errors := errors + more;
    }
    assert tasks[..|tasks|] == tasks;
  }

  /** The resource-reference errors of one requirement's candidates. */
  method CandidateListErrors(id: string, cands: seq<string>, known: set<string>) returns (errors: seq<ValidationError>)
    ensures errors == Unknown(InvalidResourceReference, id, cands, known)
  {
    errors := [];
    for c := 0 to |cands|
      invariant errors == Unknown(InvalidResourceReference, id, cands[..c], known)
    {
      assert cands[..c + 1][..c] == cands[..c];
      if cands[c] !in known {
        errors := errors + [ValidationError(InvalidResourceReference, ActivityEntity, id, cands[c])];
      }
    }
    assert cands[..|cands|] == cands;
  }

  lemma FlatCandidatesStep(reqs: seq<ResourceRequirement>, r: nat)
    requires r < |reqs|
    ensures FlatCandidates(reqs[..r + 1]) == FlatCandidates(reqs[..r]) + reqs[r].candidates
  {
    assert reqs[..r + 1] == reqs[..r] + [reqs[r]];
    FlatCandidatesAppend(reqs[..r], [reqs[r]]);
    assert [reqs[r]][1..] == [];
    assert FlatCandidates([reqs[r]]) == reqs[r].candidates + [];
  }

  /** The resource-reference errors of one activity, requirement by requirement. */
  method CandidateErrors(act: Activity, known: set<string>) returns (errors: seq<ValidationError>)
    ensures errors == Unknown(InvalidResourceReference, act.id, act.CandidateResources(), known)
  {
    var reqs := act.resourceRequirements;
    errors := [];
    for r := 0 to |reqs|
      invariant errors == Unknown(InvalidResourceReference, act.id, FlatCandidates(reqs[..r]), known)
    {
      var more := CandidateListErrors(act.id, reqs[r].candidates, known);
      FlatCandidatesStep(reqs, r);
      UnknownAppend(InvalidResourceReference, act.id, FlatCandidates(reqs[..r]), reqs[r].candidates, known);
      errors := errors + more;
    }
    assert reqs[..|reqs|] == reqs;
  }

  /** The predecessor errors of one activity. */
  method PredecessorErrors(act: Activity, known: set<string>) returns (errors: seq<ValidationError>)
    ensures errors == Unknown(InvalidPredecessor, act.id, act.predecessors, known)
  {
    var preds := act.predecessors;
    errors := [];
    for p := 0 to |preds|
      invariant errors == Unknown(InvalidPredecessor, act.id, preds[..p], known)
    {
      assert preds[..p + 1][..p] == preds[..p];
      if preds[p] !in known {
        errors := errors + [ValidationError(InvalidPredecessor, ActivityEntity, act.id, preds[p])];
      }
    }
    assert preds[..|preds|] == preds;
  }

  /** One task's activities in a reference pass. */
  method ActivityReferences(kind: ValidationErrorKind, acts: seq<Activity>, known: set<string>)
    returns (errors: seq<ValidationError>)
    requires kind == InvalidResourceReference || kind == InvalidPredecessor
    ensures errors == UnknownRefs(kind, acts, known)
  {
    errors := [];
    for j := 0 to |acts|
      invariant errors == UnknownRefs(kind, acts[..j], known)
    {
      var more;
      if kind == InvalidPredecessor {
        more := PredecessorErrors(acts[j], known);
      } else {
        more := CandidateErrors(acts[j], known);
      }
      assert acts[..j + 1][..j] == acts[..j];
      errors := errors + more;
    }
    assert acts[..|acts|] == acts;
  }

  /**
   * The third and fourth passes share their walk over every task's
   * activities; `kind` says which references the walk checks.
   */
  method CheckReferences(kind: ValidationErrorKind, tasks: seq<Task>, known: set<string>)
    returns (errors: seq<ValidationError>)
    requires kind == InvalidResourceReference || kind == InvalidPredecessor
    ensures errors == UnknownRefs(kind, AllActivities(tasks), known)
  {
    errors := [];
    for i := 0 to |tasks|
      invariant errors == UnknownRefs(kind, AllActivities(tasks[..i]), known)
    {
      var more := ActivityReferences(kind, tasks[i].activities, known);
      AllActivitiesStep(tasks, i);
      UnknownRefsAppend(kind, AllActivities(tasks[..i]), tasks[i].activities, known);
      errors := errors + more;
    }
    assert tasks[..|tasks|] == tasks;
  }

  /** `adj.entry(pred).or_default().push(id)` for each predecessor of one activity. */
  method AddActivityEdges(adj: map<string, seq<string>>, act: Activity) returns (adj': map<string, seq<string>>)
    ensures adj' == AddEdges(adj, act.predecessors, act.id)
  {
    adj' := adj;
    for p := 0 to |act.predecessors|
      invariant adj' == AddEdges(adj, act.predecessors[..p], act.id)
    {
      assert act.predecessors[..p + 1][..p] == act.predecessors[..p];
      var pred := act.predecessors[p];
      adj' := adj'[pred := (if pred in adj' then adj'[pred] else []) + [act.id]];
    }
    assert act.predecessors[..|act.predecessors|] == act.predecessors;
  }

  /** One task's activities added to the graph. */
  method AddTaskEdges(adj: map<string, seq<string>>, allIds: set<string>, ghost done: seq<Activity>, acts: seq<Activity>)
    returns (adj': map<string, seq<string>>, allIds': set<string>)
    requires adj == AdjOf(done) && allIds == ToSet(ActivityIds(done))
    ensures adj' == AdjOf(done + acts) && allIds' == ToSet(ActivityIds(done + acts))
  {
    adj', allIds' := adj, allIds;
    assert done + acts[..0] == done;
    for j := 0 to |acts|
      invariant adj' == AdjOf(done + acts[..j])
      invariant allIds' == ToSet(ActivityIds(done + acts[..j]))
    {
      GraphStep(done, acts, j);
      allIds' := allIds' + {acts[j].id};
      adj' := AddActivityEdges(adj', acts[j]);
    }
    assert acts[..|acts|] == acts;
  }

  /** One more activity adds its predecessor edges and its id. */
  lemma GraphStep(done: seq<Activity>, acts: seq<Activity>, j: nat)
    requires j < |acts|
    ensures AdjOf(done + acts[..j + 1]) == AddEdges(AdjOf(done + acts[..j]), acts[j].predecessors, acts[j].id)
    ensures ToSet(ActivityIds(done + acts[..j + 1])) == ToSet(ActivityIds(done + acts[..j])) + {acts[j].id}
  {
    SnocSlice(done, acts, j);
    AdjOfSnoc(done + acts[..j], acts[j]);
    IdsOfSnoc(done + acts[..j], acts[j]);
  }

  lemma SnocSlice(done: seq<Activity>, acts: seq<Activity>, j: nat)
    requires j < |acts|
    ensures done + acts[..j + 1] == (done + acts[..j]) + [acts[j]]
  {
    assert acts[..j + 1] == acts[..j] + [acts[j]];
  }

  lemma AdjOfSnoc(front: seq<Activity>, a: Activity)
    ensures AdjOf(front + [a]) == AddEdges(AdjOf(front), a.predecessors, a.id)
  {
    assert (front + [a])[..|front|] == front;
  }

  lemma IdsOfSnoc(front: seq<Activity>, a: Activity)
    ensures ToSet(ActivityIds(front + [a])) == ToSet(ActivityIds(front)) + {a.id}
  {
    ActivityIdsAppend(front, [a]);
    assert ActivityIds([a]) == [a.id];
    ToSetAppend(ActivityIds(front), a.id);
  }

  lemma ToSetAppend(s: seq<string>, x: string)
    ensures ToSet(s + [x]) == ToSet(s) + {x}
  {
    assert forall y :: y in s + [x] <==> y in s || y == x;
  }

  /** The graph of `detect_cycles`: predecessor edges and every activity id. */
  method BuildGraph(tasks: seq<Task>) returns (adj: map<string, seq<string>>, allIds: set<string>)
    ensures adj == AdjOf(AllActivities(tasks))
    ensures allIds == ToSet(ActivityIds(AllActivities(tasks)))
  {
    adj, allIds := map[], {};
    for i := 0 to |tasks|
      invariant adj == AdjOf(AllActivities(tasks[..i]))
      invariant allIds == ToSet(ActivityIds(AllActivities(tasks[..i])))
    {
      adj, allIds := AddTaskEdges(adj, allIds, AllActivities(tasks[..i]), tasks[i].activities);
      AllActivitiesStep(tasks, i);
    }
    assert tasks[..|tasks|] == tasks;
  }

  /** Every edge leads to an activity id. */
  lemma GraphClosed(acts: seq<Activity>)
    ensures Closed(AdjOf(acts), ToSet(ActivityIds(acts)))
  {
    forall a, b | Edge(AdjOf(acts), a, b)
      ensures b in ToSet(ActivityIds(acts))
    {
      EdgesAre(acts, a, b);
      var k :| 0 <= k < |acts| && acts[k].id == b && a in acts[k].predecessors;
      assert ActivityIds(acts)[k] == b;
    }
  }

  /**
   * `detect_cycles`: a DFS from every unvisited activity, in the unspecified
   * order of a hash set; the first search that meets a back edge names its
   * start node.
   */
  method DetectCycles(tasks: seq<Task>) returns (r: Option<ValidationError>)
    ensures r.Some? <==> HasCycle(AdjOf(AllActivities(tasks)))
    ensures r.Some? ==> r.value.kind == CyclicDependency && r.value.entity == ActivityEntity &&
                        r.value.entityId in ActivityIds(AllActivities(tasks)) && r.value.reference == ""
  {
    var adj, allIds := BuildGraph(tasks);
    GraphClosed(AllActivities(tasks));
    var visited: set<string> := {};
    ghost var order: seq<string> := [];
    var remaining := allIds;
    while remaining != {}
      invariant remaining <= allIds
      invariant DfsState(adj, visited, {}, [], order)
      invariant allIds - remaining <= visited
      decreases |remaining|
    {
      var node :| node in remaining;
      if node !in visited {
        var found, inStack;
        found, visited, inStack, order := HasCycleDfs(node, adj, allIds, visited, {}, [], order);
        if found {
          return Some(ValidationError(CyclicDependency, ActivityEntity, node, ""));
        }
      }
      remaining := remaining - {node};
    }
    AllFinishedIsAcyclic(adj, order, allIds);
    return None;
  }

  /**
   * `validate_input`: all five passes, their errors in order; `Ok` only when
   * there are none. The cycle error, when there is one, comes last and is
   * the only one of its kind.
   */
  method ValidateInput(tasks: seq<Task>, resources: seq<Resource>) returns (r: ValidationResult)
    ensures r == Ok <==> ListedChecksPass(tasks, resources) && !HasCycle(AdjOf(AllActivities(tasks)))
    ensures var listed := ListedErrors(tasks, resources);
      !HasCycle(AdjOf(AllActivities(tasks))) ==> r == (if listed == [] then Ok else Err(listed))
    ensures var listed := ListedErrors(tasks, resources);
      HasCycle(AdjOf(AllActivities(tasks))) ==>
        r.Err? && |r.errors| == |listed| + 1 && r.errors[..|listed|] == listed &&
        r.errors[|listed|].kind == CyclicDependency && r.errors[|listed|].entityId in ActivityIds(AllActivities(tasks))
  {
    var resourceIds, errors := CollectResourceIds(resources);
    var activityIds, taskErrors := CollectTaskIds(tasks);
    var refErrors := CheckReferences(InvalidResourceReference, tasks, resourceIds);
    var predErrors := CheckReferences(InvalidPredecessor, tasks, activityIds);
    errors := errors + taskErrors + refErrors + predErrors;
    ghost var listed := errors;
    var cycle := DetectCycles(tasks);
    if cycle.Some? {
      errors := errors + [cycle.value];
      assert errors[..|listed|] == listed;
    }
    r := if errors == [] then Ok else Err(errors);
    NoListedErrorsIffChecksPass(tasks, resources);
  }
}
