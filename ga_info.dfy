/**
 * The compact activity descriptors the genetic algorithm encodes
 * (`ActivityInfo` in src/ga/problem.rs): one per activity of every task,
 * in task-then-activity order.
 */
module ActivityInfos {
  import opened Common
  import opened Activities
  import opened Tasks

  datatype ActivityInfo = ActivityInfo(taskId: string, sequence: int, processMs: int, candidates: seq<string>)

  /** The descriptor of the activity at position `i` of task `t`: sequence numbers start at 1. */
  function InfoOf(t: Task, i: nat): ActivityInfo
    requires i < |t.activities|
  {
    ActivityInfo(t.id, i + 1, t.activities[i].duration.processMs, t.activities[i].CandidateResources())
  }

  /** The descriptors of the first `n` activities of task `t`, in activity order. */
  function InfosUpTo(t: Task, n: nat): (r: seq<ActivityInfo>)
    requires n <= |t.activities|
    ensures |r| == n
  {
    if n == 0 then [] else InfosUpTo(t, n - 1) + [InfoOf(t, n - 1)]
  }

  /** The descriptors of one task's activities, in activity order. */
  function TaskInfos(t: Task): (r: seq<ActivityInfo>)
    ensures |r| == |t.activities|
  {
    InfosUpTo(t, |t.activities|)
  }

  /** Position `i` of a task's descriptors describes its activity `i`. */
  lemma {:induction false} InfosUpToAt(t: Task, n: nat, i: nat)
    requires i < n <= |t.activities|
    ensures InfosUpTo(t, n)[i] == InfoOf(t, i)
  {
    if i < n - 1 {
      InfosUpToAt(t, n - 1, i);
    }
  }

  /** The descriptors of all tasks, task after task. */
  function InfosOf(tasks: seq<Task>): seq<ActivityInfo>
  {
    if tasks == [] then [] else InfosOf(tasks[..|tasks| - 1]) + TaskInfos(tasks[|tasks| - 1])
  }

  /** The number of activities over all tasks. */
  function ActivityTotal(tasks: seq<Task>): nat
  {
    if tasks == [] then 0 else ActivityTotal(tasks[..|tasks| - 1]) + |tasks[|tasks| - 1].activities|
  }

  /** `ActivityInfo::from_tasks`: a nested loop pushing one descriptor per activity. */
  method FromTasks(tasks: seq<Task>) returns (infos: seq<ActivityInfo>)
    ensures infos == InfosOf(tasks)
  {
    infos := [];
    for ti := 0 to |tasks|
      invariant infos == InfosOf(tasks[..ti])
    {
      var task := tasks[ti];
      assert tasks[..ti + 1][..ti] == tasks[..ti];
      for i := 0 to |task.activities|
        invariant infos == InfosOf(tasks[..ti]) + InfosUpTo(task, i)
      {
        var activity := task.activities[i];
        infos := infos + [ActivityInfo(task.id, i + 1, activity.duration.processMs, activity.CandidateResources())];
      }
    }
    assert tasks[..|tasks|] == tasks;
  }

  /** There is one descriptor per activity. */
  lemma {:induction false} InfosCount(tasks: seq<Task>)
    ensures |InfosOf(tasks)| == ActivityTotal(tasks)
  {
    if tasks != [] {
      InfosCount(tasks[..|tasks| - 1]);
    }
  }

  /**
   * The descriptor of activity `i` of task `ti` sits right after the
   * descriptors of the earlier tasks, so the order is task then activity.
   */
  lemma InfoPosition(tasks: seq<Task>, ti: nat, i: nat)
    requires ti < |tasks| && i < |tasks[ti].activities|
    ensures ActivityTotal(tasks[..ti]) + i < |InfosOf(tasks)|
    ensures InfosOf(tasks)[ActivityTotal(tasks[..ti]) + i] == InfoOf(tasks[ti], i)
  {
    var t := tasks[ti];
    InfosSplit(tasks, ti);
    InfosCount(tasks[..ti]);
    MiddleIndex(InfosOf(tasks[..ti]), TaskInfos(t), InfosOf(tasks[ti + 1..]), i);
    InfosUpToAt(t, |t.activities|, i);
  }

  /** The descriptors around task `ti`. */
  lemma {:induction false} InfosSplit(tasks: seq<Task>, ti: nat)
    requires ti < |tasks|
    ensures InfosOf(tasks) == (InfosOf(tasks[..ti]) + TaskInfos(tasks[ti])) + InfosOf(tasks[ti + 1..])
  {
    var init, last := tasks[..|tasks| - 1], tasks[|tasks| - 1];
    if ti == |tasks| - 1 {
      assert init == tasks[..ti] && tasks[ti + 1..] == [];
    } else {
      InfosSplit(init, ti);
      assert init[..ti] == tasks[..ti];
      InfosDropLast(tasks, ti);
      var front, mid, tail := InfosOf(tasks[..ti]), TaskInfos(tasks[ti]), InfosOf(init[ti + 1..]);
      AppendAssoc(front + mid, tail, TaskInfos(last));
    }
  }

  /** The descriptors after task `ti` end with those of the last task. */
  lemma InfosDropLast(tasks: seq<Task>, ti: nat)
    requires ti < |tasks| - 1
    ensures InfosOf(tasks[ti + 1..]) == InfosOf(tasks[..|tasks| - 1][ti + 1..]) + TaskInfos(tasks[|tasks| - 1])
  {
    var rest := tasks[ti + 1..];
    assert rest[..|rest| - 1] == tasks[..|tasks| - 1][ti + 1..];
  }

  lemma MiddleIndex(front: seq<ActivityInfo>, mid: seq<ActivityInfo>, back: seq<ActivityInfo>, i: nat)
    requires i < |mid|
    ensures |front| + i < |(front + mid) + back| && ((front + mid) + back)[|front| + i] == mid[i]
  {
  }
}
