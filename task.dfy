/**
 * Tasks (src/models/task.rs): a job made of activities, with a priority,
 * an optional deadline and an optional release time.
 */
module Tasks {
  import opened Common
  import opened Activities

  datatype Task = Task(
    id: string,
    name: string,
    category: string,
    priority: int,
    deadline: Option<int>,
    releaseTime: Option<int>,
    activities: seq<Activity>)
  {
    /** Each of these builders sets one field and changes no other. */
    function WithName(n: string): (r: Task)
      ensures r.name == n && r.(name := name) == this
    {
      this.(name := n)
    }

    function WithCategory(c: string): (r: Task)
      ensures r.category == c && r.(category := category) == this
    {
      this.(category := c)
    }

    function WithPriority(p: int): (r: Task)
      ensures r.priority == p && r.(priority := priority) == this
    {
      this.(priority := p)
    }

    function WithDeadline(d: int): (r: Task)
      ensures r.deadline == Some(d) && r.(deadline := deadline) == this
    {
      this.(deadline := Some(d))
    }

    function WithReleaseTime(t: int): (r: Task)
      ensures r.releaseTime == Some(t) && r.(releaseTime := releaseTime) == this
    {
      this.(releaseTime := Some(t))
    }

    /** Appends an activity and changes no other field. */
    function WithActivity(a: Activity): (r: Task)
      ensures r.activities == activities + [a]
      ensures r.(activities := activities) == this
    {
      this.(activities := activities + [a])
    }

    /** The sum of the activities' total durations. */
    function TotalDurationMs(): int
    {
      SumTotals(activities)
    }

    function HasActivities(): (r: bool)
      ensures r <==> ActivityCount() > 0
    {
      activities != []
    }

    function ActivityCount(): (n: nat)
      ensures n == |activities|
    {
      |activities|
    }
  }

  /** The sum of `total_ms` over a sequence of activities. */
  function SumTotals(acts: seq<Activity>): int
  {
    if acts == [] then 0 else acts[0].duration.TotalMs() + SumTotals(acts[1..])
  }

  /** Summing over a concatenation sums each part. */
  lemma {:induction false} SumTotalsAppend(a: seq<Activity>, b: seq<Activity>)
    ensures SumTotals(a + b) == SumTotals(a) + SumTotals(b)
  {
    if a == [] {
      assert a + b == b;
    } else {
      assert (a + b)[1..] == a[1..] + b;
      SumTotalsAppend(a[1..], b);
    }
  }

  /** Adding an activity adds its total duration to the task's. */
  lemma TotalDurationOfAddedActivity(t: Task, a: Activity)
    ensures t.WithActivity(a).TotalDurationMs() == t.TotalDurationMs() + a.duration.TotalMs()
  {
    SumTotalsAppend(t.activities, [a]);
    assert [a][1..] == [];
  }

  /** With non-negative activity durations, a task's total bounds each of them. */
  lemma {:induction false} TotalDurationBoundsEach(acts: seq<Activity>, k: nat)
    requires forall i :: 0 <= i < |acts| ==> acts[i].duration.TotalMs() >= 0
    requires k < |acts|
    ensures acts[k].duration.TotalMs() <= SumTotals(acts)
    ensures 0 <= SumTotals(acts)
  {
    SumTotalsNonNegative(acts);
    if k > 0 {
      assert forall i :: 0 <= i < |acts[1..]| ==> acts[1..][i] == acts[i + 1];
      TotalDurationBoundsEach(acts[1..], k - 1);
    } else {
      SumTotalsNonNegative(acts[1..]);
    }
  }

  lemma {:induction false} SumTotalsNonNegative(acts: seq<Activity>)
    requires forall i :: 0 <= i < |acts| ==> acts[i].duration.TotalMs() >= 0
    ensures 0 <= SumTotals(acts)
  {
    if acts != [] {
      assert forall i :: 0 <= i < |acts[1..]| ==> acts[1..][i] == acts[i + 1];
      SumTotalsNonNegative(acts[1..]);
    }
  }

  /** `Task::new`: priority 0, no deadline, no release time, no activities. */
  function NewTask(id: string): (t: Task)
    ensures t.id == id && t.name == "" && t.category == ""
    ensures t.priority == 0 && t.deadline == None && t.releaseTime == None
    ensures t.activities == []
  {
    Task(id, "", "", 0, None, None, [])
  }

  /** A task with no activities has no duration and reports no activities. */
  lemma EmptyTaskHasNoDuration(id: string)
    ensures NewTask(id).TotalDurationMs() == 0
    ensures !NewTask(id).HasActivities() && NewTask(id).ActivityCount() == 0
  {
  }
}
