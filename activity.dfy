/**
 * Activities (src/models/activity.rs): the smallest schedulable unit of
 * work, with a three-part duration, resource requirements and predecessors.
 */
module Activities {

  /** Setup, processing and teardown time of an activity, in milliseconds. */
  datatype ActivityDuration = ActivityDuration(setupMs: int, processMs: int, teardownMs: int)
  {
    function TotalMs(): int
    {
      setupMs + processMs + teardownMs
    }
  }

  /** `ActivityDuration::fixed`: processing time only. */
  function Fixed(processMs: int): ActivityDuration
  {
    ActivityDuration(0, processMs, 0)
  }

  /** A fixed duration has no setup or teardown, so its total is its processing time. */
  lemma FixedTotal(processMs: int)
    ensures Fixed(processMs).setupMs == 0 && Fixed(processMs).teardownMs == 0
    ensures Fixed(processMs).processMs == processMs
    ensures Fixed(processMs).TotalMs() == processMs
  {
  }

  /** The total is the sum of the three components, so it moves with each of them. */
  lemma TotalMsSumsParts(d: ActivityDuration, extraSetup: int)
    ensures d.TotalMs() - d.processMs == d.setupMs + d.teardownMs
    ensures d.(setupMs := d.setupMs + extraSetup).TotalMs() == d.TotalMs() + extraSetup
  {
  }

  /** What an activity needs: a resource type, a quantity and the resources allowed. */
  datatype ResourceRequirement = ResourceRequirement(
    resourceType: string,
    quantity: int,
    candidates: seq<string>,
    requiredSkills: seq<string>)
  {
    function WithQuantity(q: int): (r: ResourceRequirement)
      ensures r.quantity == q && r.(quantity := quantity) == this
    {
      this.(quantity := q)
    }

    /** Replaces the candidate list. */
    function WithCandidates(cs: seq<string>): (r: ResourceRequirement)
      ensures r.candidates == cs && r.(candidates := candidates) == this
    {
      this.(candidates := cs)
    }

    function WithSkill(skill: string): (r: ResourceRequirement)
      ensures r.requiredSkills == requiredSkills + [skill] && r.(requiredSkills := requiredSkills) == this
    {
      this.(requiredSkills := requiredSkills + [skill])
    }
  }

  /** `ResourceRequirement::new`: one unit, any resource of the type, no skills. */
  function NewRequirement(resourceType: string): (r: ResourceRequirement)
    ensures r.resourceType == resourceType && r.quantity == 1
    ensures r.candidates == [] && r.requiredSkills == []
  {
    ResourceRequirement(resourceType, 1, [], [])
  }

  /** The candidates of every requirement, concatenated in order (a `flat_map`). */
  function FlatCandidates(reqs: seq<ResourceRequirement>): (r: seq<string>)
    ensures forall c :: c in r <==> exists i :: 0 <= i < |reqs| && c in reqs[i].candidates
  {
    if reqs == [] then []
    else
      var rest := FlatCandidates(reqs[1..]);
      assert forall i :: 1 <= i < |reqs| ==> reqs[i] == reqs[1..][i - 1];
      reqs[0].candidates + rest
  }

  /** Concatenation distributes: the candidates of `a + b` are those of `a` then those of `b`. */
  lemma {:induction false} FlatCandidatesAppend(a: seq<ResourceRequirement>, b: seq<ResourceRequirement>)
    ensures FlatCandidates(a + b) == FlatCandidates(a) + FlatCandidates(b)
  {
    if a != [] {
      assert (a + b)[1..] == a[1..] + b;
      FlatCandidatesAppend(a[1..], b);
    } else {
      assert a + b == b;
    }
  }

  /** An activity: an identified step of a task with its duration and needs. */
  datatype Activity = Activity(
    id: string,
    taskId: string,
    sequence: int,
    duration: ActivityDuration,
    resourceRequirements: seq<ResourceRequirement>,
    predecessors: seq<string>,
    splittable: bool,
    minSplitMs: int)
  {
    function WithDuration(d: ActivityDuration): (r: Activity)
      ensures r.duration == d && r.(duration := duration) == this
    {
      this.(duration := d)
    }

    /** Sets a fixed duration (no setup or teardown). */
    function WithProcessTime(processMs: int): (r: Activity)
      ensures r.duration.TotalMs() == processMs && r.duration.processMs == processMs
      ensures r.(duration := duration) == this
    {
      this.(duration := Fixed(processMs))
    }

    function WithRequirement(req: ResourceRequirement): (r: Activity)
      ensures r.resourceRequirements == resourceRequirements + [req]
      ensures r.(resourceRequirements := resourceRequirements) == this
    {
      this.(resourceRequirements := resourceRequirements + [req])
    }

    function WithPredecessor(pred: string): (r: Activity)
      ensures r.predecessors == predecessors + [pred]
      ensures r.(predecessors := predecessors) == this
    {
      this.(predecessors := predecessors + [pred])
    }

    function WithSplitting(minSplitMs: int): (r: Activity)
      ensures r.splittable && r.minSplitMs == minSplitMs
      ensures r.(splittable := splittable, minSplitMs := this.minSplitMs) == this
    {
      this.(splittable := true, minSplitMs := minSplitMs)
    }

    /** `candidate_resources`: every requirement's candidates, in order. */
    function CandidateResources(): seq<string>
    {
      FlatCandidates(resourceRequirements)
    }
  }

  /** `Activity::new`: zero duration, no requirements or predecessors, not splittable. */
  function NewActivity(id: string, taskId: string, sequence: int): (a: Activity)
    ensures a.id == id && a.taskId == taskId && a.sequence == sequence
    ensures a.duration == Fixed(0)
    ensures a.resourceRequirements == [] && a.predecessors == []
    ensures !a.splittable && a.minSplitMs == 0
  {
    Activity(id, taskId, sequence, Fixed(0), [], [], false, 0)
  }

  /** Adding a requirement appends exactly its candidates to `candidate_resources`. */
  lemma CandidatesOfAddedRequirement(a: Activity, req: ResourceRequirement)
    ensures a.WithRequirement(req).CandidateResources() == a.CandidateResources() + req.candidates
  {
    FlatCandidatesAppend(a.resourceRequirements, [req]);
    assert [req][1..] == [];
  }

  /** A fresh activity has no candidate resources. */
  lemma NewActivityHasNoCandidates(id: string, taskId: string, sequence: int)
    ensures NewActivity(id, taskId, sequence).CandidateResources() == []
  {
  }
}
