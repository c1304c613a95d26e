/**
 * The rule engine (src/dispatching/engine.rs): an ordered chain of
 * dispatching rules compared one after the other, with a final tie-breaker.
 */
module Engine {
  import opened Common
  import opened Tasks
  import opened SchedulingContexts
  import opened Rules
  import opened Sorting

  /** The weights the builders give: 1 for a primary rule, 0 for a tie-breaking one. */
  type Weight = w: int | 0 <= w <= 1

  datatype WeightedRule = WeightedRule(rule: Rule, weight: Weight)

  /** A score multiplied by a weight of 0 or 1 (`f64::MAX * 0.0` is 0). */
  function Scale(s: Score, w: Weight): (r: Score)
    ensures w == 1 ==> r == s
    ensures w == 0 ==> r == Finite(0)
  {
    if w == 1 then s else Finite(0)
  }

  datatype RuleEngine = RuleEngine(rules: seq<WeightedRule>, tieBreaker: TieBreaker)
  {
    /** Appends a primary rule (weight 1). */
    function WithRule(r: Rule): (e: RuleEngine)
      ensures e.rules == rules + [WeightedRule(r, 1)] && e.tieBreaker == tieBreaker
    {
      this.(rules := rules + [WeightedRule(r, 1)])
    }

    /** Appends a tie-breaking rule (weight 0). */
    function WithTieBreaker(r: Rule): (e: RuleEngine)
      ensures e.rules == rules + [WeightedRule(r, 0)] && e.tieBreaker == tieBreaker
    {
      this.(rules := rules + [WeightedRule(r, 0)])
    }

    function WithFinalTieBreaker(tb: TieBreaker): (e: RuleEngine)
      ensures e.rules == rules && e.tieBreaker == tb
    {
      this.(tieBreaker := tb)
    }

    /** Every rule's unweighted score for one task, in chain order. */
    function Scores(t: Task, ctx: SchedulingContext): (r: seq<Score>)
      ensures |r| == |rules|
      ensures forall i :: 0 <= i < |rules| ==> r[i] == Rules.Evaluate(rules[i].rule, t, ctx)
    {
      seq(|rules|, i requires 0 <= i < |rules| => Rules.Evaluate(rules[i].rule, t, ctx))
    }

    /** `evaluate`: every rule's score multiplied by its weight. */
    function Evaluate(t: Task, ctx: SchedulingContext): (r: seq<Score>)
      ensures |r| == |rules|
      ensures forall i :: 0 <= i < |rules| ==> r[i] == Scale(Rules.Evaluate(rules[i].rule, t, ctx), rules[i].weight)
    {
      seq(|rules|, i requires 0 <= i < |rules| => Scale(Rules.Evaluate(rules[i].rule, t, ctx), rules[i].weight))
    }

    function Key(t: Task, ctx: SchedulingContext): SortKey
    {
      SortKey(Scores(t, ctx), t.id)
    }

    function Keys(tasks: seq<Task>, ctx: SchedulingContext): (r: seq<SortKey>)
      ensures |r| == |tasks| && UniformKeys(r)
      ensures forall i :: 0 <= i < |tasks| ==> r[i] == Key(tasks[i], ctx)
    {
      seq(|tasks|, i requires 0 <= i < |tasks| => Key(tasks[i], ctx))
    }

    /** The order `compare_sequential` defines on two tasks. */
    function SequentialOrder(a: Task, b: Task, ctx: SchedulingContext): Ordering
    {
      CompareKeys(tieBreaker, Key(a, ctx), Key(b, ctx))
    }

    /**
     * `compare_sequential`: the first rule whose scores differ decides; when
     * every rule ties, the final tie-breaker (by id, or `Equal`).
     */
    method CompareSequential(a: Task, b: Task, ctx: SchedulingContext) returns (o: Ordering)
      ensures o == SequentialOrder(a, b, ctx)
    {
      var sa := Scores(a, ctx);
      var sb := Scores(b, ctx);
      var i := 0;
      while i < |rules|
        invariant 0 <= i <= |rules|
        invariant CompareScoresFrom(sa, sb, 0) == CompareScoresFrom(sa, sb, i)
      {
        var scoreA := Rules.Evaluate(rules[i].rule, a, ctx);
        var scoreB := Rules.Evaluate(rules[i].rule, b, ctx);
        CompareScoreReverse(scoreA, scoreB);
        if scoreA != scoreB {
          return CompareScore(scoreA, scoreB);
        }
        i := i + 1;
      }
      match tieBreaker {
        case NextRule => o := Equal;
        case ById => o := CompareString(a.id, b.id);
      }
    }

    /** The stable order of the task indices that `sort_indices` returns. */
    function SortOrder(tasks: seq<Task>, ctx: SchedulingContext): seq<nat>
    {
      StableSortIndices(Keys(tasks, ctx), tieBreaker, |tasks|)
    }

    /** `sort_indices` in sequential mode: the task indices, highest priority first. */
    method SortIndices(tasks: seq<Task>, ctx: SchedulingContext) returns (indices: seq<nat>)
      ensures indices == SortOrder(tasks, ctx)
    {
      if |tasks| == 0 {
        return [];
      }
      indices := SortByKeys(Keys(tasks, ctx), tieBreaker);
    }

    /** `select_best`: the first index of the sorted order, `None` for no tasks. */
    method SelectBest(tasks: seq<Task>, ctx: SchedulingContext) returns (r: Option<nat>)
      ensures r.None? <==> tasks == []
      ensures r.Some? ==> r.value < |tasks|
      ensures r.Some? ==> forall j :: 0 <= j < |tasks| ==> SequentialOrder(tasks[r.value], tasks[j], ctx) != Greater
      ensures r.Some? ==> forall j :: 0 <= j < |tasks| && SequentialOrder(tasks[r.value], tasks[j], ctx) == Equal ==> r.value <= j
    {
      var order := SortIndices(tasks, ctx);
      if order == [] {
        return None;
      }
      SortedOrderFirstIsBest(this, tasks, ctx);
      return Some(order[0]);
    }
  }

  /** `RuleEngine::new`: no rules, ties left as `Equal`. */
  function NewEngine(): (e: RuleEngine)
    ensures e.rules == [] && e.tieBreaker == NextRule
  {
    RuleEngine([], NextRule)
  }

  /**
   * The sorted order is a permutation of the task indices in which every
   * pair of positions is in rule order and tied tasks keep their input order.
   */
  lemma SortOrderIsStableSort(e: RuleEngine, tasks: seq<Task>, ctx: SchedulingContext)
    ensures multiset(e.SortOrder(tasks, ctx)) == multiset(Iota(|tasks|))
    ensures var s := e.SortOrder(tasks, ctx);
      forall i, j :: 0 <= i < j < |tasks| ==> e.SequentialOrder(tasks[s[i]], tasks[s[j]], ctx) != Greater
    ensures var s := e.SortOrder(tasks, ctx);
      forall i, j :: 0 <= i < j < |tasks| && e.SequentialOrder(tasks[s[i]], tasks[s[j]], ctx) == Equal ==> s[i] < s[j]
  {
    var keys, s := e.Keys(tasks, ctx), e.SortOrder(tasks, ctx);
    StableSortIsSortedPermutation(keys, e.tieBreaker, |tasks|);
    assert SortedBy(keys, e.tieBreaker, s) && StableBy(keys, e.tieBreaker, s);
    forall i, j | 0 <= i < j < |tasks|
      ensures e.SequentialOrder(tasks[s[i]], tasks[s[j]], ctx) == CompareKeys(e.tieBreaker, keys[s[i]], keys[s[j]])
    {
      assert keys[s[i]] == e.Key(tasks[s[i]], ctx) && keys[s[j]] == e.Key(tasks[s[j]], ctx);
    }
  }

  /** The first sorted index is not after any task, and is the earliest among its ties. */
  lemma SortedOrderFirstIsBest(e: RuleEngine, tasks: seq<Task>, ctx: SchedulingContext)
    requires tasks != []
    ensures e.SortOrder(tasks, ctx)[0] < |tasks|
    ensures forall j :: 0 <= j < |tasks| ==> e.SequentialOrder(tasks[e.SortOrder(tasks, ctx)[0]], tasks[j], ctx) != Greater
    ensures forall j :: 0 <= j < |tasks| && e.SequentialOrder(tasks[e.SortOrder(tasks, ctx)[0]], tasks[j], ctx) == Equal ==>
      e.SortOrder(tasks, ctx)[0] <= j
  {
    var s := e.SortOrder(tasks, ctx);
    SortOrderIsStableSort(e, tasks, ctx);
    forall j | 0 <= j < |tasks|
      ensures e.SequentialOrder(tasks[s[0]], tasks[j], ctx) != Greater
      ensures e.SequentialOrder(tasks[s[0]], tasks[j], ctx) == Equal ==> s[0] <= j
    {
      assert Iota(|tasks|)[j] == j;
      assert j in multiset(s);
      var k :| 0 <= k < |s| && s[k] == j;
      if k == 0 {
        CompareKeysReverse(e.tieBreaker, e.Key(tasks[j], ctx), e.Key(tasks[j], ctx));
      }
    }
  }

  /** With a single rule, `compare_sequential` orders tasks by that rule's scores. */
  lemma SingleRuleOrdersByScore(r: Rule, a: Task, b: Task, ctx: SchedulingContext)
    requires Rules.Evaluate(r, a, ctx) != Rules.Evaluate(r, b, ctx)
    ensures NewEngine().WithRule(r).SequentialOrder(a, b, ctx) == CompareScore(Rules.Evaluate(r, a, ctx), Rules.Evaluate(r, b, ctx))
  {
    CompareScoreReverse(Rules.Evaluate(r, a, ctx), Rules.Evaluate(r, b, ctx));
  }

  /** A tie on the primary rule is decided by the tie-breaking rule. */
  lemma TieBreakerDecidesTies(primary: Rule, secondary: Rule, a: Task, b: Task, ctx: SchedulingContext)
    requires Rules.Evaluate(primary, a, ctx) == Rules.Evaluate(primary, b, ctx)
    ensures NewEngine().WithRule(primary).WithTieBreaker(secondary).SequentialOrder(a, b, ctx) ==
            CompareScore(Rules.Evaluate(secondary, a, ctx), Rules.Evaluate(secondary, b, ctx))
  {
    var e := NewEngine().WithRule(primary).WithTieBreaker(secondary);
    CompareScoreReverse(Rules.Evaluate(primary, a, ctx), Rules.Evaluate(primary, b, ctx));
    CompareScoreReverse(Rules.Evaluate(secondary, a, ctx), Rules.Evaluate(secondary, b, ctx));
    var sa, sb := e.Scores(a, ctx), e.Scores(b, ctx);
    assert sa[0] == sb[0];
    assert sa[1] == Rules.Evaluate(secondary, a, ctx) && sb[1] == Rules.Evaluate(secondary, b, ctx);
    assert CompareScoresFrom(sa, sb, 2) == Equal;
    assert CompareScoresFrom(sa, sb, 1) == CompareScore(sa[1], sb[1]);
    assert CompareScoresFrom(sa, sb, 0) == CompareScoresFrom(sa, sb, 1);
  }

  /** Appending a rule appends its score and leaves the earlier ones. */
  lemma EvaluateAfterWithRule(e: RuleEngine, r: Rule, t: Task, ctx: SchedulingContext)
    ensures e.WithRule(r).Evaluate(t, ctx) == e.Evaluate(t, ctx) + [Rules.Evaluate(r, t, ctx)]
    ensures e.WithTieBreaker(r).Evaluate(t, ctx) == e.Evaluate(t, ctx) + [Finite(0)]
  {
  }

  /** When every rule ties, `ById` orders by task id and `NextRule` leaves `Equal`. */
  lemma AllTiedUsesFinalTieBreaker(e: RuleEngine, a: Task, b: Task, ctx: SchedulingContext)
    requires e.Scores(a, ctx) == e.Scores(b, ctx)
    ensures e.tieBreaker == NextRule ==> e.SequentialOrder(a, b, ctx) == Equal
    ensures e.tieBreaker == ById ==> e.SequentialOrder(a, b, ctx) == CompareString(a.id, b.id)
  {
    CompareScoresFromFirstDifference(e.Scores(a, ctx), e.Scores(b, ctx), 0);
  }
}
