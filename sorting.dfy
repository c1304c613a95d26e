/**
 * The stable sort of task indices that `RuleEngine::sort_indices` and
 * `SimpleScheduler::sort_tasks` perform with `sort_by`
 * (src/dispatching/engine.rs, src/scheduler/simple.rs).
 *
 * Each index carries a key: the rule scores of its task, compared
 * lexicographically, then optionally the task id. The sort is specified by
 * a stable insertion into a sorted prefix; `SortByKeys` computes it with a
 * loop, and the lemmas show the result is a sorted, stable permutation.
 */
module Sorting {
  import opened Common
  import opened Rules

  /** What happens when every rule ties. */
  datatype TieBreaker = NextRule | ById

  /** The rule scores of one task, and its id for the `ById` tie-break. */
  datatype SortKey = SortKey(scores: seq<Score>, id: string)

  /**
   * Lexicographic comparison from position `i`: the first rule whose scores
   * differ decides, and `Equal` when all remaining rules tie.
   */
  function CompareScoresFrom(xs: seq<Score>, ys: seq<Score>, i: nat): Ordering
    decreases |xs| - i
  {
    if i >= |xs| || i >= |ys| then Equal
    else if CompareScore(xs[i], ys[i]) != Equal then CompareScore(xs[i], ys[i])
    else CompareScoresFrom(xs, ys, i + 1)
  }

  function CompareScores(xs: seq<Score>, ys: seq<Score>): Ordering
  {
    CompareScoresFrom(xs, ys, 0)
  }

  /** The rule comparison, then the final tie-breaker. */
  function CompareKeys(tb: TieBreaker, a: SortKey, b: SortKey): Ordering
  {
    var c := CompareScores(a.scores, b.scores);
    if c != Equal then c
    else if tb == ById then CompareString(a.id, b.id)
    else Equal
  }

  /** The first differing position decides, and full agreement gives `Equal`. */
  lemma {:induction false} CompareScoresFromFirstDifference(xs: seq<Score>, ys: seq<Score>, i: nat)
    requires |xs| == |ys| && i <= |xs|
    ensures CompareScoresFrom(xs, ys, i) == Equal <==> forall j :: i <= j < |xs| ==> xs[j] == ys[j]
    ensures CompareScoresFrom(xs, ys, i) != Equal ==>
      exists k :: i <= k < |xs| && (forall j :: i <= j < k ==> xs[j] == ys[j]) &&
        CompareScore(xs[k], ys[k]) == CompareScoresFrom(xs, ys, i)
    decreases |xs| - i
  {
    if i < |xs| {
      CompareScoreReverse(xs[i], ys[i]);
      if CompareScore(xs[i], ys[i]) == Equal {
        CompareScoresFromFirstDifference(xs, ys, i + 1);
        if CompareScoresFrom(xs, ys, i) != Equal {
          var k :| i + 1 <= k < |xs| && (forall j :: i + 1 <= j < k ==> xs[j] == ys[j]) &&
                   CompareScore(xs[k], ys[k]) == CompareScoresFrom(xs, ys, i + 1);
          assert forall j :: i <= j < k ==> xs[j] == ys[j];
        }
      }
    }
  }

  lemma {:induction false} CompareScoresFromReverse(xs: seq<Score>, ys: seq<Score>, i: nat)
    ensures CompareScoresFrom(ys, xs, i) == CompareScoresFrom(xs, ys, i).Reverse()
    decreases |xs| - i
  {
    if i < |xs| && i < |ys| {
      CompareScoreReverse(xs[i], ys[i]);
      if CompareScore(xs[i], ys[i]) == Equal {
        CompareScoresFromReverse(xs, ys, i + 1);
      }
    }
  }

  lemma {:induction false} CompareScoresFromTransitive(xs: seq<Score>, ys: seq<Score>, zs: seq<Score>, i: nat)
    requires |xs| == |ys| == |zs|
    requires CompareScoresFrom(xs, ys, i) != Greater && CompareScoresFrom(ys, zs, i) != Greater
    ensures CompareScoresFrom(xs, zs, i) != Greater
    ensures CompareScoresFrom(xs, ys, i) == Less || CompareScoresFrom(ys, zs, i) == Less ==>
            CompareScoresFrom(xs, zs, i) == Less
    decreases |xs| - i
  {
    if i < |xs| {
      CompareScoreTransitive(xs[i], ys[i], zs[i]);
      CompareScoreReverse(xs[i], ys[i]);
      CompareScoreReverse(ys[i], zs[i]);
      if CompareScore(xs[i], ys[i]) == Equal && CompareScore(ys[i], zs[i]) == Equal {
        CompareScoresFromTransitive(xs, ys, zs, i + 1);
      }
    }
  }

  /** Swapping the arguments reverses the key order. */
  lemma CompareKeysReverse(tb: TieBreaker, a: SortKey, b: SortKey)
    ensures CompareKeys(tb, b, a) == CompareKeys(tb, a, b).Reverse()
  {
    CompareScoresFromReverse(a.scores, b.scores, 0);
    CompareStringReverse(a.id, b.id);
  }

  /** "Not after" is transitive among keys with as many scores. */
  lemma CompareKeysTransitive(tb: TieBreaker, a: SortKey, b: SortKey, c: SortKey)
    requires |a.scores| == |b.scores| == |c.scores|
    requires CompareKeys(tb, a, b) != Greater && CompareKeys(tb, b, c) != Greater
    ensures CompareKeys(tb, a, c) != Greater
  {
    var ab := CompareScores(a.scores, b.scores);
    var bc := CompareScores(b.scores, c.scores);
    CompareScoresFromTransitive(a.scores, b.scores, c.scores, 0);
    if ab == Equal && bc == Equal && tb == ById {
      CompareStringTransitive(a.id, b.id, c.id);
    }
  }

  /** With `ById`, distinct ids never tie. */
  lemma ByIdIsStrict(a: SortKey, b: SortKey)
    requires a.id != b.id
    ensures CompareKeys(ById, a, b) != Equal
  {
    CompareStringEqual(a.id, b.id);
  }

  /** All keys carry one score per rule. */
  predicate UniformKeys(keys: seq<SortKey>)
  {
    forall i, j :: 0 <= i < |keys| && 0 <= j < |keys| ==> |keys[i].scores| == |keys[j].scores|
  }

  predicate InRange(s: seq<nat>, n: nat)
  {
    forall k :: 0 <= k < |s| ==> s[k] < n
  }

  /** `0, 1, …, n − 1`: the indices `sort_indices` starts from. */
  function Iota(n: nat): (r: seq<nat>)
    ensures |r| == n && forall k :: 0 <= k < n ==> r[k] == k
  {
    if n == 0 then [] else Iota(n - 1) + [n - 1]
  }

  /** Every pair of positions is in key order. */
  predicate SortedBy(keys: seq<SortKey>, tb: TieBreaker, s: seq<nat>)
    requires InRange(s, |keys|)
  {
    forall i, j :: 0 <= i < j < |s| ==> CompareKeys(tb, keys[s[i]], keys[s[j]]) != Greater
  }

  /** Indices whose keys tie keep their original relative order. */
  predicate StableBy(keys: seq<SortKey>, tb: TieBreaker, s: seq<nat>)
    requires InRange(s, |keys|)
  {
    forall i, j :: 0 <= i < j < |s| && CompareKeys(tb, keys[s[i]], keys[s[j]]) == Equal ==> s[i] < s[j]
  }

  /**
   * Inserts `x` into `sorted`, passing from the back over the entries whose
   * key is strictly after `x`'s: one step of a stable insertion sort.
   */
  function InsertIndex(keys: seq<SortKey>, tb: TieBreaker, sorted: seq<nat>, x: nat): (r: seq<nat>)
    requires x < |keys| && InRange(sorted, |keys|)
    ensures |r| == |sorted| + 1 && InRange(r, |keys|)
    ensures InRange(sorted, x) ==> InRange(r, x + 1)
  {
    if sorted == [] then [x]
    else
      var last := sorted[|sorted| - 1];
      var init := sorted[..|sorted| - 1];
      if CompareKeys(tb, keys[last], keys[x]) == Greater then InsertIndex(keys, tb, init, x) + [last]
      else sorted + [x]
  }

  /** The indices 0 … n − 1 stably sorted by key. */
  function StableSortIndices(keys: seq<SortKey>, tb: TieBreaker, n: nat): (r: seq<nat>)
    requires n <= |keys|
    ensures |r| == n && InRange(r, n)
  {
    if n == 0 then [] else InsertIndex(keys, tb, StableSortIndices(keys, tb, n - 1), n - 1)
  }

  /** Inserting adds exactly the inserted index. */
  lemma {:induction false} InsertIndexPermutes(keys: seq<SortKey>, tb: TieBreaker, sorted: seq<nat>, x: nat)
    requires x < |keys| && InRange(sorted, |keys|)
    ensures multiset(InsertIndex(keys, tb, sorted, x)) == multiset(sorted) + multiset{x}
  {
    if sorted != [] {
      var last := sorted[|sorted| - 1];
      var init := sorted[..|sorted| - 1];
      assert sorted == init + [last];
      if CompareKeys(tb, keys[last], keys[x]) == Greater {
        InsertIndexPermutes(keys, tb, init, x);
      }
    }
  }

  /** The sorted order holds every index 0 … n − 1 as often as `Iota(n)` does. */
  lemma {:induction false} StableSortPermutes(keys: seq<SortKey>, tb: TieBreaker, n: nat)
    requires n <= |keys|
    ensures multiset(StableSortIndices(keys, tb, n)) == multiset(Iota(n))
  {
    if n > 0 {
      var x: nat := n - 1;
      var prev := StableSortIndices(keys, tb, x);
      StableSortPermutes(keys, tb, x);
      InsertIndexPermutes(keys, tb, prev, x);
      calc {
        multiset(StableSortIndices(keys, tb, n));
        multiset(InsertIndex(keys, tb, prev, x));
        multiset(prev) + multiset{x};
        multiset(Iota(x)) + multiset{x};
        multiset(Iota(x) + [x]);
      }
    }
  }

  /** Every index of `s` may precede `y`: not after it by key, and smaller when tied. */
  predicate AllBefore(keys: seq<SortKey>, tb: TieBreaker, s: seq<nat>, y: nat)
    requires y < |keys|
  {
    forall z :: z in s ==> z < |keys| && CompareKeys(tb, keys[z], keys[y]) != Greater &&
                           (CompareKeys(tb, keys[z], keys[y]) == Equal ==> z < y)
  }

  lemma AppendKeepsOrder(keys: seq<SortKey>, tb: TieBreaker, s: seq<nat>, y: nat)
    requires y < |keys| && InRange(s, |keys|)
    requires SortedBy(keys, tb, s) && StableBy(keys, tb, s) && AllBefore(keys, tb, s, y)
    ensures InRange(s + [y], |keys|)
    ensures SortedBy(keys, tb, s + [y]) && StableBy(keys, tb, s + [y])
  {
    var r := s + [y];
    forall i, j | 0 <= i < j < |r|
      ensures CompareKeys(tb, keys[r[i]], keys[r[j]]) != Greater
      ensures CompareKeys(tb, keys[r[i]], keys[r[j]]) == Equal ==> r[i] < r[j]
    {
      assert r[i] == s[i];
      if j < |s| {
        assert r[j] == s[j];
      } else {
        assert s[i] in s;
      }
    }
  }

  /** In a sorted, stable sequence the prefix is sorted and stable and may precede the last index. */
  lemma PrefixBeforeLast(keys: seq<SortKey>, tb: TieBreaker, s: seq<nat>)
    requires s != [] && InRange(s, |keys|)
    requires SortedBy(keys, tb, s) && StableBy(keys, tb, s)
    ensures InRange(s[..|s| - 1], |keys|)
    ensures SortedBy(keys, tb, s[..|s| - 1]) && StableBy(keys, tb, s[..|s| - 1])
    ensures AllBefore(keys, tb, s[..|s| - 1], s[|s| - 1])
  {
    var init := s[..|s| - 1];
    assert forall k :: 0 <= k < |init| ==> init[k] == s[k];
    forall z | z in init
      ensures z < |keys| && CompareKeys(tb, keys[z], keys[s[|s| - 1]]) != Greater
      ensures CompareKeys(tb, keys[z], keys[s[|s| - 1]]) == Equal ==> z < s[|s| - 1]
    {
      var k :| 0 <= k < |init| && init[k] == z;
      assert s[k] == z;
    }
  }

  /** Inserting an index larger than every other keeps the sequence sorted and stable. */
  lemma {:induction false} InsertKeepsOrder(keys: seq<SortKey>, tb: TieBreaker, s: seq<nat>, x: nat)
    requires UniformKeys(keys)
    requires x < |keys| && InRange(s, x)
    requires SortedBy(keys, tb, s) && StableBy(keys, tb, s)
    ensures SortedBy(keys, tb, InsertIndex(keys, tb, s, x)) && StableBy(keys, tb, InsertIndex(keys, tb, s, x))
  {
    if s != [] {
      var last := s[|s| - 1];
      var init := s[..|s| - 1];
      assert s == init + [last];
      PrefixBeforeLast(keys, tb, s);
      if CompareKeys(tb, keys[last], keys[x]) == Greater {
        CompareKeysReverse(tb, keys[last], keys[x]);
        assert InRange(init, x);
        InsertKeepsOrder(keys, tb, init, x);
        InsertIndexPermutes(keys, tb, init, x);
        var r' := InsertIndex(keys, tb, init, x);
        forall z | z in r'
          ensures z < |keys| && CompareKeys(tb, keys[z], keys[last]) != Greater
          ensures CompareKeys(tb, keys[z], keys[last]) == Equal ==> z < last
        {
          assert z in multiset(init) + multiset{x};
        }
        AppendKeepsOrder(keys, tb, r', last);
      } else {
        forall z | z in s
          ensures z < |keys| && CompareKeys(tb, keys[z], keys[x]) != Greater
          ensures CompareKeys(tb, keys[z], keys[x]) == Equal ==> z < x
        {
          if z != last {
            assert z in init;
            CompareKeysTransitive(tb, keys[z], keys[last], keys[x]);
          }
        }
        AppendKeepsOrder(keys, tb, s, x);
      }
    }
  }

  /** The specified order is sorted by key and keeps tied indices in their original order. */
  lemma {:induction false} StableSortIsSorted(keys: seq<SortKey>, tb: TieBreaker, n: nat)
    requires UniformKeys(keys) && n <= |keys|
    ensures SortedBy(keys, tb, StableSortIndices(keys, tb, n))
    ensures StableBy(keys, tb, StableSortIndices(keys, tb, n))
  {
    if n > 0 {
      var prev := StableSortIndices(keys, tb, n - 1);
      StableSortIsSorted(keys, tb, n - 1);
      InsertKeepsOrder(keys, tb, prev, n - 1);
      assert StableSortIndices(keys, tb, n) == InsertIndex(keys, tb, prev, n - 1);
    }
  }

  /**
   * The specified order is a permutation of 0 … n − 1 in which every pair of
   * positions is in key order and ties keep their original order.
   */
  lemma StableSortIsSortedPermutation(keys: seq<SortKey>, tb: TieBreaker, n: nat)
    requires UniformKeys(keys) && n <= |keys|
    ensures multiset(StableSortIndices(keys, tb, n)) == multiset(Iota(n))
    ensures SortedBy(keys, tb, StableSortIndices(keys, tb, n))
    ensures StableBy(keys, tb, StableSortIndices(keys, tb, n))
  {
    StableSortPermutes(keys, tb, n);
    StableSortIsSorted(keys, tb, n);
  }

  /** Each index 0 … n − 1 occurs exactly once in the sorted order. */
  lemma EachIndexOnce(keys: seq<SortKey>, tb: TieBreaker, n: nat, i: nat)
    requires n <= |keys| && i < n
    ensures multiset(StableSortIndices(keys, tb, n))[i] == 1
  {
    StableSortPermutes(keys, tb, n);
    IotaCount(n, i);
  }

  /** `Iota(n)` holds each index below `n` once and no other number. */
  lemma {:induction false} IotaCount(n: nat, i: nat)
    ensures multiset(Iota(n))[i] == if i < n then 1 else 0
  {
    if n > 0 {
      var x: nat := n - 1;
      IotaCount(x, i);
      var prev := Iota(x);
      assert Iota(n) == prev + [x];
      assert multiset(Iota(n)) == multiset(prev) + multiset{x};
      assert multiset{x}[i] == if i == x then 1 else 0;
    }
  }

  /**
   * Walks back from the end of `sorted` past the indices whose key is
   * strictly after `x`'s, and returns where `x` goes.
   */
  method InsertionPoint(keys: seq<SortKey>, tb: TieBreaker, sorted: seq<nat>, x: nat) returns (p: nat)
    requires x < |keys| && InRange(sorted, |keys|)
    ensures p <= |sorted|
    ensures InsertIndex(keys, tb, sorted, x) == sorted[..p] + [x] + sorted[p..]
  {
    p := |sorted|;
    assert sorted[..p] == sorted && sorted[p..] == [];
    while p > 0 && CompareKeys(tb, keys[sorted[p - 1]], keys[x]) == Greater
      invariant 0 <= p <= |sorted|
      invariant InsertIndex(keys, tb, sorted, x) == InsertIndex(keys, tb, sorted[..p], x) + sorted[p..]
    {
      InsertIndexStep(keys, tb, sorted, x, p);
      p := p - 1;
    }
    if p > 0 {
      InsertIndexStep(keys, tb, sorted, x, p);
    }
  }

  /** One step of `InsertIndex` on the prefix `sorted[..p]`. */
  lemma InsertIndexStep(keys: seq<SortKey>, tb: TieBreaker, sorted: seq<nat>, x: nat, p: nat)
    requires x < |keys| && InRange(sorted, |keys|) && 0 < p <= |sorted|
    ensures CompareKeys(tb, keys[sorted[p - 1]], keys[x]) == Greater ==>
      InsertIndex(keys, tb, sorted[..p], x) + sorted[p..] == InsertIndex(keys, tb, sorted[..p - 1], x) + sorted[p - 1..]
    ensures CompareKeys(tb, keys[sorted[p - 1]], keys[x]) != Greater ==>
      InsertIndex(keys, tb, sorted[..p], x) == sorted[..p] + [x]
  {
    var pre := sorted[..p];
    assert pre[..p - 1] == sorted[..p - 1] && pre[p - 1] == sorted[p - 1];
    assert sorted[p - 1..] == [sorted[p - 1]] + sorted[p..];
  }

  /**
   * `sort_by`: sorts the indices 0 … |keys| − 1 by key, keeping tied indices
   * in their original order, one insertion at a time.
   */
  method SortByKeys(keys: seq<SortKey>, tb: TieBreaker) returns (indices: seq<nat>)
    ensures indices == StableSortIndices(keys, tb, |keys|)
  {
    indices := [];
    var n := 0;
    while n < |keys|
      invariant 0 <= n <= |keys|
      invariant indices == StableSortIndices(keys, tb, n)
    {
      var p := InsertionPoint(keys, tb, indices, n);
      indices := indices[..p] + [n] + indices[p..];
      n := n + 1;
    }
  }
}
