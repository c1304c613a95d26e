/**
 * The OSV/MAV chromosome of the genetic algorithm (src/ga/chromosome.rs).
 * The operation sequence vector (OSV) lists task ids, the k-th occurrence of
 * a task standing for its k-th activity; the machine assignment vector
 * (MAV) holds one resource id per activity. Random choices of the source
 * (indices, the selected task set, a candidate) are parameters here.
 */
module Chromosomes {
  import opened Common
  import opened ActivityInfos

  /** The fitness a chromosome carries; children start `Infinite`. */
  datatype Fitness = Infinite | Value(v: real)

  /** A count map with 0 for a missing key (`get(..).copied().unwrap_or(0)`). */
  function Get(m: map<string, int>, x: string): int
  {
    if x in m then m[x] else 0
  }

  /** How often each id occurs: the maps `is_valid` and `lox_build_child` build, counting from the front. */
  function Counts(s: seq<string>): map<string, int>
  {
    if s == [] then map[]
    else
      var m := Counts(s[..|s| - 1]);
      var x := s[|s| - 1];
      m[x := Get(m, x) + 1]
  }

  /** Counting one more id increments exactly its entry. */
  lemma CountsAppend(s: seq<string>, x: string)
    ensures Counts(s + [x]) == Counts(s)[x := Get(Counts(s), x) + 1]
  {
    assert (s + [x])[..|s|] == s;
  }

  /** The count of an id is its number of occurrences, and only occurring ids have an entry. */
  lemma {:induction false} CountsAreOccurrences(s: seq<string>, x: string)
    ensures Get(Counts(s), x) == multiset(s)[x]
    ensures x in Counts(s) <==> x in s
  {
    if s != [] {
      var init := s[..|s| - 1];
      CountsAreOccurrences(init, x);
      assert s == init + [s[|s| - 1]];
    }
  }

  /** Two count maps are equal exactly when the sequences are permutations of each other. */
  lemma CountsEqualIffPermutation(a: seq<string>, b: seq<string>)
    ensures Counts(a) == Counts(b) <==> multiset(a) == multiset(b)
  {
    if Counts(a) == Counts(b) {
      forall x
        ensures multiset(a)[x] == multiset(b)[x]
      {
        CountsAreOccurrences(a, x);
        CountsAreOccurrences(b, x);
      }
    }
    if multiset(a) == multiset(b) {
      forall x
        ensures x in Counts(a) <==> x in Counts(b)
        ensures x in Counts(a) ==> Counts(a)[x] == Counts(b)[x]
      {
        CountsAreOccurrences(a, x);
        CountsAreOccurrences(b, x);
        assert x in a <==> x in multiset(a);
        assert x in b <==> x in multiset(b);
      }
    }
  }

  /** The counting loop over a sequence of ids. */
  method CountIds(s: seq<string>) returns (counts: map<string, int>)
    ensures counts == Counts(s)
  {
    counts := map[];
    for i := 0 to |s|
      invariant counts == Counts(s[..i])
    {
      CountsAppend(s[..i], s[i]);
      assert s[..i + 1] == s[..i] + [s[i]];
      counts := counts[s[i] := Get(counts, s[i]) + 1];
    }
    assert s[..|s|] == s;
  }

  /** The (task id, sequence) pair of every OSV position: the occurrence number so far. */
  function OccurrencePairs(osv: seq<string>): (r: seq<(string, int)>)
    ensures |r| == |osv|
  {
    if osv == [] then []
    else
      var x := osv[|osv| - 1];
      OccurrencePairs(osv[..|osv| - 1]) + [(x, multiset(osv)[x])]
  }

  /** Position `i` holds `osv[i]` and the number of its occurrences up to and including `i`. */
  lemma {:induction false} OccurrencePairAt(osv: seq<string>, i: nat)
    requires i < |osv|
    ensures OccurrencePairs(osv)[i] == (osv[i], multiset(osv[..i + 1])[osv[i]])
  {
    var init := osv[..|osv| - 1];
    if i == |osv| - 1 {
      assert osv[..i + 1] == osv;
    } else {
      OccurrencePairAt(init, i);
      assert init[..i + 1] == osv[..i + 1];
    }
  }

  /** One position of `decode_osv`: the counter of `s[i]` goes up by one and numbers that occurrence. */
  lemma DecodeStep(s: seq<string>, i: nat)
    requires i < |s|
    ensures Counts(s[..i + 1]) == Counts(s[..i])[s[i] := Get(Counts(s[..i]), s[i]) + 1]
    ensures OccurrencePairs(s[..i + 1]) == OccurrencePairs(s[..i]) + [(s[i], Get(Counts(s[..i]), s[i]) + 1)]
  {
    var p := s[..i + 1];
    assert p == s[..i] + [s[i]];
    assert p[..i] == s[..i];
    CountsAppend(s[..i], s[i]);
    CountsAreOccurrences(s[..i], s[i]);
    assert multiset(p) == multiset(s[..i]) + multiset{s[i]};
  }

  /** The task ids of the activities, one per activity. */
  function TaskIds(activities: seq<ActivityInfo>): (r: seq<string>)
    ensures |r| == |activities|
    ensures forall i :: 0 <= i < |activities| ==> r[i] == activities[i].taskId
  {
    seq(|activities|, i requires 0 <= i < |activities| => activities[i].taskId)
  }

  /**
   * What `is_valid` checks: both vectors as long as the activity list, the
   * OSV a permutation of the activities' task ids, and every MAV entry a
   * candidate of its activity whenever that activity has candidates.
   */
  predicate ValidFor(osv: seq<string>, mav: seq<string>, activities: seq<ActivityInfo>)
  {
    |osv| == |activities| && |mav| == |activities| &&
    multiset(osv) == multiset(TaskIds(activities)) &&
    forall i :: 0 <= i < |activities| && activities[i].candidates != [] ==> mav[i] in activities[i].candidates
  }

  /** The MAV entry of a (task id, sequence) key: `None` for an unknown key or an index past the end. */
  function Lookup(mav: seq<string>, index: map<(string, int), nat>, taskId: string, sequence: int): (r: Option<string>)
    ensures r.Some? <==> (taskId, sequence) in index && index[(taskId, sequence)] < |mav|
    ensures r.Some? ==> r.value == mav[index[(taskId, sequence)]]
  {
    var key := (taskId, sequence);
    if key in index && index[key] < |mav| then Some(mav[index[key]]) else None
  }

  /** The MAV after `set_resource`: the key's entry replaced, when the key is known and in range. */
  function Assigned(mav: seq<string>, index: map<(string, int), nat>, taskId: string, sequence: int, resourceId: string): seq<string>
  {
    var key := (taskId, sequence);
    if key in index && index[key] < |mav| then mav[index[key] := resourceId] else mav
  }

  /**
   * After `set_resource` the key reads back the new resource; an unknown key
   * changes nothing; keys at other MAV positions keep their entries.
   */
  lemma AssignedReadsBack(mav: seq<string>, index: map<(string, int), nat>, taskId: string, sequence: int,
                          resourceId: string, otherTask: string, otherSequence: int)
    ensures var m := Assigned(mav, index, taskId, sequence, resourceId);
      |m| == |mav| &&
      (Lookup(mav, index, taskId, sequence).Some? ==> Lookup(m, index, taskId, sequence) == Some(resourceId)) &&
      (Lookup(mav, index, taskId, sequence).None? ==> m == mav) &&
      ((otherTask, otherSequence) in index && (taskId, sequence) in index &&
       index[(otherTask, otherSequence)] != index[(taskId, sequence)] ==>
         Lookup(m, index, otherTask, otherSequence) == Lookup(mav, index, otherTask, otherSequence))
  {
  }

  /** The activity index `create_random_osv` builds: each (task id, sequence) to its last position. */
  function IndexOf(activities: seq<ActivityInfo>): (r: map<(string, int), nat>)
    ensures forall i :: 0 <= i < |activities| ==> (activities[i].taskId, activities[i].sequence) in r
    ensures forall key :: key in r ==> (r[key] < |activities| &&
      (activities[r[key]].taskId, activities[r[key]].sequence) == key)
  {
    if activities == [] then map[]
    else
      var init := activities[..|activities| - 1];
      var last := activities[|activities| - 1];
      assert forall i :: 0 <= i < |init| ==> init[i] == activities[i];
      IndexOf(init)[(last.taskId, last.sequence) := |activities| - 1]
  }

  /** The candidate's processing time: the table entry, else the activity's own time. */
  function ProcessTime(act: ActivityInfo, processTimes: map<(string, int, string), int>, c: string): int
  {
    var key := (act.taskId, act.sequence, c);
    if key in processTimes then processTimes[key] else act.processMs
  }

  /** `min_by_key` over the candidates, scanning from the front and keeping the first strict improvement. */
  function Fastest(act: ActivityInfo, processTimes: map<(string, int, string), int>, cands: seq<string>): (r: string)
    requires cands != []
    ensures r in cands
  {
    if |cands| == 1 then cands[0]
    else
      var init, last := cands[..|cands| - 1], cands[|cands| - 1];
      var m := Fastest(act, processTimes, init);
      assert m in cands by { assert init <= cands; }
      if ProcessTime(act, processTimes, last) < ProcessTime(act, processTimes, m) then last else m
  }

  /** No candidate is faster than the one `Fastest` picks. */
  lemma {:induction false} FastestIsMinimum(act: ActivityInfo, processTimes: map<(string, int, string), int>, cands: seq<string>)
    requires cands != []
    ensures forall c :: c in cands ==>
      ProcessTime(act, processTimes, Fastest(act, processTimes, cands)) <= ProcessTime(act, processTimes, c)
  {
    if |cands| > 1 {
      var init := cands[..|cands| - 1];
      FastestIsMinimum(act, processTimes, init);
      assert forall c :: c in cands ==> c in init || c == cands[|cands| - 1];
    }
  }

  /** Every candidate before the one `Fastest` picks is strictly slower: ties go to the first. */
  lemma {:induction false} FastestIsFirst(act: ActivityInfo, processTimes: map<(string, int, string), int>, cands: seq<string>)
    requires cands != []
    ensures var r := Fastest(act, processTimes, cands);
      exists k :: 0 <= k < |cands| && cands[k] == r &&
        forall j :: 0 <= j < k ==> ProcessTime(act, processTimes, cands[j]) > ProcessTime(act, processTimes, r)
  {
    if |cands| > 1 {
      var r := Fastest(act, processTimes, cands);
      var init := cands[..|cands| - 1];
      var m := Fastest(act, processTimes, init);
      if r == m {
        FastestIsFirst(act, processTimes, init);
        var k :| 0 <= k < |init| && init[k] == m &&
          forall j :: 0 <= j < k ==> ProcessTime(act, processTimes, init[j]) > ProcessTime(act, processTimes, m);
        assert cands[k] == r && forall j :: 0 <= j < k ==> cands[j] == init[j];
      } else {
        FastestIsMinimum(act, processTimes, init);
        var k := |cands| - 1;
        assert r == cands[k] && ProcessTime(act, processTimes, r) < ProcessTime(act, processTimes, m);
        forall j | 0 <= j < k
          ensures ProcessTime(act, processTimes, cands[j]) > ProcessTime(act, processTimes, r)
        {
          assert cands[j] == init[j];
        }
      }
    } else {
      assert cands[0] == Fastest(act, processTimes, cands);
    }
  }

  /** `create_shortest_time_mav`: the fastest candidate per activity, `""` without candidates. */
  function ShortestTimeMav(activities: seq<ActivityInfo>, processTimes: map<(string, int, string), int>): (r: seq<string>)
    ensures |r| == |activities|
    ensures forall i :: 0 <= i < |activities| && activities[i].candidates == [] ==> r[i] == ""
    ensures forall i :: 0 <= i < |activities| && activities[i].candidates != [] ==>
      r[i] == Fastest(activities[i], processTimes, activities[i].candidates)
  {
    seq(|activities|, i requires 0 <= i < |activities| =>
      if activities[i].candidates == [] then "" else Fastest(activities[i], processTimes, activities[i].candidates))
  }

  /** A shortest-time MAV next to a permutation of the task ids is a valid chromosome. */
  lemma ShortestTimeChromosomeIsValid(activities: seq<ActivityInfo>, processTimes: map<(string, int, string), int>, osv: seq<string>)
    requires multiset(osv) == multiset(TaskIds(activities))
    ensures ValidFor(osv, ShortestTimeMav(activities, processTimes), activities)
  {
    assert |osv| == |multiset(osv)| == |multiset(TaskIds(activities))| == |activities|;
  }

  /** The OSV/MAV chromosome; `activity_index` maps (task id, sequence) to a MAV position. */
  class ScheduleChromosome {
    var osv: seq<string>
    var mav: seq<string>
    var activityIndex: map<(string, int), nat>
    var fitness: Fitness

    /** A chromosome from its parts, not yet evaluated. */
    constructor (osv: seq<string>, mav: seq<string>, activityIndex: map<(string, int), nat>)
      ensures this.osv == osv && this.mav == mav && this.activityIndex == activityIndex
      ensures fitness == Infinite
    {
      this.osv := osv;
      this.mav := mav;
      this.activityIndex := activityIndex;
      fitness := Infinite;
    }

    /** `decode_osv`: one counter per task id, incremented at each occurrence. */
    method DecodeOsv() returns (pairs: seq<(string, int)>)
      ensures pairs == OccurrencePairs(osv)
    {
      var genes := osv;
      var counters: map<string, int> := map[];
      pairs := [];
      for i := 0 to |genes|
        invariant counters == Counts(genes[..i])
        invariant pairs == OccurrencePairs(genes[..i])
      {
        var taskId := genes[i];
        DecodeStep(genes, i);
        counters := counters[taskId := Get(counters, taskId) + 1];
        pairs := pairs + [(taskId, counters[taskId])];
      }
      assert genes[..|genes|] == genes;
    }

    function ResourceFor(taskId: string, sequence: int): (r: Option<string>)
      reads this
      ensures r == Lookup(mav, activityIndex, taskId, sequence)
    {
      var key := (taskId, sequence);
      if key in activityIndex && activityIndex[key] < |mav| then Some(mav[activityIndex[key]]) else None
    }

    /** `set_resource`: overwrites the key's MAV entry; nothing happens for an unknown key. */
    method SetResource(taskId: string, sequence: int, resourceId: string)
      modifies this
      ensures mav == Assigned(old(mav), activityIndex, taskId, sequence, resourceId)
      ensures osv == old(osv) && activityIndex == old(activityIndex) && fitness == old(fitness)
    {
      var key := (taskId, sequence);
      if key in activityIndex {
        var idx := activityIndex[key];
        if idx < |mav| {
          mav := mav[idx := resourceId];
        }
      }
    }

    /** `is_valid`: the length checks, the two count maps compared, then the candidate check. */
    method IsValid(activities: seq<ActivityInfo>) returns (b: bool)
      ensures b == ValidFor(osv, mav, activities)
    {
      if |osv| != |activities| || |mav| != |activities| {
        return false;
      }
      var osvCounts := CountIds(osv);
      var expectedCounts := CountIds(TaskIds(activities));
      CountsEqualIffPermutation(osv, TaskIds(activities));
      if osvCounts != expectedCounts {
        return false;
      }
      for idx := 0 to |activities|
        invariant forall i :: 0 <= i < idx && activities[i].candidates != [] ==> mav[i] in activities[i].candidates
      {
        if activities[idx].candidates != [] && mav[idx] !in activities[idx].candidates {
          return false;
        }
      }
      return true;
    }
  }

  /** The k-th occurrence of a task is numbered k: numbers start at 1, never exceed the count, never repeat. */
  lemma OccurrencePairsNumberOccurrences(osv: seq<string>)
    ensures var p := OccurrencePairs(osv);
      (forall i :: 0 <= i < |osv| ==> 1 <= p[i].1 <= multiset(osv)[osv[i]]) &&
      (forall i, j :: 0 <= i < j < |osv| ==> p[i] != p[j])
  {
    var p := OccurrencePairs(osv);
    forall i | 0 <= i < |osv|
      ensures 1 <= p[i].1 <= multiset(osv)[osv[i]]
    {
      OccurrencePairAt(osv, i);
      OccurrenceBound(osv, i);
    }
    forall i, j | 0 <= i < j < |osv|
      ensures p[i] != p[j]
    {
      OccurrencePairAt(osv, i);
      OccurrencePairAt(osv, j);
      if osv[i] == osv[j] {
        LaterOccurrenceCountsMore(osv, i, j);
      }
    }
  }

  lemma OccurrenceBound(osv: seq<string>, i: nat)
    requires i < |osv|
    ensures 1 <= multiset(osv[..i + 1])[osv[i]] <= multiset(osv)[osv[i]]
  {
    var pre, post := osv[..i + 1], osv[i + 1..];
    assert osv == pre + post;
    assert multiset(osv) == multiset(pre) + multiset(post);
    assert pre == osv[..i] + [osv[i]];
    assert multiset(pre) == multiset(osv[..i]) + multiset{osv[i]};
  }

  lemma LaterOccurrenceCountsMore(osv: seq<string>, i: nat, j: nat)
    requires i < j < |osv| && osv[i] == osv[j]
    ensures multiset(osv[..i + 1])[osv[i]] < multiset(osv[..j + 1])[osv[j]]
  {
    var x := osv[i];
    calc {
      multiset(osv[..j + 1])[x];
    == { assert osv[..j + 1] == osv[..i + 1] + osv[i + 1..j + 1]; }
      multiset(osv[..i + 1])[x] + multiset(osv[i + 1..j + 1])[x];
    }
    assert osv[i + 1..j + 1][j - i - 1] == x;
  }

  // ---------------------------------------------------------------- mutations

  /** Exchanges two positions. */
  function Swapped(s: seq<string>, i: nat, j: nat): (r: seq<string>)
    requires i < |s| && j < |s|
    ensures |r| == |s| && r[i] == s[j] && r[j] == s[i]
    ensures forall k :: 0 <= k < |s| && k != i && k != j ==> r[k] == s[k]
  {
    s[i := s[j]][j := s[i]]
  }

  /** Removes the entry at `from` and reinserts it at `to` of the shortened sequence. */
  function Moved(s: seq<string>, from: nat, to: nat): (r: seq<string>)
    requires from < |s| && to < |s|
    ensures |r| == |s| && r[to] == s[from]
  {
    var rest := s[..from] + s[from + 1..];
    rest[..to] + [s[from]] + rest[to..]
  }

  function Reversed(s: seq<string>): (r: seq<string>)
    ensures |r| == |s|
    ensures forall k :: 0 <= k < |s| ==> r[k] == s[|s| - 1 - k]
  {
    seq(|s|, k requires 0 <= k < |s| => s[|s| - 1 - k])
  }

  /** Reverses positions `lo..=hi`. */
  function Inverted(s: seq<string>, lo: nat, hi: nat): seq<string>
    requires lo <= hi < |s|
  {
    s[..lo] + Reversed(s[lo..hi + 1]) + s[hi + 1..]
  }

  lemma ReversedPermutes(s: seq<string>)
    ensures multiset(Reversed(s)) == multiset(s)
    decreases |s|
  {
    if |s| > 0 {
      var r := Reversed(s);
      var inner := s[1..];
      ReversedPermutes(inner);
      assert r == Reversed(inner) + [s[0]];
      assert s == [s[0]] + inner;
    }
  }

  /** Swap keeps the OSV's multiset. */
  lemma SwapPermutes(s: seq<string>, i: nat, j: nat)
    requires i < |s| && j < |s|
    ensures multiset(Swapped(s, i, j)) == multiset(s)
  {
  }

  /** Insert keeps the OSV's length and multiset. */
  lemma MovePermutes(s: seq<string>, from: nat, to: nat)
    requires from < |s| && to < |s|
    ensures multiset(Moved(s, from, to)) == multiset(s)
  {
    var rest := s[..from] + s[from + 1..];
    assert s == s[..from] + [s[from]] + s[from + 1..];
    assert rest == rest[..to] + rest[to..];
    calc {
      multiset(Moved(s, from, to));
    ==
      multiset(rest[..to]) + multiset{s[from]} + multiset(rest[to..]);
    ==
      multiset(rest) + multiset{s[from]};
    ==
      multiset(s[..from]) + multiset(s[from + 1..]) + multiset{s[from]};
    ==
      multiset(s);
    }
  }

  /** Invert keeps the OSV's length and multiset and reverses exactly `lo..=hi`. */
  lemma InvertPermutes(s: seq<string>, lo: nat, hi: nat)
    requires lo <= hi < |s|
    ensures |Inverted(s, lo, hi)| == |s| && multiset(Inverted(s, lo, hi)) == multiset(s)
    ensures forall k :: 0 <= k < |s| ==> Inverted(s, lo, hi)[k] == if lo <= k <= hi then s[lo + hi - k] else s[k]
  {
    ReversedPermutes(s[lo..hi + 1]);
    assert s == s[..lo] + s[lo..hi + 1] + s[hi + 1..];
  }

  /** `swap_mutation`: an OSV shorter than 2 is left alone, else positions `i` and `j` are exchanged. */
  method SwapMutation(c: ScheduleChromosome, i: nat, j: nat)
    requires |c.osv| >= 2 ==> i < |c.osv| && j < |c.osv|
    modifies c
    ensures c.osv == if |old(c.osv)| < 2 then old(c.osv) else Swapped(old(c.osv), i, j)
    ensures c.mav == old(c.mav) && c.activityIndex == old(c.activityIndex) && c.fitness == old(c.fitness)
  {
    if |c.osv| < 2 {
      return;
    }
    c.osv := c.osv[i := c.osv[j]][j := c.osv[i]];
  }

  /** `insert_mutation`: removes the entry at `from` and reinserts it at `to`. */
  method InsertMutation(c: ScheduleChromosome, from: nat, to: nat)
    requires |c.osv| >= 2 ==> from < |c.osv| && to < |c.osv|
    modifies c
    ensures c.osv == if |old(c.osv)| < 2 then old(c.osv) else Moved(old(c.osv), from, to)
    ensures c.mav == old(c.mav) && c.activityIndex == old(c.activityIndex) && c.fitness == old(c.fitness)
  {
    if |c.osv| < 2 {
      return;
    }
    var item := c.osv[from];
    var rest := c.osv[..from] + c.osv[from + 1..];
    c.osv := rest[..to] + [item] + rest[to..];
  }

  /** `invert_mutation`: orders the two indices and reverses the segment between them. */
  method InvertMutation(c: ScheduleChromosome, i: nat, j: nat)
    requires |c.osv| >= 2 ==> i < |c.osv| && j < |c.osv|
    modifies c
    ensures c.osv == if |old(c.osv)| < 2 then old(c.osv) else Inverted(old(c.osv), Min(i, j), Max(i, j))
    ensures c.mav == old(c.mav) && c.activityIndex == old(c.activityIndex) && c.fitness == old(c.fitness)
  {
    if |c.osv| < 2 {
      return;
    }
    var lo, hi := i, j;
    if lo > hi {
      lo, hi := hi, lo;
    }
    assert lo == Min(i, j) && hi == Max(i, j);
    c.osv := Inverted(c.osv, lo, hi);
  }

  /** The MAV after `mav_mutation` with the drawn activity `idx` and candidate `choice`. */
  function MavMutated(mav: seq<string>, activities: seq<ActivityInfo>, idx: nat, choice: nat): seq<string>
    requires mav != [] && activities != [] ==> idx < |mav| && idx < |activities|
    requires mav != [] && activities != [] && activities[idx].candidates != [] ==> choice < |activities[idx].candidates|
  {
    if mav == [] || activities == [] || activities[idx].candidates == [] then mav
    else mav[idx := activities[idx].candidates[choice]]
  }

  /** `mav_mutation` rewrites at most one entry, to a candidate, and so keeps a valid chromosome valid. */
  lemma MavMutationKeepsValidity(osv: seq<string>, mav: seq<string>, activities: seq<ActivityInfo>, idx: nat, choice: nat)
    requires mav != [] && activities != [] ==> idx < |mav| && idx < |activities|
    requires mav != [] && activities != [] && activities[idx].candidates != [] ==> choice < |activities[idx].candidates|
    ensures var m := MavMutated(mav, activities, idx, choice);
      |m| == |mav| &&
      (forall k :: 0 <= k < |mav| && k != idx ==> m[k] == mav[k]) &&
      (m != mav ==> activities != [] && idx < |activities| && m[idx] in activities[idx].candidates)
    ensures ValidFor(osv, mav, activities) ==> ValidFor(osv, MavMutated(mav, activities, idx, choice), activities)
  {
  }

  /** `mav_mutation`: one drawn activity with candidates gets the drawn candidate. */
  method MavMutation(c: ScheduleChromosome, activities: seq<ActivityInfo>, idx: nat, choice: nat)
    requires c.mav != [] && activities != [] ==> idx < |c.mav| && idx < |activities|
    requires c.mav != [] && activities != [] && activities[idx].candidates != [] ==> choice < |activities[idx].candidates|
    modifies c
    ensures c.mav == MavMutated(old(c.mav), activities, idx, choice)
    ensures c.osv == old(c.osv) && c.activityIndex == old(c.activityIndex) && c.fitness == old(c.fitness)
  {
    if c.mav == [] || activities == [] {
      return;
    }
    if activities[idx].candidates != [] {
      c.mav := c.mav[idx := activities[idx].candidates[choice]];
    }
  }

  // ---------------------------------------------------------------- POX and JOX

  /** The entries whose task is selected, in order. */
  function Selected(s: seq<string>, sel: set<string>): seq<string>
  {
    if s == [] then [] else (if s[0] in sel then [s[0]] else []) + Selected(s[1..], sel)
  }

  /** The entries whose task is not selected, in order: what the donor iterator yields. */
  function Unselected(s: seq<string>, sel: set<string>): (r: seq<string>)
    ensures forall x :: x in r ==> x !in sel
  {
    if s == [] then [] else (if s[0] !in sel then [s[0]] else []) + Unselected(s[1..], sel)
  }

  /** A sequence splits into its selected and unselected entries; the unselected part depends only on the multiset. */
  lemma {:induction false} SplitBySelection(s: seq<string>, sel: set<string>)
    ensures multiset(Selected(s, sel)) + multiset(Unselected(s, sel)) == multiset(s)
    ensures forall x :: multiset(Unselected(s, sel))[x] == if x in sel then 0 else multiset(s)[x]
  {
    if s != [] {
      SplitBySelection(s[1..], sel);
      assert s == [s[0]] + s[1..];
    }
  }

  /** Permutations have permuted unselected parts, of the same length. */
  lemma UnselectedOfPermutation(a: seq<string>, b: seq<string>, sel: set<string>)
    requires multiset(a) == multiset(b)
    ensures multiset(Unselected(a, sel)) == multiset(Unselected(b, sel))
    ensures |Unselected(a, sel)| == |Unselected(b, sel)|
  {
    SplitBySelection(a, sel);
    SplitBySelection(b, sel);
    assert multiset(Unselected(a, sel)) == multiset(Unselected(b, sel)) by {
      forall x
        ensures multiset(Unselected(a, sel))[x] == multiset(Unselected(b, sel))[x]
      {
      }
    }
    assert |multiset(Unselected(a, sel))| == |Unselected(a, sel)|;
    assert |multiset(Unselected(b, sel))| == |Unselected(b, sel)|;
  }

  /**
   * `pox_build_child` with the donor's unselected entries as `pool`: a
   * selected entry of the template stays, any other position takes the
   * pool's next entry, or stays `""` once the pool is exhausted.
   */
  function PoxFill(template: seq<string>, pool: seq<string>, sel: set<string>): (r: seq<string>)
    ensures |r| == |template|
  {
    if template == [] then []
    else if template[0] in sel then [template[0]] + PoxFill(template[1..], pool, sel)
    else if pool != [] then [pool[0]] + PoxFill(template[1..], pool[1..], sel)
    else [""] + PoxFill(template[1..], [], sel)
  }

  function PoxChild(template: seq<string>, donor: seq<string>, sel: set<string>): seq<string>
  {
    PoxFill(template, Unselected(donor, sel), sel)
  }

  /** Every position whose template task is selected keeps the template's entry. */
  lemma {:induction false} PoxKeepsSelectedPositions(template: seq<string>, pool: seq<string>, sel: set<string>)
    ensures forall i :: 0 <= i < |template| && template[i] in sel ==> PoxFill(template, pool, sel)[i] == template[i]
  {
    if template != [] {
      var rest := if template[0] in sel then pool else if pool != [] then pool[1..] else [];
      PoxKeepsSelectedPositions(template[1..], rest, sel);
      assert PoxFill(template, pool, sel)[1..] == PoxFill(template[1..], rest, sel);
    }
  }

  /**
   * With a pool of unselected entries exactly as long as the template's
   * unselected part, the child's selected entries are the template's and its
   * unselected entries are the pool, both in order.
   */
  lemma {:induction false} PoxFillSplits(template: seq<string>, pool: seq<string>, sel: set<string>)
    requires forall x :: x in pool ==> x !in sel
    requires |pool| == |Unselected(template, sel)|
    ensures Selected(PoxFill(template, pool, sel), sel) == Selected(template, sel)
    ensures Unselected(PoxFill(template, pool, sel), sel) == pool
  {
    if template != [] {
      var r := PoxFill(template, pool, sel);
      if template[0] in sel {
        PoxFillSplits(template[1..], pool, sel);
        assert r[1..] == PoxFill(template[1..], pool, sel);
      } else {
        assert pool != [];
        PoxFillSplits(template[1..], pool[1..], sel);
        assert r[1..] == PoxFill(template[1..], pool[1..], sel);
        assert pool == [pool[0]] + pool[1..];
      }
    }
  }

  /** For parents that are permutations of each other, the POX child keeps the multiset. */
  lemma PoxChildPermutes(template: seq<string>, donor: seq<string>, sel: set<string>)
    requires multiset(template) == multiset(donor)
    ensures var c := PoxChild(template, donor, sel);
      multiset(c) == multiset(template) &&
      Selected(c, sel) == Selected(template, sel) && Unselected(c, sel) == Unselected(donor, sel)
  {
    var c := PoxChild(template, donor, sel);
    UnselectedOfPermutation(template, donor, sel);
    PoxFillSplits(template, Unselected(donor, sel), sel);
    SplitBySelection(c, sel);
    SplitBySelection(template, sel);
  }

  /** One step of the donor iterator: the remaining pool ahead of donor position `d`. */
  lemma UnselectedStep(donor: seq<string>, sel: set<string>, d: nat)
    requires d < |donor|
    ensures Unselected(donor[d..], sel) ==
      (if donor[d] !in sel then [donor[d]] else []) + Unselected(donor[d + 1..], sel)
  {
    assert donor[d..][1..] == donor[d + 1..];
  }

  /** The donor iterator's `next()`: skips selected entries and yields the next unselected one. */
  method NextUnselected(donor: seq<string>, selected: set<string>, d0: nat) returns (next: Option<string>, d: nat)
    requires d0 <= |donor|
    ensures d <= |donor|
    ensures next.None? ==> Unselected(donor[d0..], selected) == [] && d == |donor|
    ensures next.Some? ==> Unselected(donor[d0..], selected) == [next.value] + Unselected(donor[d..], selected)
  {
    d := d0;
    while d < |donor| && donor[d] in selected
      invariant d0 <= d <= |donor|
      invariant Unselected(donor[d..], selected) == Unselected(donor[d0..], selected)
    {
      UnselectedStep(donor, selected, d);
      d := d + 1;
    }
    if d < |donor| {
      UnselectedStep(donor, selected, d);
      next := Some(donor[d]);
      d := d + 1;
    } else {
      next := None;
    }
  }

  /** The entry `PoxFill` puts at a position whose template entry is `t`. */
  function PoxHead(t: string, pool: seq<string>, sel: set<string>): string
  {
    if t in sel then t else if pool != [] then pool[0] else ""
  }

  /** The pool left after that position. */
  function PoxRest(t: string, pool: seq<string>, sel: set<string>): seq<string>
  {
    if t in sel || pool == [] then pool else pool[1..]
  }

  /** One position of `PoxFill`, with the part already built in front. */
  lemma PoxFillStep(template: seq<string>, i: nat, pool: seq<string>, sel: set<string>, prefix: seq<string>)
    requires i < |template|
    ensures prefix + PoxFill(template[i..], pool, sel) ==
      (prefix + [PoxHead(template[i], pool, sel)]) + PoxFill(template[i + 1..], PoxRest(template[i], pool, sel), sel)
  {
    assert template[i..][0] == template[i];
    assert template[i..][1..] == template[i + 1..];
  }

  /** `pox_build_child`: a buffer of `""` filled position by position. */
  method PoxBuildChild(template: seq<string>, donor: seq<string>, selected: set<string>) returns (child: seq<string>)
    ensures child == PoxChild(template, donor, selected)
  {
    var buf := new string[|template|](_ => "");
    var d: nat := 0;
    ghost var pool := Unselected(donor, selected);
    assert donor[0..] == donor;
    for i := 0 to |template|
      invariant d <= |donor|
      invariant pool == Unselected(donor[d..], selected)
      invariant forall k :: i <= k < |template| ==> buf[k] == ""
      invariant buf[..i] + PoxFill(template[i..], pool, selected) == PoxChild(template, donor, selected)
    {
      PoxFillStep(template, i, pool, selected, buf[..i]);
      ghost var prefix := buf[..i];
      if template[i] in selected {
        buf[i] := template[i];
      } else {
        var next;
        next, d := NextUnselected(donor, selected, d);
        if next.Some? {
          buf[i] := next.value;
        }
      }
      assert buf[i] == PoxHead(template[i], pool, selected);
      assert buf[..i + 1] == prefix + [buf[i]];
      pool := PoxRest(template[i], pool, selected);
    }
    assert buf[..] == buf[..|template|];
    child := buf[..];
  }

  /** JOX's first phase: selected entries of the primary in place, `""` elsewhere. */
  function JoxPlaced(primary: seq<string>, sel: set<string>): (r: seq<string>)
    ensures |r| == |primary|
    ensures forall i :: 0 <= i < |primary| ==> r[i] == if primary[i] in sel then primary[i] else ""
  {
    seq(|primary|, i requires 0 <= i < |primary| => if primary[i] in sel then primary[i] else "")
  }

  /** JOX's second phase: every slot still `""` takes the pool's next entry. */
  function JoxFill(slots: seq<string>, pool: seq<string>): (r: seq<string>)
    ensures |r| == |slots|
  {
    if slots == [] then []
    else if slots[0] == "" then
      if pool != [] then [pool[0]] + JoxFill(slots[1..], pool[1..]) else [""] + JoxFill(slots[1..], [])
    else [slots[0]] + JoxFill(slots[1..], pool)
  }

  function JoxChild(primary: seq<string>, donor: seq<string>, sel: set<string>): seq<string>
  {
    JoxFill(JoxPlaced(primary, sel), Unselected(donor, sel))
  }

  /**
   * Unless the empty id is itself selected, JOX builds the same child as POX:
   * the slots left empty are exactly the unselected positions.
   */
  lemma {:induction false} JoxFillIsPoxFill(primary: seq<string>, pool: seq<string>, sel: set<string>)
    requires "" !in sel
    ensures JoxFill(JoxPlaced(primary, sel), pool) == PoxFill(primary, pool, sel)
  {
    if primary != [] {
      assert JoxPlaced(primary, sel)[1..] == JoxPlaced(primary[1..], sel);
      if primary[0] in sel || pool == [] {
        JoxFillIsPoxFill(primary[1..], if primary[0] in sel then pool else [], sel);
      } else {
        JoxFillIsPoxFill(primary[1..], pool[1..], sel);
      }
    }
  }

  /** Hence, for permuted parents and no empty id selected, the JOX child keeps the multiset and the selected positions. */
  lemma JoxChildPermutes(primary: seq<string>, donor: seq<string>, sel: set<string>)
    requires "" !in sel && multiset(primary) == multiset(donor)
    ensures JoxChild(primary, donor, sel) == PoxChild(primary, donor, sel)
    ensures multiset(JoxChild(primary, donor, sel)) == multiset(primary)
    ensures forall i :: 0 <= i < |primary| && primary[i] in sel ==> JoxChild(primary, donor, sel)[i] == primary[i]
  {
    JoxFillIsPoxFill(primary, Unselected(donor, sel), sel);
    PoxChildPermutes(primary, donor, sel);
    PoxKeepsSelectedPositions(primary, Unselected(donor, sel), sel);
  }

  /** The entry `JoxFill` puts in a slot holding `slot`. */
  function JoxHead(slot: string, pool: seq<string>): string
  {
    if slot != "" then slot else if pool != [] then pool[0] else ""
  }

  /** The pool left after that slot. */
  function JoxRest(slot: string, pool: seq<string>): seq<string>
  {
    if slot != "" || pool == [] then pool else pool[1..]
  }

  /** One slot of `JoxFill`, with the part already built in front. */
  lemma JoxFillStep(slots: seq<string>, i: nat, pool: seq<string>, prefix: seq<string>)
    requires i < |slots|
    ensures prefix + JoxFill(slots[i..], pool) ==
      (prefix + [JoxHead(slots[i], pool)]) + JoxFill(slots[i + 1..], JoxRest(slots[i], pool))
  {
    assert slots[i..][0] == slots[i];
    assert slots[i..][1..] == slots[i + 1..];
  }

  /** The first phase of `jox_build_child`: a fresh buffer holding the selected entries in place. */
  method JoxPlace(primary: seq<string>, selected: set<string>) returns (buf: array<string>)
    ensures fresh(buf) && buf[..] == JoxPlaced(primary, selected)
  {
    buf := new string[|primary|](_ => "");
    for i := 0 to |primary|
      invariant forall k :: 0 <= k < |primary| ==> buf[k] == if k < i then JoxPlaced(primary, selected)[k] else ""
    {
      if primary[i] in selected {
        buf[i] := primary[i];
      }
    }
  }

  /** `jox_build_child`: place the selected entries, then fill the empty slots from the donor. */
  method JoxBuildChild(primary: seq<string>, donor: seq<string>, selected: set<string>) returns (child: seq<string>)
    ensures child == JoxChild(primary, donor, selected)
  {
    var buf := JoxPlace(primary, selected);
    ghost var slots, target := JoxPlaced(primary, selected), JoxChild(primary, donor, selected);
    var d: nat := 0;
    ghost var pool := Unselected(donor, selected);
    assert donor[0..] == donor;
    for i := 0 to |primary|
      invariant d <= |donor| && buf.Length == |slots|
      invariant pool == Unselected(donor[d..], selected)
      invariant forall k :: i <= k < |primary| ==> buf[k] == slots[k]
      invariant buf[..i] + JoxFill(slots[i..], pool) == target
    {
      ghost var prefix := buf[..i];
      JoxFillStep(slots, i, pool, prefix);
      d := JoxFillSlot(buf, i, donor, selected, d, pool);
      assert buf[..i + 1] == prefix + [JoxHead(slots[i], pool)];
      pool := JoxRest(slots[i], pool);
    }
    assert buf[..] == buf[..|primary|];
    child := buf[..];
  }

  /** One slot of `jox_build_child`'s second phase: an empty slot takes the donor's next unselected entry. */
  method JoxFillSlot(buf: array<string>, i: nat, donor: seq<string>, selected: set<string>, d0: nat,
                     ghost pool: seq<string>) returns (d: nat)
    requires i < buf.Length && d0 <= |donor| && pool == Unselected(donor[d0..], selected)
    modifies buf
    ensures d <= |donor| && JoxRest(old(buf[i]), pool) == Unselected(donor[d..], selected)
    ensures buf[..] == old(buf[..])[i := JoxHead(old(buf[i]), pool)]
  {
    d := d0;
    if buf[i] == "" {
      var next;
      next, d := NextUnselected(donor, selected, d0);
      if next.Some? {
        buf[i] := next.value;
      }
    }
  }

  /** `p` read circularly from position `k`. */
  function Rotated(p: seq<string>, k: nat): (r: seq<string>)
    requires k <= |p|
    ensures |r| == |p|
  {
    p[k..] + p[..k]
  }

  /** Position `i` of the rotation is position `(k + i) % |p|` of `p`, the index `lox_build_child` reads. */
  lemma RotatedAt(p: seq<string>, k: nat, i: nat)
    requires k <= |p| && i < |p|
    ensures Rotated(p, k)[i] == p[(k + i) % |p|]
  {
    WrapIndex(k + i, |p|);
  }

  /** An index below twice the length, wrapped once. */
  lemma WrapIndex(a: nat, n: nat)
    requires 0 <= a < 2 * n
    ensures a % n == if a < n then a else a - n
  {
    if a >= n {
      assert a == (a - n) + n;
    }
  }

  /** `s` without the first `budget[x]` occurrences of each `x`: the skipping in `lox_build_child`. */
  function SkipFirst(s: seq<string>, budget: multiset<string>): seq<string>
  {
    if s == [] then []
    else if budget[s[0]] > 0 then SkipFirst(s[1..], budget - multiset{s[0]})
    else [s[0]] + SkipFirst(s[1..], budget)
  }

  /** Skipping removes exactly the budget, as far as `s` has the entries. */
  lemma {:induction false} SkipFirstRemovesBudget(s: seq<string>, budget: multiset<string>)
    ensures multiset(SkipFirst(s, budget)) == multiset(s) - budget
  {
    if s != [] {
      var x := s[0];
      assert s == [x] + s[1..];
      if budget[x] > 0 {
        SkipFirstRemovesBudget(s[1..], budget - multiset{x});
      } else {
        SkipFirstRemovesBudget(s[1..], budget);
      }
    }
  }

  /**
   * The same walk with the counters of `lox_build_child`: an entry is
   * skipped while fewer of its id have been skipped (`skip`) than the
   * segment holds (`seg`).
   */
  function SkipCounted(s: seq<string>, skip: map<string, int>, seg: map<string, int>): seq<string>
  {
    if s == [] then []
    else if Get(skip, s[0]) < Get(seg, s[0]) then SkipCounted(s[1..], skip[s[0] := Get(skip, s[0]) + 1], seg)
    else [s[0]] + SkipCounted(s[1..], skip, seg)
  }

  /** The counters skip exactly what the budget they leave would skip. */
  lemma {:induction false} SkipCountedIsSkipFirst(s: seq<string>, skip: map<string, int>, seg: map<string, int>,
                                                  budget: multiset<string>)
    requires forall x :: Get(skip, x) + budget[x] == Get(seg, x)
    ensures SkipCounted(s, skip, seg) == SkipFirst(s, budget)
  {
    if s != [] {
      var x := s[0];
      if Get(skip, x) < Get(seg, x) {
        var skip', budget' := skip[x := Get(skip, x) + 1], budget - multiset{x};
        forall y
          ensures Get(skip', y) + budget'[y] == Get(seg, y)
        {
          assert Get(skip, y) + budget[y] == Get(seg, y);
        }
        SkipCountedIsSkipFirst(s[1..], skip', seg, budget');
      } else {
        assert Get(skip, x) + budget[x] == Get(seg, x);
        SkipCountedIsSkipFirst(s[1..], skip, seg, budget);
      }
    }
  }

  /** One entry of the counted walk, with the entries already kept in front. */
  lemma SkipCountedStep(s: seq<string>, i: nat, skip: map<string, int>, seg: map<string, int>, kept: seq<string>)
    requires i < |s|
    ensures Get(skip, s[i]) < Get(seg, s[i]) ==>
      kept + SkipCounted(s[i..], skip, seg) == kept + SkipCounted(s[i + 1..], skip[s[i] := Get(skip, s[i]) + 1], seg)
    ensures Get(skip, s[i]) >= Get(seg, s[i]) ==>
      kept + SkipCounted(s[i..], skip, seg) == (kept + [s[i]]) + SkipCounted(s[i + 1..], skip, seg)
  {
    assert s[i..][0] == s[i];
    assert s[i..][1..] == s[i + 1..];
  }

  /**
   * The entries `lox_build_child` writes, in slot order: `p2` read
   * circularly from just after the segment, without the segment's entries.
   */
  function LoxKept(p1: seq<string>, p2: seq<string>, start: nat, end: nat): seq<string>
    requires start <= end < |p1| <= |p2|
  {
    SkipFirst(Rotated(p2[..|p1|], end + 1), multiset(p1[start..end + 1]))
  }

  /** The entry the `m`-th free slot gets from `written`: its `m`-th entry, `""` once they run out. */
  function Written(written: seq<string>, m: int): string
  {
    if 0 <= m < |written| then written[m] else ""
  }

  /**
   * A buffer of `lox_build_child`: the segment `start..=end` of `p1` in
   * place, and the free slots, read circularly from just after the segment
   * (first those after `end`, then those before `start`), holding `written`
   * and then `""`.
   */
  function LoxLayout(p1: seq<string>, start: nat, end: nat, written: seq<string>): (r: seq<string>)
    requires start <= end < |p1|
    ensures |r| == |p1|
  {
    seq(|p1|, q requires 0 <= q < |p1| =>
      if start <= q <= end then p1[q]
      else if end < q then Written(written, q - end - 1)
      else Written(written, q + |p1| - end - 1))
  }

  /** `lox_build_child` as a value: as many kept entries as there are free slots, laid out around the segment. */
  function LoxChild(p1: seq<string>, p2: seq<string>, start: nat, end: nat): seq<string>
    requires start <= end < |p1| <= |p2|
  {
    var kept := LoxKept(p1, p2, start, end);
    LoxLayout(p1, start, end, kept[..Min(|kept|, |p1| - (end - start + 1))])
  }

  /** The child keeps the length of `p1`, and its segment `start..=end` is `p1`'s. */
  lemma LoxKeepsSegment(p1: seq<string>, p2: seq<string>, start: nat, end: nat)
    requires start <= end < |p1| <= |p2|
    ensures |LoxChild(p1, p2, start, end)| == |p1|
    ensures LoxChild(p1, p2, start, end)[start..end + 1] == p1[start..end + 1]
  {
    var c := LoxChild(p1, p2, start, end);
    assert forall q :: start <= q <= end ==> c[q] == p1[q];
  }

  /**
   * Read circularly from just after the segment, the free slots hold the
   * kept entries in order, `""` once they run out.
   */
  lemma LoxChildOutsideSegment(p1: seq<string>, p2: seq<string>, start: nat, end: nat)
    requires start <= end < |p1| <= |p2|
    ensures var c, kept := LoxChild(p1, p2, start, end), LoxKept(p1, p2, start, end);
      (forall q :: end < q < |p1| ==> c[q] == Written(kept, q - end - 1)) &&
      (forall q :: 0 <= q < start ==> c[q] == Written(kept, q + |p1| - end - 1))
  {
    var c, kept := LoxChild(p1, p2, start, end), LoxKept(p1, p2, start, end);
    var free := |p1| - (end - start + 1);
    var w := kept[..Min(|kept|, free)];
    forall m | 0 <= m < free
      ensures Written(w, m) == Written(kept, m)
    {
    }
    forall q | end < q < |p1|
      ensures c[q] == Written(kept, q - end - 1)
    {
      assert c[q] == Written(w, q - end - 1);
    }
    forall q | 0 <= q < start
      ensures c[q] == Written(kept, q + |p1| - end - 1)
    {
      assert c[q] == Written(w, q + |p1| - end - 1);
    }
  }

  /** A rotation is a permutation. */
  lemma RotatedPermutes(p: seq<string>, k: nat)
    requires k <= |p|
    ensures multiset(Rotated(p, k)) == multiset(p)
  {
    assert p == p[..k] + p[k..];
  }

  /** A sequence splits into its segment `start..=end` and the entries around it. */
  lemma SegmentSplit(p: seq<string>, start: nat, end: nat)
    requires start <= end < |p|
    ensures multiset(p) == multiset(p[..start] + p[end + 1..]) + multiset(p[start..end + 1])
  {
    assert p == p[..start] + p[start..end + 1] + p[end + 1..];
  }

  lemma AddThenRemove(a: multiset<string>, b: multiset<string>)
    ensures (a + b) - b == a
  {
  }

  /** Splitting the fill and putting the segment between the halves keeps every entry. */
  lemma AroundSegment(w: seq<string>, seg: seq<string>, k: nat)
    requires k <= |w|
    ensures multiset(w[k..] + seg + w[..k]) == multiset(w) + multiset(seg)
  {
    assert w == w[..k] + w[k..];
  }

  /** For parents that are permutations of each other, the kept entries are exactly `p1` outside the segment. */
  lemma LoxKeptIsOutside(p1: seq<string>, p2: seq<string>, start: nat, end: nat)
    requires start <= end < |p1| == |p2| && multiset(p1) == multiset(p2)
    ensures multiset(LoxKept(p1, p2, start, end)) == multiset(p1[..start] + p1[end + 1..])
    ensures |LoxKept(p1, p2, start, end)| == |p1| - (end - start + 1)
  {
    var seg := p1[start..end + 1];
    var outside := p1[..start] + p1[end + 1..];
    var kept := LoxKept(p1, p2, start, end);
    assert p2[..|p1|] == p2;
    RotatedPermutes(p2, end + 1);
    SkipFirstRemovesBudget(Rotated(p2, end + 1), multiset(seg));
    SegmentSplit(p1, start, end);
    AddThenRemove(multiset(outside), multiset(seg));
    assert multiset(kept) == multiset(outside);
    assert |kept| == |multiset(kept)| == |multiset(outside)| == |outside|;
  }

  /** With exactly one kept entry per free slot, the layout is the kept entries split around the segment. */
  lemma LoxLayoutFull(p1: seq<string>, start: nat, end: nat, kept: seq<string>)
    requires start <= end < |p1| && |kept| == |p1| - (end - start + 1)
    ensures LoxLayout(p1, start, end, kept) == kept[|p1| - 1 - end..] + p1[start..end + 1] + kept[..|p1| - 1 - end]
  {
    var k := |p1| - 1 - end;
    var a, b := LoxLayout(p1, start, end, kept), kept[k..] + p1[start..end + 1] + kept[..k];
    assert |b| == |p1|;
    forall q | 0 <= q < |p1|
      ensures a[q] == b[q]
    {
      if q < start {
        assert b[q] == kept[k + q];
        assert a[q] == Written(kept, q + |p1| - end - 1);
      } else if q <= end {
        assert b[q] == p1[start..end + 1][q - start];
      } else {
        assert b[q] == kept[..k][q - end - 1];
        assert a[q] == Written(kept, q - end - 1);
      }
    }
  }

  /**
   * For parents that are permutations of each other, there is exactly one
   * kept entry per free slot, and the child is a permutation of `p1`.
   */
  lemma LoxChildPermutes(p1: seq<string>, p2: seq<string>, start: nat, end: nat)
    requires start <= end < |p1| == |p2| && multiset(p1) == multiset(p2)
    ensures |LoxKept(p1, p2, start, end)| == |p1| - (end - start + 1)
    ensures multiset(LoxChild(p1, p2, start, end)) == multiset(p1)
  {
    LoxKeptIsOutside(p1, p2, start, end);
    var kept := LoxKept(p1, p2, start, end);
    assert kept[..|kept|] == kept;
    LoxLayoutFull(p1, start, end, kept);
    AroundSegment(kept, p1[start..end + 1], |p1| - 1 - end);
    SegmentSplit(p1, start, end);
  }

  /** The free slot that follows `m` slots already written, the `child_idx` of `lox_build_child`. */
  function NextSlot(len: nat, end: nat, m: nat): nat
  {
    if end + 1 + m < len then end + 1 + m else end + 1 + m - len
  }

  /** The walk over the free slots reaches `start` exactly when every free slot is written. */
  lemma NextSlotReachesStart(len: nat, start: nat, end: nat, m: nat)
    requires start <= end < len && m <= len - (end - start + 1)
    ensures NextSlot(len, end, m) == start <==> m == len - (end - start + 1)
  {
  }

  /** Writing one more entry changes only the next free slot. */
  lemma LoxLayoutStep(p1: seq<string>, start: nat, end: nat, written: seq<string>, item: string)
    requires start <= end < |p1| && |written| < |p1| - (end - start + 1)
    ensures NextSlot(|p1|, end, |written|) < |p1|
    ensures LoxLayout(p1, start, end, written + [item]) ==
            LoxLayout(p1, start, end, written)[NextSlot(|p1|, end, |written|) := item]
  {
    var a, b := LoxLayout(p1, start, end, written), LoxLayout(p1, start, end, written + [item]);
    var idx := NextSlot(|p1|, end, |written|);
    forall q | 0 <= q < |p1|
      ensures b[q] == a[idx := item][q]
    {
      if start <= q <= end {
      } else if end < q {
        assert b[q] == Written(written + [item], q - end - 1);
        assert a[q] == Written(written, q - end - 1);
      } else {
        assert b[q] == Written(written + [item], q + |p1| - end - 1);
        assert a[q] == Written(written, q + |p1| - end - 1);
      }
    }
  }

  /** The first phase of `lox_build_child`: a fresh buffer holding `p1[start..=end]` in place, `""` elsewhere. */
  method LoxCopySegment(p1: seq<string>, start: nat, end: nat) returns (buf: array<string>)
    requires start <= end < |p1|
    ensures fresh(buf) && buf[..] == LoxLayout(p1, start, end, [])
  {
    buf := new string[|p1|](_ => "");
    var segment := p1[start..end + 1];
    for i := 0 to |segment|
      invariant forall q :: 0 <= q < |p1| ==> buf[q] == if start <= q < start + i then p1[q] else ""
    {
      buf[start + i] := segment[i];
    }
    ghost var layout := LoxLayout(p1, start, end, []);
    forall q | 0 <= q < |p1|
      ensures buf[q] == layout[q]
    {
      if start <= q <= end {
        assert layout[q] == p1[q];
      } else if end < q {
        assert layout[q] == Written([], q - end - 1);
      } else {
        assert layout[q] == Written([], q + |p1| - end - 1);
      }
    }
    assert buf[..] == layout;
  }

  /** At the end of the walk, or once the free slots are full, `written` is what `LoxChild` lays out. */
  lemma LoxScanDone(rot: seq<string>, i: nat, written: seq<string>, kept: seq<string>,
                    skip: map<string, int>, seg: map<string, int>, free: nat)
    requires i <= |rot| && written + SkipCounted(rot[i..], skip, seg) == kept && |written| <= free
    requires i == |rot| || (|written| == free && i < |rot| && Get(skip, rot[i]) >= Get(seg, rot[i]))
    ensures written == kept[..Min(|kept|, free)]
  {
    if i == |rot| {
      assert rot[i..] == [];
    } else {
      SkipCountedStep(rot, i, skip, seg, written);
      assert kept[..|written|] == written;
    }
  }

  /** What the counters of `lox_build_child` let through, starting from no skips. */
  function LoxCounted(p1: seq<string>, p2: seq<string>, start: nat, end: nat): seq<string>
    requires start <= end < |p1| <= |p2|
  {
    SkipCounted(Rotated(p2[..|p1|], end + 1), map[], Counts(p1[start..end + 1]))
  }

  /** The counters keep exactly the entries `LoxKept` keeps. */
  lemma LoxKeptCounted(p1: seq<string>, p2: seq<string>, start: nat, end: nat)
    requires start <= end < |p1| <= |p2|
    ensures LoxKept(p1, p2, start, end) == LoxCounted(p1, p2, start, end)
  {
    var segment := p1[start..end + 1];
    forall x
      ensures Get(map[], x) + multiset(segment)[x] == Get(Counts(segment), x)
    {
      CountsAreOccurrences(segment, x);
    }
    SkipCountedIsSkipFirst(Rotated(p2[..|p1|], end + 1), map[], Counts(segment), multiset(segment));
  }

  /** The `i`-th entry of the circular walk over `p2`, from just after the segment (`p2_idx`). */
  method LoxWalkAt(p2: seq<string>, len: nat, end: nat, i: nat) returns (item: string)
    requires end < len <= |p2| && i < len
    ensures item == Rotated(p2[..len], end + 1)[i]
  {
    var p2Idx := (end + 1 + i) % len;
    item := p2[p2Idx];
    RotatedAt(p2[..len], end + 1, i);
  }

  /** One write of the fill loop: the next free slot gets `item`, and the slot after it is returned. */
  method LoxWriteSlot(buf: array<string>, p1: seq<string>, start: nat, end: nat, ghost written: seq<string>,
                      childIdx: nat, item: string) returns (next: nat)
    requires start <= end < |p1| && |written| < |p1| - (end - start + 1)
    requires childIdx == NextSlot(|p1|, end, |written|) && buf[..] == LoxLayout(p1, start, end, written)
    modifies buf
    ensures buf[..] == LoxLayout(p1, start, end, written + [item])
    ensures next == NextSlot(|p1|, end, |written| + 1)
  {
    LoxLayoutStep(p1, start, end, written, item);
    buf[childIdx] := item;
    WrapIndex(childIdx + 1, |p1|);
    next := (childIdx + 1) % |p1|;
  }

  /**
   * One entry `item` of the circular walk: skipped while the segment still
   * holds more copies of it than were skipped, otherwise written into the
   * next free slot; `done` when no free slot is left.
   */
  method LoxVisit(buf: array<string>, p1: seq<string>, start: nat, end: nat, ghost rot: seq<string>, ghost kept: seq<string>,
                  ghost written: seq<string>, i: nat, item: string, skipCounts: map<string, int>,
                  segCounts: map<string, int>, childIdx: nat)
    returns (skipCounts': map<string, int>, childIdx': nat, ghost written': seq<string>, done: bool)
    requires start <= end < |p1| && i < |rot| && item == rot[i] && |written| <= |p1| - (end - start + 1)
    requires written + SkipCounted(rot[i..], skipCounts, segCounts) == kept
    requires childIdx == NextSlot(|p1|, end, |written|) && buf[..] == LoxLayout(p1, start, end, written)
    modifies buf
    ensures |written'| <= |p1| - (end - start + 1) && buf[..] == LoxLayout(p1, start, end, written')
    ensures done ==> written' == kept[..Min(|kept|, |p1| - (end - start + 1))]
    ensures !done ==> written' + SkipCounted(rot[i + 1..], skipCounts', segCounts) == kept
    ensures !done ==> childIdx' == NextSlot(|p1|, end, |written'|)
  {
    SkipCountedStep(rot, i, skipCounts, segCounts, written);
    skipCounts', childIdx', written', done := skipCounts, childIdx, written, false;
    var segCount := Get(segCounts, item);
    var skipped := Get(skipCounts, item);
    if skipped < segCount {
      skipCounts' := skipCounts[item := skipped + 1];
    } else {
      NextSlotReachesStart(|p1|, start, end, |written|);
      if childIdx == start {
        LoxScanDone(rot, i, written, kept, skipCounts, segCounts, |p1| - (end - start + 1));
        done := true;
      } else {
        childIdx' := LoxWriteSlot(buf, p1, start, end, written, childIdx, item);
        written' := written + [item];
      }
    }
  }

  /**
   * The second phase: walks `p2` circularly from just after the segment,
   * skips as many occurrences of each id as the segment holds, and writes
   * the other entries into the free slots until it comes back to `start`.
   */
  method LoxFillSlots(buf: array<string>, p1: seq<string>, p2: seq<string>, start: nat, end: nat)
    requires start <= end < |p1| <= |p2| && buf[..] == LoxLayout(p1, start, end, [])
    modifies buf
    ensures var kept := LoxCounted(p1, p2, start, end);
      buf[..] == LoxLayout(p1, start, end, kept[..Min(|kept|, |p1| - (end - start + 1))])
  {
    var len := |p1|;
    var segment := p1[start..end + 1];
    var segCounts := CountIds(segment);
    var childIdx := (end + 1) % len;
    var skipCounts: map<string, int> := map[];
    ghost var free := len - (end - start + 1);
    ghost var rot := Rotated(p2[..len], end + 1);
    ghost var kept := LoxCounted(p1, p2, start, end);
    ghost var written: seq<string> := [];
    WrapIndex(end + 1, len);
    assert rot[0..] == rot;
    var i := 0;
    while i < len
      invariant 0 <= i <= len && |written| <= free && |rot| == len
      invariant written + SkipCounted(rot[i..], skipCounts, segCounts) == kept
      invariant childIdx == NextSlot(len, end, |written|)
      invariant buf[..] == LoxLayout(p1, start, end, written)
    {
      var item := LoxWalkAt(p2, len, end, i);
      var done;
      skipCounts, childIdx, written, done :=
        LoxVisit(buf, p1, start, end, rot, kept, written, i, item, skipCounts, segCounts, childIdx);
      if done {
        break;
      }
      i := i + 1;
    }
    if i == len {
      LoxScanDone(rot, i, written, kept, skipCounts, segCounts, free);
    }
  }

  /** `lox_build_child`: copy the segment, then fill the other slots. */
  method LoxBuildChild(p1: seq<string>, p2: seq<string>, start: nat, end: nat) returns (child: seq<string>)
    requires start <= end < |p1| <= |p2|
    ensures child == LoxChild(p1, p2, start, end)
  {
    var buf := LoxCopySegment(p1, start, end);
    LoxFillSlots(buf, p1, p2, start, end);
    LoxKeptCounted(p1, p2, start, end);
    child := buf[..];
  }
}
