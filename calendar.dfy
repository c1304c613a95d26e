/**
 * Availability calendars (src/models/calendar.rs): half-open time windows,
 * positive availability windows and overriding blocked periods.
 */
module Calendars {
  import opened Common

  /** `i64::MAX`, the bound `next_available_time` checks blocked-period ends against. */
  const I64Max: int := 0x7FFF_FFFF_FFFF_FFFF

  /** A half-open interval [startMs, endMs) in milliseconds. */
  datatype TimeWindow = TimeWindow(startMs: int, endMs: int)
  {
    function DurationMs(): int
    {
      endMs - startMs
    }

    predicate Contains(timeMs: int)
    {
      startMs <= timeMs < endMs
    }

    predicate Overlaps(other: TimeWindow)
    {
      startMs < other.endMs && other.startMs < endMs
    }
  }

  /** A non-empty window holds its start and not its end. */
  lemma ContainsHalfOpen(w: TimeWindow)
    requires w.startMs < w.endMs
    ensures w.Contains(w.startMs) && !w.Contains(w.endMs)
    ensures forall t :: w.Contains(t) <==> w.startMs <= t && t < w.endMs
  {
  }

  /** Overlap does not depend on the order of the two windows. */
  lemma OverlapsSymmetric(a: TimeWindow, b: TimeWindow)
    ensures a.Overlaps(b) <==> b.Overlaps(a)
  {
  }

  /** Windows that only touch at an end point do not overlap. */
  lemma TouchingWindowsDoNotOverlap(a: TimeWindow, b: TimeWindow)
    requires a.endMs == b.startMs
    ensures !a.Overlaps(b) && !b.Overlaps(a)
  {
  }

  /** For non-empty windows, overlapping means sharing an instant. */
  lemma OverlapsIffCommonInstant(a: TimeWindow, b: TimeWindow)
    requires a.startMs < a.endMs && b.startMs < b.endMs
    ensures a.Overlaps(b) <==> exists t :: a.Contains(t) && b.Contains(t)
  {
    if a.Overlaps(b) {
      var t := Max(a.startMs, b.startMs);
      assert a.Contains(t) && b.Contains(t);
    }
  }

  /**
   * The length of the intersection of two windows, `None` when they share
   * no instant (`overlap_duration`).
   */
  function OverlapDuration(a: TimeWindow, b: TimeWindow): (r: Option<int>)
    ensures r.Some? <==> exists t :: a.Contains(t) && b.Contains(t)
    ensures r.Some? ==> 0 < r.value <= a.DurationMs() && r.value <= b.DurationMs()
  {
    var start := Max(a.startMs, b.startMs);
    var end := Min(a.endMs, b.endMs);
    assert end > start ==> a.Contains(start) && b.Contains(start);
    if end > start then Some(end - start) else None
  }

  function OverlapOrZero(a: TimeWindow, b: TimeWindow): int
  {
    OverlapDuration(a, b).UnwrapOr(0)
  }

  /** The summed overlap of `range` with each window of `ws` (a `filter_map` + `sum`). */
  function SumOverlaps(range: TimeWindow, ws: seq<TimeWindow>): (r: int)
    ensures 0 <= r
  {
    if ws == [] then 0
    else SumOverlaps(range, ws[..|ws| - 1]) + OverlapOrZero(range, ws[|ws| - 1])
  }

  /** Whether any window of `ws` contains `t` (an `iter().any`). */
  predicate AnyContains(ws: seq<TimeWindow>, t: int)
  {
    exists i :: 0 <= i < |ws| && ws[i].Contains(t)
  }

  predicate IsSortedAsc(s: seq<int>)
  {
    forall i, j :: 0 <= i < j < |s| ==> s[i] <= s[j]
  }

  function InsertSorted(x: int, s: seq<int>): (r: seq<int>)
    ensures multiset(r) == multiset(s) + multiset{x}
  {
    if s == [] then [x]
    else if x <= s[0] then [x] + s
    else
      assert s == [s[0]] + s[1..];
      [s[0]] + InsertSorted(x, s[1..])
  }

  /** Inserting into an ascending sequence keeps it ascending. */
  lemma {:induction false} InsertSortedKeepsOrder(x: int, s: seq<int>)
    requires IsSortedAsc(s)
    ensures IsSortedAsc(InsertSorted(x, s))
  {
    if s != [] && x > s[0] {
      var tail := s[1..];
      SortedTail(s);
      InsertSortedKeepsOrder(x, tail);
      var rest := InsertSorted(x, tail);
      AllAtLeastHead(s, x, rest);
      ConsSorted(s[0], rest);
    }
  }

  lemma SortedTail(s: seq<int>)
    requires s != [] && IsSortedAsc(s)
    ensures IsSortedAsc(s[1..])
  {
    var tail := s[1..];
    forall i, j | 0 <= i < j < |tail| ensures tail[i] <= tail[j] {
      assert tail[i] == s[i + 1] && tail[j] == s[j + 1];
    }
  }

  /** Every entry of `rest`, a rearrangement of the tail of `s` and `x`, is at least the head of `s`. */
  lemma AllAtLeastHead(s: seq<int>, x: int, rest: seq<int>)
    requires s != [] && IsSortedAsc(s) && x > s[0] && multiset(rest) == multiset(s[1..]) + multiset{x}
    ensures forall k :: 0 <= k < |rest| ==> s[0] <= rest[k]
  {
    var tail := s[1..];
    forall k | 0 <= k < |rest| ensures s[0] <= rest[k] {
      assert rest[k] in multiset(rest);
      if rest[k] != x {
        assert rest[k] in multiset(tail);
        var m :| 0 <= m < |tail| && tail[m] == rest[k];
        assert s[m + 1] == rest[k];
      }
    }
  }

  lemma ConsSorted(h: int, rest: seq<int>)
    requires IsSortedAsc(rest) && forall k :: 0 <= k < |rest| ==> h <= rest[k]
    ensures IsSortedAsc([h] + rest)
  {
    var r := [h] + rest;
    forall i, j | 0 <= i < j < |r| ensures r[i] <= r[j] {
      assert r[j] == rest[j - 1];
      if i > 0 {
        assert r[i] == rest[i - 1];
      }
    }
  }

  /** Ascending order of a sequence of integers (`Vec::sort`). */
  function SortAscending(s: seq<int>): (r: seq<int>)
    ensures multiset(r) == multiset(s)
  {
    if s == [] then []
    else
      assert s == [s[0]] + s[1..];
      InsertSorted(s[0], SortAscending(s[1..]))
  }

  /** The sorted sequence is ascending. */
  lemma {:induction false} SortAscendingIsSorted(s: seq<int>)
    ensures IsSortedAsc(SortAscending(s))
  {
    if s != [] {
      SortAscendingIsSorted(s[1..]);
      InsertSortedKeepsOrder(s[0], SortAscending(s[1..]));
    }
  }

  /**
   * The candidate restart times of `next_available_time`: for each window
   * that ends after `from`, the later of its start and `from`.
   */
  function WindowCandidates(ws: seq<TimeWindow>, from: int): (r: seq<int>)
    ensures forall x :: x in r ==> from <= x
    ensures forall i :: 0 <= i < |ws| && ws[i].endMs > from ==> Max(ws[i].startMs, from) in r
  {
    if ws == [] then []
    else
      var rest := WindowCandidates(ws[1..], from);
      assert forall i :: 1 <= i < |ws| ==> ws[i] == ws[1..][i - 1];
      if ws[0].endMs > from then [Max(ws[0].startMs, from)] + rest else rest
  }

  /**
   * A resource calendar. With no availability windows the resource is
   * always available except during blocked periods; blocked periods
   * override windows.
   */
  datatype Calendar = Calendar(id: string, timeWindows: seq<TimeWindow>, blockedPeriods: seq<TimeWindow>)
  {
    function WithWindow(startMs: int, endMs: int): (r: Calendar)
      ensures r.timeWindows == timeWindows + [TimeWindow(startMs, endMs)]
      ensures r.blockedPeriods == blockedPeriods && r.id == id
    {
      this.(timeWindows := timeWindows + [TimeWindow(startMs, endMs)])
    }

    function WithBlocked(startMs: int, endMs: int): (r: Calendar)
      ensures r.blockedPeriods == blockedPeriods + [TimeWindow(startMs, endMs)]
      ensures r.timeWindows == timeWindows && r.id == id
    {
      this.(blockedPeriods := blockedPeriods + [TimeWindow(startMs, endMs)])
    }

    /** `is_working_time`: blocked periods first, then the windows if any. */
    predicate IsWorkingTime(timeMs: int)
    {
      if AnyContains(blockedPeriods, timeMs) then false
      else if timeWindows == [] then true
      else AnyContains(timeWindows, timeMs)
    }

    /** No blocked period holding `t` and ending below `i64::MAX` ends at a working instant. */
    predicate NoWorkingFallback(t: int)
    {
      forall j :: 0 <= j < |blockedPeriods| && blockedPeriods[j].Contains(t) && blockedPeriods[j].endMs < I64Max ==>
        !IsWorkingTime(blockedPeriods[j].endMs)
    }

    /**
     * Where the windows branch may find `v`: a window start clipped to
     * `fromMs`, or the end (below `i64::MAX`) of a blocked period holding one.
     */
    ghost predicate FoundFromCandidate(fromMs: int, v: int)
    {
      v in WindowCandidates(timeWindows, fromMs) ||
      exists c, j :: c in WindowCandidates(timeWindows, fromMs) && 0 <= j < |blockedPeriods| &&
        blockedPeriods[j].Contains(c) && blockedPeriods[j].endMs == v && v < I64Max
    }

    /**
     * A working instant at or after `fromMs` reached by searching the ends
     * of blocked periods and the starts of later windows in ascending order
     * (`next_available_time`); not always the earliest working instant.
     */
    method NextAvailableTime(fromMs: int) returns (r: Option<int>)
      ensures IsWorkingTime(fromMs) ==> r == Some(fromMs)
      ensures r.Some? ==> fromMs <= r.value && IsWorkingTime(r.value)
      ensures r.Some? && !IsWorkingTime(fromMs) && timeWindows == [] ==>
        exists i :: 0 <= i < |blockedPeriods| && blockedPeriods[i].Contains(fromMs) && blockedPeriods[i].endMs == r.value
      ensures r.Some? && !IsWorkingTime(fromMs) && timeWindows != [] ==> FoundFromCandidate(fromMs, r.value)
      ensures r.Some? && !IsWorkingTime(fromMs) && timeWindows != [] ==>
        forall c :: c in WindowCandidates(timeWindows, fromMs) && c < r.value ==> !IsWorkingTime(c)
      ensures r.None? && timeWindows == [] ==>
        forall i :: 0 <= i < |blockedPeriods| && blockedPeriods[i].Contains(fromMs) ==>
          !IsWorkingTime(blockedPeriods[i].endMs)
      ensures r.None? && timeWindows != [] ==>
        forall i :: 0 <= i < |timeWindows| && timeWindows[i].endMs > fromMs ==>
          !IsWorkingTime(Max(timeWindows[i].startMs, fromMs))
      ensures r.None? && timeWindows != [] ==>
        forall c :: c in WindowCandidates(timeWindows, fromMs) ==> NoWorkingFallback(c)
    {
      if IsWorkingTime(fromMs) {
        return Some(fromMs);
      }
      if |timeWindows| == 0 {
        r := EndOfBlockedPeriod(fromMs);
      } else {
        r := NextWindowStart(fromMs);
      }
    }

    /**
     * The no-windows branch: the end of the first blocked period holding
     * `fromMs` whose end is working time.
     */
    method EndOfBlockedPeriod(fromMs: int) returns (r: Option<int>)
      ensures r.Some? ==> fromMs < r.value && IsWorkingTime(r.value)
      ensures r.Some? ==>
        exists i :: 0 <= i < |blockedPeriods| && blockedPeriods[i].Contains(fromMs) && blockedPeriods[i].endMs == r.value &&
          forall k :: 0 <= k < i && blockedPeriods[k].Contains(fromMs) ==> !IsWorkingTime(blockedPeriods[k].endMs)
      ensures r.None? ==>
        forall i :: 0 <= i < |blockedPeriods| && blockedPeriods[i].Contains(fromMs) ==>
          !IsWorkingTime(blockedPeriods[i].endMs)
    {
      for i := 0 to |blockedPeriods|
        invariant forall k :: 0 <= k < i && blockedPeriods[k].Contains(fromMs) ==>
          !IsWorkingTime(blockedPeriods[k].endMs)
      {
        var bp := blockedPeriods[i];
        if bp.Contains(fromMs) {
          var candidate := bp.endMs;
          if IsWorkingTime(candidate) {
            return Some(candidate);
          }
        }
      }
      return None;
    }

    /**
     * The windows branch: window starts (clipped to `fromMs`) in ascending
     * order, each tried directly and then through the end of a blocked
     * period that holds it.
     */
    method NextWindowStart(fromMs: int) returns (r: Option<int>)
      ensures r.Some? ==> fromMs <= r.value && IsWorkingTime(r.value) && FoundFromCandidate(fromMs, r.value)
      ensures r.None? ==>
        forall i :: 0 <= i < |timeWindows| && timeWindows[i].endMs > fromMs ==>
          !IsWorkingTime(Max(timeWindows[i].startMs, fromMs))
      ensures r.None? ==> forall c :: c in WindowCandidates(timeWindows, fromMs) ==> NoWorkingFallback(c)
      ensures r.Some? ==> forall c :: c in WindowCandidates(timeWindows, fromMs) && c < r.value ==> !IsWorkingTime(c)
    {
      var unsorted := WindowCandidates(timeWindows, fromMs);
      var candidates := SortAscending(unsorted);
      SortAscendingIsSorted(unsorted);
      for i := 0 to |candidates|
        invariant forall k :: 0 <= k < i ==> !IsWorkingTime(candidates[k]) && NoWorkingFallback(candidates[k])
      {
        var candidate := candidates[i];
        assert candidate in multiset(unsorted);
        assert candidate in unsorted;
        EarlierCandidatesIdle(unsorted, candidates, i);
        if IsWorkingTime(candidate) {
          return Some(candidate);
        }
        var fallback := EndOfBlockingPeriod(candidate);
        if fallback.Some? {
          forall x | x in unsorted && x < fallback.value
            ensures !IsWorkingTime(x)
          {
            if candidate < x {
              var j :| 0 <= j < |blockedPeriods| && blockedPeriods[j].Contains(candidate) &&
                blockedPeriods[j].endMs == fallback.value;
              assert blockedPeriods[j].Contains(x);
            }
          }
          return fallback;
        }
        NoneWorkingExtends(candidates, i);
      }
      assert forall x :: x in unsorted ==> !IsWorkingTime(x) && NoWorkingFallback(x) by {
        forall x | x in unsorted
          ensures !IsWorkingTime(x) && NoWorkingFallback(x)
        {
          assert x in multiset(candidates);
          var k :| 0 <= k < |candidates| && candidates[k] == x;
        }
      }
      return None;
    }

    /**
     * In an ascending arrangement of the candidates whose first `i` entries
     * are not working, no candidate below entry `i` is working.
     */
    lemma EarlierCandidatesIdle(unsorted: seq<int>, cs: seq<int>, i: nat)
      requires multiset(cs) == multiset(unsorted) && IsSortedAsc(cs) && i < |cs|
      requires forall k :: 0 <= k < i ==> !IsWorkingTime(cs[k])
      ensures forall x :: x in unsorted && x < cs[i] ==> !IsWorkingTime(x)
    {
      forall x | x in unsorted && x < cs[i]
        ensures !IsWorkingTime(x)
      {
        assert x in multiset(cs);
        var k :| 0 <= k < |cs| && cs[k] == x;
        assert k < i;
      }
    }

    /** A prefix of non-working instants grows by one more non-working instant. */
    lemma NoneWorkingExtends(cs: seq<int>, i: nat)
      requires i < |cs| && !IsWorkingTime(cs[i]) && NoWorkingFallback(cs[i])
      requires forall k :: 0 <= k < i ==> !IsWorkingTime(cs[k]) && NoWorkingFallback(cs[k])
      ensures forall k :: 0 <= k < i + 1 ==> !IsWorkingTime(cs[k]) && NoWorkingFallback(cs[k])
    {
    }

    /** The first blocked period holding `t` whose end is below `i64::MAX` and working. */
    method EndOfBlockingPeriod(t: int) returns (r: Option<int>)
      ensures r.Some? ==> t < r.value < I64Max && IsWorkingTime(r.value)
      ensures r.Some? ==>
        exists i :: 0 <= i < |blockedPeriods| && blockedPeriods[i].Contains(t) && blockedPeriods[i].endMs == r.value &&
          forall k :: 0 <= k < i && blockedPeriods[k].Contains(t) && blockedPeriods[k].endMs < I64Max ==>
            !IsWorkingTime(blockedPeriods[k].endMs)
      ensures r.None? ==> NoWorkingFallback(t)
    {
      for j := 0 to |blockedPeriods|
        invariant forall k :: 0 <= k < j && blockedPeriods[k].Contains(t) && blockedPeriods[k].endMs < I64Max ==>
          !IsWorkingTime(blockedPeriods[k].endMs)
      {
        var bp := blockedPeriods[j];
        if bp.Contains(t) && bp.endMs < I64Max && IsWorkingTime(bp.endMs) {
          return Some(bp.endMs);
        }
      }
      return None;
    }

    /**
     * Milliseconds of [startMs, endMs) covered by the windows (or the whole
     * range when there are none), less the blocked overlaps
     * (`available_time_in_range`).
     */
    method AvailableTimeInRange(startMs: int, endMs: int) returns (r: int)
      ensures endMs <= startMs ==> r == 0
      ensures startMs < endMs && timeWindows == [] ==>
        r == (endMs - startMs) - SumOverlaps(TimeWindow(startMs, endMs), blockedPeriods)
      ensures startMs < endMs && timeWindows != [] ==>
        r == Max(SumOverlaps(TimeWindow(startMs, endMs), timeWindows)
                 - SumOverlaps(TimeWindow(startMs, endMs), blockedPeriods), 0)
      ensures timeWindows != [] ==> 0 <= r
    {
      if endMs <= startMs {
        return 0;
      }
      var range := TimeWindow(startMs, endMs);
      if |timeWindows| == 0 {
        var blocked := SumOverlaps(range, blockedPeriods);
        return range.DurationMs() - blocked;
      }
      var available := 0;
      for i := 0 to |timeWindows|
        invariant available == SumOverlaps(range, timeWindows[..i])
      {
        assert timeWindows[..i + 1][..i] == timeWindows[..i];
        var d := OverlapDuration(range, timeWindows[i]);
        if d.Some? {
          available := available + d.value;
        }
      }
      assert timeWindows[..|timeWindows|] == timeWindows;
      var blocked := SumOverlaps(range, blockedPeriods);
      r := Max(available - blocked, 0);
    }
  }

  /** `Calendar::new`: no windows and no blocked periods. */
  function NewCalendar(id: string): (c: Calendar)
    ensures c.id == id && c.timeWindows == [] && c.blockedPeriods == []
  {
    Calendar(id, [], [])
  }

  /** The predicate `is_working_time`, stated with quantifiers. */
  lemma WorkingTimeMeaning(c: Calendar, t: int)
    ensures c.IsWorkingTime(t) <==>
      (forall i :: 0 <= i < |c.blockedPeriods| ==> !c.blockedPeriods[i].Contains(t)) &&
      (c.timeWindows == [] || exists i :: 0 <= i < |c.timeWindows| && c.timeWindows[i].Contains(t))
  {
  }

  /** An empty calendar is working at every instant. */
  lemma NewCalendarAlwaysWorking(id: string, t: int)
    ensures NewCalendar(id).IsWorkingTime(t)
  {
  }

  /** A blocked period overrides every window. */
  lemma BlockedOverridesWindows(c: Calendar, startMs: int, endMs: int, t: int)
    requires startMs <= t < endMs
    ensures !c.WithBlocked(startMs, endMs).IsWorkingTime(t)
  {
    var cb := c.WithBlocked(startMs, endMs);
    assert cb.blockedPeriods[|cb.blockedPeriods| - 1].Contains(t);
  }

  /** A window lying over the whole range contributes the full range length. */
  lemma {:induction false} CoveringWindowGivesFullRange(range: TimeWindow, w: TimeWindow)
    requires range.startMs < range.endMs
    requires w.startMs <= range.startMs && range.endMs <= w.endMs
    ensures SumOverlaps(range, [w]) == range.DurationMs()
  {
    assert [w][..0] == [];
  }
}
