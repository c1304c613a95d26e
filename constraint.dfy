/**
 * Scheduling constraints and sequence-dependent setup times
 * (src/models/constraint.rs).
 */
module Constraints {

  /** The rules a valid schedule has to satisfy. */
  datatype Constraint =
    | Precedence(before: string, after: string, minDelayMs: int)
    | Capacity(resourceId: string, maxCapacity: int)
    | TimeWindow(activityId: string, startMs: int, endMs: int)
    | NoOverlap(resourceId: string, activityIds: seq<string>)
    | TransitionCost(fromCategory: string, toCategory: string, costMs: int)
    | Synchronize(activityIds: seq<string>)

  /** `Constraint::precedence`: `after` may start once `before` ends, with no delay. */
  function NewPrecedence(before: string, after: string): (c: Constraint)
    ensures c.Precedence? && c.before == before && c.after == after && c.minDelayMs == 0
  {
    Precedence(before, after, 0)
  }

  function NewPrecedenceWithDelay(before: string, after: string, delayMs: int): (c: Constraint)
    ensures c.Precedence? && c.before == before && c.after == after && c.minDelayMs == delayMs
  {
    Precedence(before, after, delayMs)
  }

  function NewCapacity(resourceId: string, max: int): (c: Constraint)
    ensures c.Capacity? && c.resourceId == resourceId && c.maxCapacity == max
  {
    Capacity(resourceId, max)
  }

  function NewTimeWindow(activityId: string, startMs: int, endMs: int): (c: Constraint)
    ensures c.TimeWindow? && c.activityId == activityId && c.startMs == startMs && c.endMs == endMs
  {
    TimeWindow(activityId, startMs, endMs)
  }

  function NewNoOverlap(resourceId: string, activityIds: seq<string>): (c: Constraint)
    ensures c.NoOverlap? && c.resourceId == resourceId && c.activityIds == activityIds
  {
    NoOverlap(resourceId, activityIds)
  }

  function NewSynchronize(activityIds: seq<string>): (c: Constraint)
    ensures c.Synchronize? && c.activityIds == activityIds
  {
    Synchronize(activityIds)
  }

  /** The zero-delay constructor is the delayed one with delay 0. */
  lemma PrecedenceIsZeroDelay(before: string, after: string)
    ensures NewPrecedence(before, after) == NewPrecedenceWithDelay(before, after, 0)
  {
  }

  /** The contents of one transition matrix: explicit entries and the default. */
  datatype MatrixTable = MatrixTable(transitions: map<(string, string), int>, defaultMs: int)

  /**
   * The explicit entry for (from, to) if there is one; otherwise 0 for a
   * category followed by itself, and the default for distinct ones.
   */
  function TransitionLookup(m: MatrixTable, from: string, to: string): (r: int)
    ensures (from, to) in m.transitions ==> r == m.transitions[(from, to)]
    ensures (from, to) !in m.transitions && from == to ==> r == 0
    ensures (from, to) !in m.transitions && from != to ==> r == m.defaultMs
  {
    if from == to then
      if (from, to) in m.transitions then m.transitions[(from, to)] else 0
    else
      if (from, to) in m.transitions then m.transitions[(from, to)] else m.defaultMs
  }

  /** The setup time on `resourceId` from `from` to `to`; 0 for a resource without a matrix. */
  function TableTime(tables: map<string, MatrixTable>, resourceId: string, from: string, to: string): (r: int)
    ensures resourceId !in tables ==> r == 0
    ensures resourceId in tables ==> r == TransitionLookup(tables[resourceId], from, to)
  {
    if resourceId in tables then TransitionLookup(tables[resourceId], from, to) else 0
  }

  /**
   * Setup times between task categories on one resource: explicit entries
   * for (from, to) pairs, and a default for distinct categories without one.
   */
  class TransitionMatrix {
    var name: string
    var resourceId: string
    var transitions: map<(string, string), int>
    var defaultMs: int

    /** `TransitionMatrix::new`: no entries and a default of 0. */
    constructor (name: string, resourceId: string)
      ensures this.name == name && this.resourceId == resourceId
      ensures transitions == map[] && defaultMs == 0
    {
      this.name := name;
      this.resourceId := resourceId;
      transitions := map[];
      defaultMs := 0;
    }

    /** Sets the time used for distinct categories without an entry. */
    method WithDefault(d: int)
      modifies this
      ensures defaultMs == d
      ensures transitions == old(transitions) && name == old(name) && resourceId == old(resourceId)
    {
      defaultMs := d;
    }

    /** Defines (or overwrites) the time from `from` to `to`. */
    method SetTransition(from: string, to: string, timeMs: int)
      modifies this
      ensures transitions == old(transitions)[(from, to) := timeMs]
      ensures defaultMs == old(defaultMs) && name == old(name) && resourceId == old(resourceId)
      ensures GetTransition(from, to) == timeMs
      ensures TransitionCount() == old(TransitionCount()) + (if (from, to) in old(transitions) then 0 else 1)
    {
      transitions := transitions[(from, to) := timeMs];
    }

    function Table(): MatrixTable
      reads this
    {
      MatrixTable(transitions, defaultMs)
    }

    /** `get_transition`: see `TransitionLookup`. */
    function GetTransition(from: string, to: string): (r: int)
      reads this
      ensures (from, to) in transitions ==> r == transitions[(from, to)]
      ensures (from, to) !in transitions && from == to ==> r == 0
      ensures (from, to) !in transitions && from != to ==> r == defaultMs
    {
      TransitionLookup(Table(), from, to)
    }

    /** The number of distinct pairs with an explicit entry. */
    function TransitionCount(): (n: nat)
      reads this
      ensures n == |transitions.Keys|
    {
      |transitions|
    }
  }

  /** A same-category lookup never falls back to the default. */
  lemma SameCategoryIgnoresDefault(m: TransitionMatrix, c: string)
    ensures m.GetTransition(c, c) == (if (c, c) in m.transitions then m.transitions[(c, c)] else 0)
  {
  }

  /** Transition matrices keyed by the resource they apply to. */
  class TransitionMatrixCollection {
    var matrices: map<string, TransitionMatrix>

    /** An empty collection. */
    constructor ()
      ensures matrices == map[]
    {
      matrices := map[];
    }

    /** Adds `m` under its resource id, replacing any matrix already there. */
    method Add(m: TransitionMatrix)
      modifies this
      ensures matrices == old(matrices)[m.resourceId := m]
      ensures Len() <= old(Len()) + 1
    {
      matrices := matrices[m.resourceId := m];
    }

    /** The contents of every matrix, keyed by resource. */
    function Tables(): (r: map<string, MatrixTable>)
      reads this, matrices.Values
      ensures r.Keys == matrices.Keys
      ensures forall id :: id in matrices ==> r[id] == matrices[id].Table()
    {
      map id | id in matrices :: matrices[id].Table()
    }

    /** The setup time on `resourceId` from `from` to `to`; 0 when the resource has no matrix. */
    function GetTransitionTime(resourceId: string, from: string, to: string): (r: int)
      reads this, matrices.Values
      ensures resourceId !in matrices ==> r == 0
      ensures resourceId in matrices ==> r == matrices[resourceId].GetTransition(from, to)
      ensures r == TableTime(Tables(), resourceId, from, to)
    {
      if resourceId in matrices then matrices[resourceId].GetTransition(from, to) else 0
    }

    /** The number of resources holding a matrix. */
    function Len(): (n: nat)
      reads this
      ensures n == |matrices.Keys|
      ensures n == 0 <==> matrices == map[]
    {
      |matrices|
    }

    function IsEmpty(): (b: bool)
      reads this
      ensures b <==> Len() == 0
    {
      |matrices| == 0
    }
  }

  /** A matrix with no entries and a zero default gives no setup at all. */
  lemma EmptyMatrixLooksUpZero(m: MatrixTable, from: string, to: string)
    requires m.transitions == map[] && m.defaultMs == 0
    ensures TransitionLookup(m, from, to) == 0
  {
  }

  /** Looking up a pair through the collection after adding its matrix. */
  lemma CollectionDelegates(c: TransitionMatrixCollection, m: TransitionMatrix, from: string, to: string)
    requires m.resourceId in c.matrices && c.matrices[m.resourceId] == m
    ensures c.GetTransitionTime(m.resourceId, from, to) == m.GetTransition(from, to)
  {
  }
}
