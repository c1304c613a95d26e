/**
 * Shared value types: optional values, three-way comparison, and the
 * integer and string orderings the scheduling code relies on.
 */
module Common {

  datatype Option<T> = None | Some(value: T)
  {
    /** The wrapped value, or `default` when there is none (`unwrap_or`). */
    function UnwrapOr(default: T): T
    {
      if Some? then value else default
    }
  }

  /** The result of a three-way comparison (`std::cmp::Ordering`). */
  datatype Ordering = Less | Equal | Greater
  {
    /** The ordering seen from the other side of the comparison. */
    function Reverse(): Ordering
    {
      match this
      case Less => Greater
      case Equal => Equal
      case Greater => Less
    }
  }

  /** Concatenation regroups freely. */
  lemma AppendAssoc<T>(a: seq<T>, b: seq<T>, c: seq<T>)
    ensures (a + b) + c == a + (b + c)
  {
  }

  function Max(a: int, b: int): int
  {
    if a >= b then a else b
  }

  function Min(a: int, b: int): int
  {
    if a <= b then a else b
  }

  /** `Ord::cmp` on integers. */
  function CompareInt(a: int, b: int): Ordering
  {
    if a < b then Less else if a == b then Equal else Greater
  }

  /**
   * `Ord::cmp` on strings: lexicographic by character, a proper prefix
   * ordered first. Ordering by code point agrees with Rust's byte-wise
   * comparison of UTF-8 strings.
   */
  function CompareString(a: string, b: string): Ordering
  {
    if a == [] && b == [] then Equal
    else if a == [] then Less
    else if b == [] then Greater
    else if a[0] < b[0] then Less
    else if b[0] < a[0] then Greater
    else CompareString(a[1..], b[1..])
  }

  /** Two strings compare Equal exactly when they are the same string. */
  lemma {:induction false} CompareStringEqual(a: string, b: string)
    ensures CompareString(a, b) == Equal <==> a == b
  {
    if a != [] && b != [] && a[0] == b[0] {
      CompareStringEqual(a[1..], b[1..]);
      assert a == [a[0]] + a[1..];
      assert b == [b[0]] + b[1..];
    }
  }

  /** Swapping the arguments reverses the comparison. */
  lemma {:induction false} CompareStringReverse(a: string, b: string)
    ensures CompareString(b, a) == CompareString(a, b).Reverse()
  {
    if a != [] && b != [] && a[0] == b[0] {
      CompareStringReverse(a[1..], b[1..]);
    }
  }

  /** "Not Greater" on strings is transitive. */
  lemma {:induction false} CompareStringTransitive(a: string, b: string, c: string)
    requires CompareString(a, b) != Greater && CompareString(b, c) != Greater
    ensures CompareString(a, c) != Greater
  {
    if a != [] && b != [] && c != [] && a[0] == b[0] && b[0] == c[0] {
      CompareStringTransitive(a[1..], b[1..], c[1..]);
    }
  }
}
