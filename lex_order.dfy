/**
 * The order in which record identifiers are compared: Python's `<=` on `str`,
 * which compares code points from the left and puts a proper prefix first.
 * (Dafny's own `<` on sequences means "proper prefix", so it is not used.)
 */
module LexOrder {

  /** `a <= b` on strings, lexicographically by code point. */
  predicate LexLe(a: string, b: string)
    decreases |a|
  {
    a == [] || (b != [] && (a[0] < b[0] || (a[0] == b[0] && LexLe(a[1..], b[1..]))))
  }

  /** The range test `start <= id <= end`, inclusive at both ends. */
  predicate InRange(id: string, start: string, end: string) {
    LexLe(start, id) && LexLe(id, end)
  }

  lemma {:induction false} LexLeReflexive(a: string)
    ensures LexLe(a, a)
    decreases |a|
  {
    if a != [] {
      LexLeReflexive(a[1..]);
    }
  }

  lemma {:induction false} LexLeAntisymmetric(a: string, b: string)
    requires LexLe(a, b) && LexLe(b, a)
    ensures a == b
    decreases |a|
  {
    if a != [] {
      LexLeAntisymmetric(a[1..], b[1..]);
      assert a == [a[0]] + a[1..] && b == [b[0]] + b[1..];
    }
  }

  lemma {:induction false} LexLeTransitive(a: string, b: string, c: string)
    requires LexLe(a, b) && LexLe(b, c)
    ensures LexLe(a, c)
    decreases |a|
  {
    if a != [] && a[0] == b[0] && b[0] == c[0] {
      LexLeTransitive(a[1..], b[1..], c[1..]);
    }
  }

  lemma {:induction false} LexLeTotal(a: string, b: string)
    ensures LexLe(a, b) || LexLe(b, a)
    decreases |a|
  {
    if a != [] && b != [] && a[0] == b[0] {
      LexLeTotal(a[1..], b[1..]);
    }
  }

  /** Both bounds of a non-empty range belong to it. */
  lemma BoundsIncluded(start: string, end: string)
    requires LexLe(start, end)
    ensures InRange(start, start, end) && InRange(end, start, end)
  {
    LexLeReflexive(start);
    LexLeReflexive(end);
  }

  /** An identifier strictly above `end` or strictly below `start` is outside the range. */
  lemma OutsideExcluded(id: string, start: string, end: string)
    requires (LexLe(end, id) && id != end) || (LexLe(id, start) && id != start)
    ensures !InRange(id, start, end)
  {
    if InRange(id, start, end) {
      if LexLe(end, id) && id != end {
        LexLeAntisymmetric(id, end);
      } else {
        LexLeAntisymmetric(id, start);
      }
    }
  }
}
