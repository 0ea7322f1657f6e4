/**
 * `MapValueKeyComparator`: zset entries are ordered by score first and by
 * member name when the scores tie. `ScoreCompareTo` and `StringCompareTo` are
 * the `compareTo` methods of `Double` and `String` that it delegates to.
 */
module Comparator {
  import opened Values

  /** `Double.compareTo` on two scores: -1, 0 or 1. */
  function ScoreCompareTo(a: Score, b: Score): (r: int)
    ensures r < 0 <==> a < b
    ensures r == 0 <==> a == b
    ensures r > 0 <==> a > b
  {
    if a < b then -1 else if a > b then 1 else 0
  }

  /** Lexicographic order on strings: a proper prefix, or a smaller character at the first difference. */
  predicate StrLess(a: string, b: string) {
    if b == [] then false
    else if a == [] then true
    else if a[0] != b[0] then a[0] < b[0]
    else StrLess(a[1..], b[1..])
  }

  /**
   * `String.compareTo`: the difference of the first differing characters,
   * or else the difference of the lengths.
   */
  function StringCompareTo(a: string, b: string): (r: int)
    ensures r < 0 <==> StrLess(a, b)
    ensures r == 0 <==> a == b
    ensures r > 0 <==> StrLess(b, a)
  {
    if a == [] || b == [] then |a| - |b|
    else if a[0] != b[0] then a[0] as int - b[0] as int
    else StringCompareTo(a[1..], b[1..])
  }

  lemma {:induction false} StrLessTransitive(a: string, b: string, c: string)
    requires StrLess(a, b) && StrLess(b, c)
    ensures StrLess(a, c)
  {
    if a != [] && a[0] == b[0] && b[0] == c[0] {
      StrLessTransitive(a[1..], b[1..], c[1..]);
    }
  }

  /** The order the comparator induces: score first, member name on a tie. */
  predicate EntryLess(x: Entry, y: Entry) {
    x.1 < y.1 || (x.1 == y.1 && StrLess(x.0, y.0))
  }

  /** `MapValueKeyComparator.compare`. */
  function Compare(o1: Entry, o2: Entry): (r: int)
    ensures r < 0 <==> EntryLess(o1, o2)
    ensures r == 0 <==> o1 == o2
    ensures r > 0 <==> EntryLess(o2, o1)
  {
    var comparison := ScoreCompareTo(o1.1, o2.1);
    if comparison != 0 then comparison else StringCompareTo(o1.0, o2.0)
  }

  /** Different scores: the score comparison alone decides. */
  lemma CompareScoreFirst(o1: Entry, o2: Entry)
    requires o1.1 != o2.1
    ensures Compare(o1, o2) == ScoreCompareTo(o1.1, o2.1)
  {
  }

  /** Equal scores: the member comparison decides. */
  lemma CompareTieBreak(o1: Entry, o2: Entry)
    requires o1.1 == o2.1
    ensures Compare(o1, o2) == StringCompareTo(o1.0, o2.0)
  {
  }

  /** Two entries of distinct members never compare equal. */
  lemma CompareDistinctMembers(o1: Entry, o2: Entry)
    requires o1.0 != o2.0
    ensures Compare(o1, o2) != 0
  {
  }

  function Sign(x: int): int {
    if x < 0 then -1 else if x > 0 then 1 else 0
  }

  /** sgn(compare(a, b)) == -sgn(compare(b, a)), as the Comparator contract asks. */
  lemma CompareAntisymmetric(a: Entry, b: Entry)
    ensures Sign(Compare(a, b)) == -Sign(Compare(b, a))
  {
    var _ := Compare(a, b);
    var _ := Compare(b, a);
  }

  lemma EntryLessIrreflexive(x: Entry)
    ensures !EntryLess(x, x)
  {
    var _ := Compare(x, x);
  }

  lemma EntryLessAsymmetric(x: Entry, y: Entry)
    requires EntryLess(x, y)
    ensures !EntryLess(y, x)
  {
    var _ := Compare(x, y);
  }

  lemma EntryLessTotal(x: Entry, y: Entry)
    requires x != y
    ensures EntryLess(x, y) || EntryLess(y, x)
  {
    var _ := Compare(x, y);
  }

  lemma EntryLessTransitive(x: Entry, y: Entry, z: Entry)
    requires EntryLess(x, y) && EntryLess(y, z)
    ensures EntryLess(x, z)
  {
    if x.1 == y.1 == z.1 {
      StrLessTransitive(x.0, y.0, z.0);
    }
  }

  /** compare(a, b) < 0 and compare(b, c) < 0 imply compare(a, c) < 0. */
  lemma CompareTransitive(a: Entry, b: Entry, c: Entry)
    requires Compare(a, b) < 0 && Compare(b, c) < 0
    ensures Compare(a, c) < 0
  {
    EntryLessTransitive(a, b, c);
  }
}
