/**
 * A zset as the engine stores it: a `LinkedHashMap<String, Double>` seen as
 * the sequence of its entries in iteration order. This module holds the
 * operations the repository performs on one zset: `put`, the pairing of ZADD's
 * tokens, the sort by `MapValueKeyComparator`, the rank search and the range
 * slice.
 */
module ZSets {
  import opened Values
  import opened Comparator

  /** The member names of a zset. */
  function Members(z: seq<Entry>): set<string> {
    set i | 0 <= i < |z| :: z[i].0
  }

  /** A map has one entry per key. */
  predicate UniqueMembers(z: seq<Entry>) {
    forall i, j :: 0 <= i < j < |z| ==> z[i].0 != z[j].0
  }

  /** Ascending order under the comparator, strictly. */
  predicate Sorted(z: seq<Entry>) {
    forall i, j :: 0 <= i < j < |z| ==> EntryLess(z[i], z[j])
  }

  /** `map.get(m)`: the score of the first entry for `m`. */
  function ScoreOf(z: seq<Entry>, m: string): Option<Score> {
    if z == [] then None else if z[0].0 == m then Some(z[0].1) else ScoreOf(z[1..], m)
  }

  lemma MembersCons(z: seq<Entry>)
    requires z != []
    ensures Members(z) == {z[0].0} + Members(z[1..])
  {
    forall m | m in Members(z) ensures m in {z[0].0} + Members(z[1..]) {
      var i :| 0 <= i < |z| && z[i].0 == m;
      if i > 0 {
        assert z[1..][i - 1].0 == m;
      }
    }
    forall m | m in Members(z[1..]) ensures m in Members(z) {
      var i :| 0 <= i < |z[1..]| && z[1..][i].0 == m;
      assert z[i + 1].0 == m;
    }
  }

  lemma MembersSnoc(z: seq<Entry>, e: Entry)
    ensures Members(z + [e]) == Members(z) + {e.0}
  {
    var w := z + [e];
    forall m | m in Members(w) ensures m in Members(z) + {e.0} {
      var i :| 0 <= i < |w| && w[i].0 == m;
      if i < |z| {
        assert z[i].0 == m;
      }
    }
    forall m | m in Members(z) ensures m in Members(w) {
      var i :| 0 <= i < |z| && z[i].0 == m;
      assert w[i].0 == m;
    }
    assert w[|z|].0 == e.0;
  }

  lemma HeadIsMember(z: seq<Entry>)
    ensures z != [] ==> z[0].0 in Members(z)
  {
  }

  /** In a map, each member's score is the one at its own position. */
  lemma {:induction false} ScoreOfAt(z: seq<Entry>, i: int)
    requires UniqueMembers(z) && 0 <= i < |z|
    ensures ScoreOf(z, z[i].0) == Some(z[i].1)
  {
    if i > 0 {
      ScoreOfAt(z[1..], i - 1);
    }
  }

  lemma {:induction false} ScoreOfAbsent(z: seq<Entry>, m: string)
    requires m !in Members(z)
    ensures ScoreOf(z, m) == None
  {
    if z != [] {
      MembersCons(z);
      ScoreOfAbsent(z[1..], m);
    }
  }

  /**
   * `LinkedHashMap.put(m, sc)`: a present member keeps its position and takes
   * the new score; a new member is appended.
   */
  function PutEntry(z: seq<Entry>, m: string, sc: Score): (r: seq<Entry>)
    requires UniqueMembers(z)
    ensures UniqueMembers(r)
    ensures Members(r) == Members(z) + {m}
    decreases |z|
  {
    if z == [] then
      MembersSnoc([], (m, sc));
      [(m, sc)]
    else if z[0].0 == m then
      MembersCons(z);
      var r := [(m, sc)] + z[1..];
      MembersCons(r);
      assert r[1..] == z[1..];
      r
    else
      MembersCons(z);
      var tail := PutEntry(z[1..], m, sc);
      var r := [z[0]] + tail;
      MembersCons(r);
      assert r[1..] == tail;
      r
  }

  /** `put` of a new member appends it. */
  lemma {:induction false} PutEntryAppends(z: seq<Entry>, m: string, sc: Score)
    requires UniqueMembers(z) && m !in Members(z)
    ensures PutEntry(z, m, sc) == z + [(m, sc)]
    decreases |z|
  {
    if z != [] {
      MembersCons(z);
      PutEntryAppends(z[1..], m, sc);
      assert z == [z[0]] + z[1..];
    }
  }

  /** `put` of a present member replaces its entry in place and leaves the others. */
  lemma {:induction false} PutEntryInPlace(z: seq<Entry>, m: string, sc: Score)
    requires UniqueMembers(z) && m in Members(z)
    ensures |PutEntry(z, m, sc)| == |z|
    ensures forall i :: 0 <= i < |z| ==> PutEntry(z, m, sc)[i] == if z[i].0 == m then (m, sc) else z[i]
    decreases |z|
  {
    MembersCons(z);
    var r := PutEntry(z, m, sc);
    if z[0].0 == m {
      forall i | 0 < i < |z| ensures r[i] == z[i] {
        assert z[i].0 != z[0].0;
      }
    } else {
      var tail := PutEntry(z[1..], m, sc);
      PutEntryInPlace(z[1..], m, sc);
      forall i | 0 < i < |z| ensures r[i] == if z[i].0 == m then (m, sc) else z[i] {
        assert r[i] == tail[i - 1] && z[i] == z[1..][i - 1];
      }
    }
  }

  /** After `put(m, sc)`, `get(m)` is `sc` and every other member's score is unchanged. */
  lemma {:induction false} PutEntryScores(z: seq<Entry>, m: string, sc: Score, x: string)
    requires UniqueMembers(z)
    ensures ScoreOf(PutEntry(z, m, sc), x) == if x == m then Some(sc) else ScoreOf(z, x)
    decreases |z|
  {
    if z != [] {
      var r := PutEntry(z, m, sc);
      if z[0].0 == m {
        assert r[1..] == z[1..];
      } else {
        PutEntryScores(z[1..], m, sc, x);
        assert r[1..] == PutEntry(z[1..], m, sc);
      }
    }
  }

  /**
   * The (member, score) pairs ZADD saves from its flat token list
   * score1, member1, score2, member2, ...: a pair whose score does not parse is
   * skipped, and a trailing score without a member is ignored.
   */
  function ValidPairs(t: seq<string>, parse: string -> Option<Score>): seq<Entry>
    decreases |t|
  {
    if |t| < 2 then []
    else if |t| % 2 == 1 then ValidPairs(t[..|t| - 1], parse)
    else
      var score := parse(t[|t| - 2]);
      ValidPairs(t[..|t| - 2], parse) + (if score.Some? then [(t[|t| - 1], score.value)] else [])
  }

  /** An odd last token never forms a pair. */
  lemma ValidPairsOddStep(t: seq<string>, parse: string -> Option<Score>)
    requires |t| % 2 == 1
    ensures ValidPairs(t, parse) == ValidPairs(t[..|t| - 1], parse)
  {
  }

  /** A closing (score, member) pair is kept exactly when its score parses. */
  lemma ValidPairsEvenStep(t: seq<string>, parse: string -> Option<Score>)
    requires |t| >= 2 && |t| % 2 == 0
    ensures ValidPairs(t, parse) == ValidPairs(t[..|t| - 2], parse) +
      (if parse(t[|t| - 2]).Some? then [(t[|t| - 1], parse(t[|t| - 2]).value)] else [])
  {
  }

  /** The pair closed by tokens `paired` and `paired + 1` extends the pairs of the tokens before it. */
  lemma ValidPairsNextPair(t: seq<string>, parse: string -> Option<Score>, paired: nat)
    requires paired % 2 == 0 && paired + 1 < |t|
    ensures ValidPairs(t[..paired + 2], parse) == ValidPairs(t[..paired], parse) +
      (if parse(t[paired]).Some? then [(t[paired + 1], parse(t[paired]).value)] else [])
  {
    var u := t[..paired + 2];
    ValidPairsEvenStep(u, parse);
    assert u[..|u| - 2] == t[..paired];
  }

  /**
   * The saved pairs are exactly the token pairs whose score parses: every saved
   * pair is a member token (odd position) with what the score token just before
   * it parses to, and every such token pair is saved.
   */
  lemma {:induction false} ValidPairsFromTokens(t: seq<string>, parse: string -> Option<Score>)
    ensures forall e | e in ValidPairs(t, parse) ::
      exists i :: 1 <= i < |t| && i % 2 == 1 && t[i] == e.0 && parse(t[i - 1]) == Some(e.1)
    ensures forall i | 1 <= i < |t| && i % 2 == 1 && parse(t[i - 1]).Some? ::
      (t[i], parse(t[i - 1]).value) in ValidPairs(t, parse)
    decreases |t|
  {
    if |t| >= 2 {
      var n := if |t| % 2 == 1 then |t| - 1 else |t| - 2;
      ValidPairsFromTokens(t[..n], parse);
      assert forall i :: 0 <= i < n ==> t[..n][i] == t[i];
    }
  }

  /** At most one pair per two tokens, and exactly one when every score parses. */
  lemma {:induction false} ValidPairsCount(t: seq<string>, parse: string -> Option<Score>)
    ensures |ValidPairs(t, parse)| <= |t| / 2
    ensures (forall i :: 0 <= i < |t| && i % 2 == 0 ==> parse(t[i]).Some?) ==>
      |ValidPairs(t, parse)| == |t| / 2
    decreases |t|
  {
    if |t| >= 2 {
      var n := if |t| % 2 == 1 then |t| - 1 else |t| - 2;
      assert forall i :: 0 <= i < n ==> t[..n][i] == t[i];
      ValidPairsCount(t[..n], parse);
    }
  }

  /** The score a member was last given in `ps`, if any. */
  function LastScore(ps: seq<Entry>, m: string): Option<Score> {
    if ps == [] then None
    else if ps[|ps| - 1].0 == m then Some(ps[|ps| - 1].1)
    else LastScore(ps[..|ps| - 1], m)
  }

  /** A member given in `ps` has a last score. */
  lemma {:induction false} LastScoreOfMember(ps: seq<Entry>, m: string)
    requires m in Members(ps)
    ensures LastScore(ps, m).Some?
  {
    if ps[|ps| - 1].0 != m {
      MembersSnoc(ps[..|ps| - 1], ps[|ps| - 1]);
      assert ps == ps[..|ps| - 1] + [ps[|ps| - 1]];
      LastScoreOfMember(ps[..|ps| - 1], m);
    }
  }

  /** `put` of every pair of `ps` into `z`, in order. */
  function PutAll(z: seq<Entry>, ps: seq<Entry>): (r: seq<Entry>)
    requires UniqueMembers(z)
    ensures UniqueMembers(r)
  {
    if ps == [] then z
    else
      var p := ps[|ps| - 1];
      PutEntry(PutAll(z, ps[..|ps| - 1]), p.0, p.1)
  }

  /** After the puts, the map holds its old members and the put ones. */
  lemma {:induction false} PutAllMembers(z: seq<Entry>, ps: seq<Entry>)
    requires UniqueMembers(z)
    ensures Members(PutAll(z, ps)) == Members(z) + Members(ps)
  {
    if ps != [] {
      var init, p := ps[..|ps| - 1], ps[|ps| - 1];
      PutAllMembers(z, init);
      SplitLast(ps);
      PutAllMembersStep(z, init, p);
    }
  }

  lemma SplitLast<T>(s: seq<T>)
    requires s != []
    ensures s == s[..|s| - 1] + [s[|s| - 1]]
  {
  }

  lemma PutAllMembersStep(z: seq<Entry>, init: seq<Entry>, p: Entry)
    requires UniqueMembers(z)
    requires Members(PutAll(z, init)) == Members(z) + Members(init)
    ensures Members(PutAll(z, init + [p])) == Members(z) + Members(init + [p])
  {
    var prev := PutAll(z, init);
    PutAllSnoc(z, init, p);
    MembersSnoc(init, p);
    UnionAddOne(Members(PutEntry(prev, p.0, p.1)), Members(prev), Members(z), Members(init), p.0);
  }

  /** Set algebra kept apart from the set comprehension that defines `Members`. */
  lemma UnionAddOne(r: set<string>, prev: set<string>, a: set<string>, b: set<string>, x: string)
    requires prev == a + b && r == prev + {x}
    ensures r == a + (b + {x})
  {
  }

  /** After the puts, a put member has the last score it was given and any other its old score. */
  lemma {:induction false} PutAllScores(z: seq<Entry>, ps: seq<Entry>, m: string)
    requires UniqueMembers(z)
    ensures ScoreOf(PutAll(z, ps), m) ==
      if LastScore(ps, m).Some? then LastScore(ps, m) else ScoreOf(z, m)
  {
    if ps != [] {
      var p := ps[|ps| - 1];
      PutAllScores(z, ps[..|ps| - 1], m);
      PutEntryScores(PutAll(z, ps[..|ps| - 1]), p.0, p.1, m);
    }
  }

  /** Putting one more pair is one more `put`. */
  lemma PutAllSnoc(z: seq<Entry>, ps: seq<Entry>, p: Entry)
    requires UniqueMembers(z)
    ensures PutAll(z, ps + [p]) == PutEntry(PutAll(z, ps), p.0, p.1)
  {
    assert (ps + [p])[..|ps|] == ps;
  }

  /** Prepending an entry of a new member keeps the members unique. */
  lemma ConsEntry(e: Entry, t: seq<Entry>)
    requires UniqueMembers(t) && e.0 !in Members(t)
    ensures UniqueMembers([e] + t)
    ensures Members([e] + t) == {e.0} + Members(t)
    ensures forall m :: ScoreOf([e] + t, m) == if m == e.0 then Some(e.1) else ScoreOf(t, m)
  {
    var r := [e] + t;
    assert r[1..] == t;
    MembersCons(r);
    forall i, j | 0 <= i < j < |r| ensures r[i].0 != r[j].0 {
      if i == 0 {
        assert r[j] == t[j - 1];
      }
    }
  }

  /** Inserts a new member at its sorted position. */
  function Insert(x: Entry, s: seq<Entry>): (r: seq<Entry>)
    requires Sorted(s) && UniqueMembers(s) && x.0 !in Members(s)
    ensures Sorted(r) && UniqueMembers(r)
    ensures Members(r) == Members(s) + {x.0}
    ensures multiset(r) == multiset(s) + multiset{x}
    ensures forall m :: ScoreOf(r, m) == if m == x.0 then Some(x.1) else ScoreOf(s, m)
    decreases |s|
  {
    if s == [] then
      ConsEntry(x, []);
      [x]
    else
      MembersCons(s);
      assert s == [s[0]] + s[1..];
      if EntryLess(x, s[0]) then
        ConsEntry(x, s);
        InsertBelowHead(x, s);
        [x] + s
      else
        EntryLessTotal(x, s[0]);
        var tail := Insert(x, s[1..]);
        ConsEntry(s[0], tail);
        HeadBelowInserted(x, s, tail);
        [s[0]] + tail
  }

  lemma InsertBelowHead(x: Entry, s: seq<Entry>)
    requires Sorted(s) && s != [] && EntryLess(x, s[0])
    ensures Sorted([x] + s)
  {
    var r := [x] + s;
    forall i, j | 0 <= i < j < |r| ensures EntryLess(r[i], r[j]) {
      if i == 0 && j > 1 {
        EntryLessTransitive(x, s[0], s[j - 1]);
      }
    }
  }

  lemma HeadBelowInserted(x: Entry, s: seq<Entry>, tail: seq<Entry>)
    requires Sorted(s) && s != [] && EntryLess(s[0], x)
    requires Sorted(tail) && multiset(tail) == multiset(s[1..]) + multiset{x}
    ensures Sorted([s[0]] + tail)
  {
    var r := [s[0]] + tail;
    forall i, j | 0 <= i < j < |r| ensures EntryLess(r[i], r[j]) {
      if i == 0 {
        var e := tail[j - 1];
        assert e in multiset(tail);
        if e != x {
          assert e in multiset(s[1..]);
          var k :| 0 <= k < |s[1..]| && s[1..][k] == e;
          assert s[k + 1] == e;
        }
      }
    }
  }

  /**
   * `Collections.sort(list, new MapValueKeyComparator())` of a map's entries:
   * the same entries, ascending by (score, member).
   */
  function SortEntries(s: seq<Entry>): (r: seq<Entry>)
    requires UniqueMembers(s)
    ensures Sorted(r) && UniqueMembers(r)
    ensures Members(r) == Members(s)
    ensures multiset(r) == multiset(s)
    ensures forall m :: ScoreOf(r, m) == ScoreOf(s, m)
  {
    if s == [] then []
    else
      MembersCons(s);
      assert s == [s[0]] + s[1..];
      Insert(s[0], SortEntries(s[1..]))
  }

  /**
   * A sorted map is determined by its member-to-score mapping: sorting the
   * entries of a zset yields one sequence, whatever order they came in.
   */
  lemma {:induction false} SortedDeterminedByScores(a: seq<Entry>, b: seq<Entry>)
    requires Sorted(a) && Sorted(b) && UniqueMembers(a) && UniqueMembers(b)
    requires Members(a) == Members(b)
    requires forall m :: ScoreOf(a, m) == ScoreOf(b, m)
    ensures a == b
    decreases |a|
  {
    if a == [] {
      HeadIsMember(b);
    } else {
      assert a[0].0 in Members(a);
      assert b != [];
      var k :| 0 <= k < |b| && b[k].0 == a[0].0;
      ScoreOfAt(a, 0);
      ScoreOfAt(b, k);
      assert b[k] == a[0];
      assert b[0].0 in Members(a);
      var l :| 0 <= l < |a| && a[l].0 == b[0].0;
      ScoreOfAt(a, l);
      ScoreOfAt(b, 0);
      assert a[l] == b[0];
      if k != 0 {
        assert EntryLess(b[0], a[0]);
        assert l != 0;
        EntryLessAsymmetric(a[0], a[l]);
        assert false;
      }
      MembersCons(a);
      MembersCons(b);
      forall m ensures ScoreOf(a[1..], m) == ScoreOf(b[1..], m) {
        if m != a[0].0 {
          assert ScoreOf(a, m) == ScoreOf(a[1..], m);
        } else {
          assert forall i :: 0 < i < |a| ==> a[i].0 != m;
          assert forall i :: 0 < i < |b| ==> b[i].0 != m;
          ScoreOfAbsent(a[1..], m);
          ScoreOfAbsent(b[1..], m);
        }
      }
      assert Members(a[1..]) == Members(a) - {a[0].0} by {
        assert a[0].0 !in Members(a[1..]);
      }
      assert Members(b[1..]) == Members(b) - {b[0].0} by {
        assert b[0].0 !in Members(b[1..]);
      }
      SortedDeterminedByScores(a[1..], b[1..]);
      assert a == [a[0]] + a[1..] && b == [b[0]] + b[1..];
    }
  }

  /**
   * The rank search of ZRANK: the index of the first entry for `m`, or -1
   * when `m` is not a member.
   */
  function IndexOf(z: seq<Entry>, m: string): (r: int)
    ensures -1 <= r < |z|
    ensures r == -1 <==> m !in Members(z)
    ensures r >= 0 ==> z[r].0 == m && forall j :: 0 <= j < r ==> z[j].0 != m
  {
    if z == [] then -1
    else
      MembersCons(z);
      if z[0].0 == m then 0
      else
        var k := IndexOf(z[1..], m);
        if k == -1 then -1 else k + 1
  }

  /** In a sorted zset, ranks follow the comparator order of the members' entries. */
  lemma RankFollowsOrder(z: seq<Entry>, i: int, j: int)
    requires Sorted(z) && UniqueMembers(z)
    requires 0 <= i < |z| && 0 <= j < |z|
    ensures IndexOf(z, z[i].0) == i && IndexOf(z, z[j].0) == j
    ensures i < j <==> EntryLess(z[i], z[j])
  {
    if i >= j && EntryLess(z[i], z[j]) {
      if i == j {
        EntryLessIrreflexive(z[i]);
      } else {
        EntryLessAsymmetric(z[j], z[i]);
      }
    }
  }

  /** The number of entries of `z` that the comparator orders before `x`. */
  function CountBefore(z: seq<Entry>, x: Entry): nat {
    if z == [] then 0 else (if EntryLess(z[0], x) then 1 else 0) + CountBefore(z[1..], x)
  }

  /** In a sorted zset the rank of a member is the number of entries ordered before it. */
  lemma {:induction false} RankCountsPredecessors(z: seq<Entry>, i: int)
    requires Sorted(z) && 0 <= i < |z|
    ensures CountBefore(z, z[i]) == i
  {
    if i == 0 {
      EntryLessIrreflexive(z[0]);
      NoneBefore(z[1..], z[0]);
    } else {
      assert z[1..][i - 1] == z[i];
      RankCountsPredecessors(z[1..], i - 1);
    }
  }

  lemma {:induction false} NoneBefore(z: seq<Entry>, x: Entry)
    requires forall k :: 0 <= k < |z| ==> EntryLess(x, z[k])
    ensures CountBefore(z, x) == 0
  {
    if z != [] {
      EntryLessAsymmetric(x, z[0]);
      NoneBefore(z[1..], x);
    }
  }

  /** In a map, the number of members is the number of entries (ZCARD). */
  lemma {:induction false} MemberCount(z: seq<Entry>)
    requires UniqueMembers(z)
    ensures |Members(z)| == |z|
  {
    if z != [] {
      MembersCons(z);
      MemberCount(z[1..]);
      assert z[0].0 !in Members(z[1..]);
    }
  }

  /**
   * The index range Redis documents for ZRANGE: negative indexes count from
   * the end (-1 is the last entry), a stop past the end is clamped to the last
   * entry, and an empty result when start lies past stop or past the end.
   */
  function RedisRange(list: seq<Entry>, start: int, stop: int): (r: seq<Entry>)
    ensures |r| <= |list|
  {
    var size := |list|;
    var s := if start < 0 then (if size + start < 0 then 0 else size + start) else start;
    var e := if stop < 0 then size + stop else stop;
    var last := if e >= size then size - 1 else e;
    if s > last || s >= size then [] else list[s..last + 1]
  }

  /** The documented examples: 0..-1 is the whole zset, -1..-1 its last entry, a stop past the end clamps. */
  lemma RedisRangeExamples(list: seq<Entry>)
    ensures RedisRange(list, 0, -1) == list
    ensures RedisRange(list, 0, |list|) == list
    ensures list != [] ==> RedisRange(list, -1, -1) == [list[|list| - 1]]
  {
    assert list[0..|list|] == list;
  }

  /**
   * The index rules of the documented range, for every input: a stop at or past
   * the last entry acts as the last entry, a negative index i acts as size + i
   * (a start before the beginning as 0), and a normalised range start..stop is
   * exactly the entries at those positions, empty when start lies past stop.
   */
  lemma RedisRangeIndexRules(list: seq<Entry>, start: int, stop: int)
    ensures stop >= |list| - 1 ==> RedisRange(list, start, stop) == RedisRange(list, start, |list| - 1)
    ensures stop < 0 && |list| + stop >= 0 ==> RedisRange(list, start, stop) == RedisRange(list, start, |list| + stop)
    ensures start < 0 && |list| + start >= 0 ==> RedisRange(list, start, stop) == RedisRange(list, |list| + start, stop)
    ensures start < 0 && |list| + start < 0 ==> RedisRange(list, start, stop) == RedisRange(list, 0, stop)
    ensures 0 <= start <= stop < |list| ==> RedisRange(list, start, stop) == list[start..stop + 1]
    ensures 0 <= stop < start || start >= |list| ==> RedisRange(list, start, stop) == []
    ensures |list| + stop < 0 ==> RedisRange(list, start, stop) == []
  {
  }

  /**
   * ZRANGE on a zset's entries as `DatabaseRepository.zrange` computes it.
   * It agrees with `RedisRange` for non-negative indexes, answers a negative
   * stop as Redis answers stop - 1, and fails (the out-of-range `list.get`)
   * on a negative start or on stop == size.
   */
  function RangeOf(list: seq<Entry>, start: Int32, stop: Int32): (r: Result<seq<Entry>>)
    ensures r.Err? <==> |list| > 0 && ((start < 0 && stop >= 1 - |list|) || (stop == |list| && start <= stop))
    ensures r.Err? ==> r.error == IndexOutOfBoundsException
    ensures r.Ok? && start >= 0 && stop >= 0 ==> r.value == RedisRange(list, start, stop)
    ensures r.Ok? && start >= 0 && stop < 0 ==> r.value == RedisRange(list, start, stop - 1)
    ensures r.Ok? && start < 0 ==> r.value == []
  {
    if |list| == 0 then Ok([])
    else
      var size := |list|;
      if start > size && start > stop then Ok([])
      else
        var lastElement := if stop > size then size - 1 else if stop < 0 then size - 1 + stop else stop;
        if stop < 0 && (lastElement < 0 || lastElement < start) then Ok([])
        else if start > lastElement then Ok([])  // IntStream.rangeClosed(start, lastElement) is empty
        else if start < 0 || lastElement >= size then Err(IndexOutOfBoundsException)
        else Ok(list[start..lastElement + 1])
  }

  /** As written, ZRANGE 0 -1 leaves out the last entry. */
  lemma RangeOfMinusOneDropsLast(list: seq<Entry>)
    requires |list| >= 1
    ensures RangeOf(list, 0, -1) == Ok(list[..|list| - 1])
    ensures RedisRange(list, 0, -1) == list
  {
    RedisRangeExamples(list);
  }

  /** As written, a stop equal to the size reads past the end. */
  lemma RangeOfStopAtSizeFails(list: seq<Entry>)
    requires 1 <= |list| <= MAX_INT
    ensures RangeOf(list, 0, |list|).Err?
    ensures RedisRange(list, 0, |list|) == list
  {
    RedisRangeExamples(list);
  }

  /** As written, a negative start reads before the beginning. */
  lemma RangeOfNegativeStartFails(list: seq<Entry>)
    requires |list| >= 2
    ensures RangeOf(list, -1, -1).Err?
    ensures RedisRange(list, -1, -1) == [list[|list| - 1]]
  {
    RedisRangeExamples(list);
  }
}
