/**
 * `DatabaseRepository`: the command engine over the one shared map from key
 * to stored object. SET, DEL, INCR and ZADD change the map in place and are
 * methods of the `DatabaseRepository` class; GET, DBSIZE, ZCARD, ZRANK and
 * ZRANGE only read it and are functions of the map.
 */
module Repository {
  import opened Values
  import opened Numerals
  import opened Rendering
  import opened Comparator
  import opened ZSets

  const INVALID_NUMBER_OF_ARGUMENTS_FOR_METHOD_ZADD: string :=
    "Invalid number of arguments for method ZADD key score1 member1 score2 member2 ... ."
  const NOT_RESOLVABLE_AS_STRING: string :=
    "Value can`t be resolved as a string. If you`re trying to get a zset, try using ZRANGE instead."
  const ZADD_ON_NON_ZSET: string :=
    "The given key does not hold a zset, thus can not be modified. Try `SET key value` instead."
  const NOT_A_ZSET: string := "Value stored in given key does not represent a zset."

  /** The contents of the shared map. */
  type Db = map<string, Obj>

  /** A stored LinkedHashMap has one entry per member. */
  predicate WellFormed(o: Obj) {
    o.ZSet? ==> UniqueMembers(o.entries)
  }

  ghost predicate DbValid(db: Db) {
    forall k | k in db :: WellFormed(db[k])
  }

  /** Every stored zset is in (score, member) order. */
  ghost predicate ZSetsSorted(db: Db) {
    forall k | k in db && db[k].ZSet? :: Sorted(db[k].entries)
  }

  /** `getObject`: the object stored at `key`, `None` for null. */
  function GetObject(db: Db, key: string): (r: Option<Obj>)
    ensures r.Some? <==> key in db
    ensures r.Some? ==> r.value == db[key]
  {
    if key in db then Some(db[key]) else None
  }

  /**
   * GET (`getStringValue`): a String as it is, any other object through
   * `Double.valueOf(value.toString()).toString()`. Only an Integer survives that
   * round; the text of a zset or an ExpirableValue is no number, so GET throws.
   */
  function GetStringValue(db: Db, key: string): (r: Result<Option<string>>)
    ensures r == Ok(None) <==> key !in db
    ensures r.Err? <==> key in db && (db[key].ZSet? || db[key].Expirable?)
    ensures r.Err? ==> r.error == BusinessException(NOT_RESOLVABLE_AS_STRING)
    ensures key in db && db[key].Str? ==> r == Ok(Some(db[key].s))
    ensures key in db && db[key].Num? ==> r == Ok(Some(DoubleText(db[key].n)))
  {
    if key !in db then Ok(None)
    else
      match db[key]
      case Str(s) => Ok(Some(s))
      case Num(n) => Ok(Some(DoubleText(n)))
      case _ => Err(BusinessException(NOT_RESOLVABLE_AS_STRING))
  }

  /**
   * GET of a stored Integer answers its `Double.toString` text: below 10^7 in
   * magnitude the Integer's own text plus ".0", so a stored 1 reads as "1.0".
   */
  lemma GetIntegerReadsAsDouble(db: Db, key: string)
    requires key in db && db[key].Num? && -10_000_000 < db[key].n < 10_000_000
    ensures GetStringValue(db, key) == Ok(Some(Text(db[key]) + ".0"))
    ensures GetStringValue(db[key := Num(1)], key) == Ok(Some("1.0"))
  {
    DoubleTextOfSmall(db[key].n);
    DoubleTextOfSmall(1);
    assert NatToString(1) == [DigitChar(1)] == "1";
    assert IntToString(1) + ".0" == "1.0";
    assert GetStringValue(db[key := Num(1)], key) == Ok(Some(DoubleText(1)));
  }

  /** A string just stored reads back as itself, and no other key's reading changes. */
  lemma SetThenGet(db: Db, key: string, s: string, other: string)
    requires other != key
    ensures GetStringValue(db[key := Str(s)], key) == Ok(Some(s))
    ensures GetStringValue(db[key := Str(s)], other) == GetStringValue(db, other)
  {
  }

  /** DBSIZE: the number of keys. */
  function Dbsize(db: Db): (r: nat)
    ensures r == |db.Keys|
  {
    |db|
  }

  /** `getZset`: the zset at `key`, `None` for an absent key, an error for any other object. */
  function GetZSet(db: Db, key: string): (r: Result<Option<seq<Entry>>>)
    ensures r == Ok(None) <==> key !in db
    ensures r.Ok? && r.value.Some? <==> key in db && db[key].ZSet?
    ensures r.Ok? && r.value.Some? ==> r.value.value == db[key].entries
    ensures r.Err? ==> r.error == BusinessException(NOT_A_ZSET)
  {
    if key !in db then Ok(None)
    else if db[key].ZSet? then Ok(Some(db[key].entries))
    else Err(BusinessException(NOT_A_ZSET))
  }

  /** ZCARD: 0 for an absent key, the entry count of a zset, an error for any other object. */
  function ZCard(db: Db, key: string): (r: Result<int>)
    ensures key !in db ==> r == Ok(0)
    ensures key in db && !db[key].ZSet? ==> r == Err(BusinessException(NOT_A_ZSET))
    ensures r.Ok? ==> r.value >= 0
  {
    match GetZSet(db, key)
    case Err(e) => Err(e)
    case Ok(None) => Ok(0)
    case Ok(Some(z)) => Ok(|z|)
  }

  /** ZCARD of a stored zset is its number of distinct members. */
  lemma ZCardCountsMembers(db: Db, key: string)
    requires DbValid(db) && key in db && db[key].ZSet?
    ensures ZCard(db, key) == Ok(|Members(db[key].entries)|)
  {
    MemberCount(db[key].entries);
  }

  /**
   * ZRANK: `None` (null) for an absent key, -1 for a member the zset lacks,
   * otherwise the member's zero-based position in the zset's order.
   */
  function ZRank(db: Db, key: string, member: string): (r: Result<Option<int>>)
    ensures key !in db ==> r == Ok(None)
    ensures key in db && !db[key].ZSet? ==> r == Err(BusinessException(NOT_A_ZSET))
    ensures key in db && db[key].ZSet? ==>
              && r.Ok? && r.value.Some? && -1 <= r.value.value < |db[key].entries|
              && (r.value.value == -1 <==> member !in Members(db[key].entries))
              && (r.value.value >= 0 ==> db[key].entries[r.value.value].0 == member)
  {
    match GetZSet(db, key)
    case Err(e) => Err(e)
    case Ok(None) => Ok(None)
    case Ok(Some(z)) => Ok(Some(IndexOf(z, member)))
  }

  /** In a sorted zset the rank of a member is the number of entries ordered before its own. */
  lemma ZRankIsSortedPosition(db: Db, key: string, i: int)
    requires DbValid(db) && ZSetsSorted(db)
    requires key in db && db[key].ZSet? && 0 <= i < |db[key].entries|
    ensures ZRank(db, key, db[key].entries[i].0) == Ok(Some(i))
    ensures i == CountBefore(db[key].entries, db[key].entries[i])
  {
    var z := db[key].entries;
    RankFollowsOrder(z, i, i);
    RankCountsPredecessors(z, i);
  }

  /** ZRANGE: empty for an absent key, the zset's `RangeOf`, an error for any other object. */
  function ZRange(db: Db, key: string, start: Int32, stop: Int32): (r: Result<seq<Entry>>)
    ensures key !in db ==> r == Ok([])
    ensures key in db && !db[key].ZSet? ==> r == Err(BusinessException(NOT_A_ZSET))
    ensures key in db && db[key].ZSet? ==> r == RangeOf(db[key].entries, start, stop)
  {
    match GetZSet(db, key)
    case Err(e) => Err(e)
    case Ok(None) => Ok([])
    case Ok(Some(z)) => RangeOf(z, start, stop)
  }

  /** What DEL counts for a removed object: a zset's entries, 1 for anything else. */
  function Weight(o: Obj): nat {
    if o.ZSet? then |o.entries| else 1
  }

  /** DEL's count: the weights of the listed keys present in `db`, each key once. */
  function DelCount(db: Db, keys: seq<string>): nat {
    if keys == [] then 0
    else
      var init, k := keys[..|keys| - 1], keys[|keys| - 1];
      DelCount(db, init) + (if k in db && k !in init then Weight(db[k]) else 0)
  }

  /** Where no listed key holds a zset, DEL counts the keys it removes. */
  lemma {:induction false} DelCountCountsKeys(db: Db, keys: seq<string>)
    requires forall i :: 0 <= i < |keys| && keys[i] in db ==> !db[keys[i]].ZSet?
    ensures DelCount(db, keys) == |set k | k in keys && k in db|
  {
    if keys != [] {
      var init, k := keys[..|keys| - 1], keys[|keys| - 1];
      assert forall i :: 0 <= i < |init| ==> init[i] == keys[i];
      DelCountCountsKeys(db, init);
      var before := set x | x in init && x in db;
      var after := set x | x in keys && x in db;
      assert keys == init + [k];
      if k in db && k !in init {
        assert after == before + {k};
      } else {
        assert after == before;
      }
    }
  }

  /** The map ZADD leaves and the count it returns (or the error it throws before any change). */
  function ZAddSpec(db: Db, key: string, tokens: seq<string>, parse: string -> Option<Score>): (Result<int>, Db)
    requires DbValid(db)
  {
    if |tokens| < 2 then (Err(BusinessException(INVALID_NUMBER_OF_ARGUMENTS_FOR_METHOD_ZADD)), db)
    else if key in db && !db[key].ZSet? then (Err(BusinessException(ZADD_ON_NON_ZSET)), db)
    else
      var pairs := ValidPairs(tokens, parse);
      var existing := if key in db then db[key].entries else [];
      var z := SortEntries(PutAll(existing, pairs));
      (Ok(|pairs|), if key in db || |pairs| > 0 then db[key := ZSet(z)] else db)
  }

  /**
   * A successful ZADD returns the number of pairs whose score parsed and
   * leaves at `key` a zset sorted by (score, member), one entry per member,
   * each carrying the last valid score given for it (or its old score); the
   * key is created only when a pair was saved, and no other key changes.
   */
  lemma ZAddStoresSortedZSet(db: Db, key: string, tokens: seq<string>, parse: string -> Option<Score>)
    requires DbValid(db) && |tokens| >= 2 && (key in db ==> db[key].ZSet?)
    ensures var pairs := ValidPairs(tokens, parse);
      var existing := if key in db then db[key].entries else [];
      var (r, db') := ZAddSpec(db, key, tokens, parse);
      && r == Ok(|pairs|)
      && DbValid(db')
      && (forall k :: k != key ==> (k in db' <==> k in db) && (k in db ==> db'[k] == db[k]))
      && (key in db' <==> key in db || |pairs| > 0)
      && (key in db' ==>
            && db'[key].ZSet?
            && Sorted(db'[key].entries)
            && Members(db'[key].entries) == Members(existing) + Members(pairs)
            && forall m :: ScoreOf(db'[key].entries, m) ==
                 if LastScore(pairs, m).Some? then LastScore(pairs, m) else ScoreOf(existing, m))
  {
    var existing := if key in db then db[key].entries else [];
    var pairs := ValidPairs(tokens, parse);
    var z := SortEntries(PutAll(existing, pairs));
    assert ZAddSpec(db, key, tokens, parse) ==
      (Ok(|pairs|), if key in db || |pairs| > 0 then db[key := ZSet(z)] else db);
    PutAllMembers(existing, pairs);
    forall m
      ensures ScoreOf(z, m) ==
        if LastScore(pairs, m).Some? then LastScore(pairs, m) else ScoreOf(existing, m)
    {
      PutAllScores(existing, pairs, m);
    }
  }

  /**
   * ZADD then ZRANK: every member ZADD saved has, as its rank, the position
   * of its entry (carrying its last given score) in the sorted zset, which is
   * the number of entries ordered before it.
   */
  lemma ZAddThenZRank(db: Db, key: string, tokens: seq<string>, parse: string -> Option<Score>, m: string)
    requires DbValid(db) && |tokens| >= 2 && (key in db ==> db[key].ZSet?)
    requires m in Members(ValidPairs(tokens, parse))
    ensures var db' := ZAddSpec(db, key, tokens, parse).1;
      && key in db' && db'[key].ZSet?
      && var z := db'[key].entries;
         var r := ZRank(db', key, m);
         && r.Ok? && r.value.Some? && 0 <= r.value.value < |z|
         && z[r.value.value].0 == m && Some(z[r.value.value].1) == LastScore(ValidPairs(tokens, parse), m)
         && r.value.value == CountBefore(z, z[r.value.value])
  {
    var pairs := ValidPairs(tokens, parse);
    var existing := if key in db then db[key].entries else [];
    var z := SortEntries(PutAll(existing, pairs));
    assert |pairs| > 0;
    assert ZAddSpec(db, key, tokens, parse).1 == db[key := ZSet(z)];
    PutAllMembers(existing, pairs);
    PutAllScores(existing, pairs, m);
    LastScoreOfMember(pairs, m);
    var i := IndexOf(z, m);
    ScoreOfAt(z, i);
    RankCountsPredecessors(z, i);
    assert ZRank(db[key := ZSet(z)], key, m) == Ok(Some(i));
  }

  /** A ZADD that saves no pair leaves a store of sorted zsets exactly as it was. */
  lemma ZAddNothingSavedUnchanged(db: Db, key: string, tokens: seq<string>, parse: string -> Option<Score>)
    requires DbValid(db) && ZSetsSorted(db)
    requires ValidPairs(tokens, parse) == []
    ensures ZAddSpec(db, key, tokens, parse).1 == db
  {
    if |tokens| >= 2 && key in db && db[key].ZSet? {
      var z := db[key].entries;
      SortedDeterminedByScores(SortEntries(PutAll(z, [])), z);
      assert db[key := ZSet(z)] == db;
    }
  }

  /** ZADD keeps every stored zset sorted. */
  lemma ZAddKeepsZSetsSorted(db: Db, key: string, tokens: seq<string>, parse: string -> Option<Score>)
    requires DbValid(db) && ZSetsSorted(db)
    ensures ZSetsSorted(ZAddSpec(db, key, tokens, parse).1)
  {
  }

  /** The text INCR stores reads back as the incremented number, so INCR after INCR adds 2. */
  lemma IncrStoresParsableText(n: Int32)
    ensures ParseInt32(Text(Str(IntToString(Inc32(n))))) == Some(Inc32(n))
  {
    ParseIntToStringRoundTrip(Inc32(n));
  }

  /**
   * The pairing loop of ZADD: walks the tokens two by two, puts each member
   * whose score parses (a later score for the same member replaces the
   * earlier one in place), and counts the pairs put; an odd last token is
   * ignored.
   */
  method PutScoreMembers(zset: seq<Entry>, scoreMembers: seq<string>, parseScore: string -> Option<Score>)
    returns (result: seq<Entry>, valuesSaved: int)
    requires UniqueMembers(zset)
    ensures result == PutAll(zset, ValidPairs(scoreMembers, parseScore))
    ensures valuesSaved == |ValidPairs(scoreMembers, parseScore)|
  {
    result, valuesSaved := zset, 0;
    var score: Option<Score> := None;
    ghost var pairs: seq<Entry> := [];
    ghost var paired := 0;  // the tokens already grouped into pairs
    for i := 0 to |scoreMembers|
      invariant paired % 2 == 0 && paired <= i <= paired + 1
      invariant pairs == ValidPairs(scoreMembers[..paired], parseScore)
      invariant score == if i == paired then None else parseScore(scoreMembers[paired])
      invariant result == PutAll(zset, pairs)
      invariant valuesSaved == |pairs|
    {
      if (i + 1) % 2 != 0 {
        score := parseScore(scoreMembers[i]);
      } else {
        ValidPairsNextPair(scoreMembers, parseScore, paired);
        if score.Some? {
          PutAllSnoc(zset, pairs, (scoreMembers[i], score.value));
          result := PutEntry(result, scoreMembers[i], score.value);
          valuesSaved := valuesSaved + 1;
          pairs := pairs + [(scoreMembers[i], score.value)];
          score := None;
        }
        paired := i + 1;
      }
    }
    assert scoreMembers[..|scoreMembers|] == scoreMembers;
    if paired < |scoreMembers| {
      ValidPairsOddStep(scoreMembers, parseScore);
    }
  }

  /**
   * `zset.clear()` followed by a `put` of every entry of the sorted list:
   * since no member repeats, each `put` appends, and the map's iteration
   * order becomes the list's order.
   */
  method Refill(list: seq<Entry>) returns (zset: seq<Entry>)
    requires UniqueMembers(list)
    ensures zset == list
  {
    zset := [];
    for j := 0 to |list|
      invariant zset == list[..j]
    {
      assert forall k :: 0 <= k < j ==> list[..j][k].0 != list[j].0;
      PutEntryAppends(zset, list[j].0, list[j].1);
      zset := PutEntry(zset, list[j].0, list[j].1);
      assert list[..j + 1] == list[..j] + [list[j]];
    }
    assert list[..|list|] == list;
  }

  /** A stored 1 increments to "2", and GET afterwards reads "2". */
  lemma IncrFromOneGivesTwo(db: Db, key: string)
    ensures ParseInt32(Text(Num(1))) == Some(1)
    ensures IntToString(Inc32(1)) == "2"
    ensures GetStringValue(db[key := Str(IntToString(Inc32(1)))], key) == Ok(Some("2"))
  {
    ParseTextOfNum(1);
  }

  /** The store of the engine: the one shared map from key to stored object. */
  class DatabaseRepository {
    var values: Db

    ghost predicate Valid()
      reads this
    {
      DbValid(values)
    }

    constructor ()
      ensures Valid() && values == map[]
    {
      values := map[];
    }

    /** SET (`setStringValue`): `key` holds `value`, whatever it held before. */
    method SetStringValue(key: string, value: Obj)
      requires Valid() && WellFormed(value)
      modifies this
      ensures Valid()
      ensures values == old(values)[key := value]
    {
      values := values[key := value];
    }

    /**
     * DEL: removes the listed keys that are present, ignores the others, and
     * returns the sum of their weights.
     */
    method Del(keys: seq<string>) returns (deletions: int)
      requires Valid()
      modifies this
      ensures Valid()
      ensures values == old(values) - (set k | k in keys)
      ensures deletions == DelCount(old(values), keys)
    {
      deletions := 0;
      for i := 0 to |keys|
        invariant Valid()
        invariant values == old(values) - (set k | k in keys[..i])
        invariant deletions == DelCount(old(values), keys[..i])
      {
        var key := keys[i];
        assert keys[..i + 1] == keys[..i] + [key];
        var value := GetObject(values, key);
        assert value.Some? <==> key in old(values) && key !in keys[..i];
        if value.Some? {
          if value.value.ZSet? {
            deletions := deletions + |value.value.entries|;
          } else {
            deletions := deletions + 1;
          }
          values := values - {key};
        }
      }
      assert keys[..|keys|] == keys;
    }

    /**
     * INCR: parses the text of the stored object as a 32-bit int, stores the
     * text of its increment (wrapping at 2^31) and returns it. The map is
     * unchanged when the key is absent (the source dereferences null) or the
     * text is not a number.
     */
    method Incr(key: string) returns (r: Result<string>)
      requires Valid()
      modifies this
      ensures Valid()
      ensures old(ZSetsSorted(values)) ==> ZSetsSorted(values)
      ensures key !in old(values) ==> r == Err(NullPointerException) && values == old(values)
      ensures key in old(values) && ParseInt32(Text(old(values)[key])).None? ==>
        r == Err(NonNumericValueException(Text(old(values)[key]))) && values == old(values)
      ensures key in old(values) && ParseInt32(Text(old(values)[key])).Some? ==>
        var next := IntToString(Inc32(ParseInt32(Text(old(values)[key])).value));
        r == Ok(next) && values == old(values)[key := Str(next)]
    {
      var value := GetObject(values, key);
      if value.None? {
        return Err(NullPointerException);
      }
      var text := Text(value.value);
      var numericValue := ParseInt32(text);
      if numericValue.None? {
        return Err(NonNumericValueException(text));
      }
      var next := Inc32(numericValue.value);
      SetStringValue(key, Str(IntToString(next)));
      var read := GetStringValue(values, key);
      assert read == Ok(Some(IntToString(next)));
      r := Ok(read.value.value);
    }

    /**
     * ZADD: rejects fewer than two tokens and a key holding a non-zset; else
     * puts every pair with a parsable score into the zset, sorts it by
     * (score, member) and stores it, returning the number of pairs saved.
     */
    method ZAdd(key: string, scoreMembers: seq<string>, parseScore: string -> Option<Score>)
      returns (r: Result<int>)
      requires Valid()
      modifies this
      ensures Valid()
      ensures r == ZAddSpec(old(values), key, scoreMembers, parseScore).0
      ensures values == ZAddSpec(old(values), key, scoreMembers, parseScore).1
    {
      if |scoreMembers| < 2 {
        return Err(BusinessException(INVALID_NUMBER_OF_ARGUMENTS_FOR_METHOD_ZADD));
      }
      var existingKeyValue := GetObject(values, key);
      var zset: seq<Entry> := [];
      if existingKeyValue.Some? {
        if existingKeyValue.value.ZSet? {
          zset := existingKeyValue.value.entries;
        } else {
          return Err(BusinessException(ZADD_ON_NON_ZSET));
        }
      }
      ghost var pairs := ValidPairs(scoreMembers, parseScore);
      ghost var sorted := SortEntries(PutAll(zset, pairs));
      var valuesSaved;
      zset, valuesSaved := PutScoreMembers(zset, scoreMembers, parseScore);
      var list := SortEntries(zset);
      zset := Refill(list);
      assert zset == sorted && valuesSaved == |pairs|;
      if key in values {
        // the stored LinkedHashMap is the one just refilled in place
        values := values[key := ZSet(zset)];
      }
      if valuesSaved > 0 {
        SetStringValue(key, ZSet(zset));
      }
      assert values == if key in old(values) || |pairs| > 0 then old(values)[key := ZSet(sorted)] else old(values);
      r := Ok(valuesSaved);
    }
  }
}
