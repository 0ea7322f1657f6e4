/**
 * `DatabaseService`: the layer the controller calls. It passes DEL, DBSIZE,
 * ZADD and ZCARD through to the repository and turns the repository's
 * sentinels (null, -1, an empty range) into `NotFoundException`s.
 *
 * The repository methods the service calls for SET, GET and INCR (`setKeyValue`,
 * `getKey` and an `incr` returning an `ExpirableValue`) have no definition in
 * the repository, so GET and INCR are modelled as functions of the result such
 * a call delivers, and `GetKey` states what SET is taken to store.
 */
module Service {
  import opened Values
  import opened Rendering
  import opened ZSets
  import Repository

  const KEY_DOES_NOT_EXIST: string := "(nil) Key does not exist in database."
  const MEMBER_NOT_FOUND: string := "(nil) Member not found in zset."
  const COULD_NOT_FIND_RESULTS: string := "Could not find any results."

  /**
   * `getStringValue` on what the repository's `getKey` delivered: the text of
   * the held value, NotFound when there is no ExpirableValue or it holds null;
   * an exception of the repository passes through.
   */
  function GetStringValue(found: Result<Option<ExpirableValue>>): (r: Result<string>)
    ensures found.Err? ==> r == Err(found.error)
    ensures found.Ok? ==>
      (r == Err(NotFoundException(KEY_DOES_NOT_EXIST)) <==> found.value.None? || found.value.value.value.None?)
    ensures r.Ok? ==>
              && found.Ok? && found.value.Some? && found.value.value.value.Some?
              && r.value == Text(found.value.value.value.value)
    ensures found.Ok? && found.value.Some? && found.value.value.value.Some? ==>
      r == Ok(Text(found.value.value.value.value))
  {
    match found
    case Err(e) => Err(e)
    case Ok(expirableValue) =>
      if expirableValue.Some? && expirableValue.value.value.Some? then Ok(Text(expirableValue.value.value.value))
      else Err(NotFoundException(KEY_DOES_NOT_EXIST))
  }

  /**
   * `incr` on what the repository's `incr` delivered: "0" when there is no
   * ExpirableValue or it holds null, else the text of the held value.
   */
  function Incr(found: Result<Option<ExpirableValue>>): (r: Result<string>)
    ensures found.Err? ==> r == Err(found.error)
    ensures found.Ok? ==> r.Ok?
  {
    match found
    case Err(e) => Err(e)
    case Ok(expirableValue) =>
      if expirableValue.None? || expirableValue.value.value.None? then Ok("0")
      else Ok(Text(expirableValue.value.value.value))
  }

  /**
   * INCR and GET read the same repository result alike, except that INCR
   * answers "0" where GET answers NotFound.
   */
  lemma IncrAgreesWithGet(found: Result<Option<ExpirableValue>>)
    ensures GetStringValue(found).Ok? ==> Incr(found) == GetStringValue(found)
    ensures found.Ok? && GetStringValue(found).Err? ==> Incr(found) == Ok("0")
  {
  }

  /** `zrank`: null is NotFound(key), -1 is NotFound(member), any other rank is returned as is. */
  function ZRank(found: Result<Option<int>>): (r: Result<int>)
    ensures found.Err? ==> r == Err(found.error)
    ensures found == Ok(None) ==> r == Err(NotFoundException(KEY_DOES_NOT_EXIST))
    ensures found == Ok(Some(-1)) ==> r == Err(NotFoundException(MEMBER_NOT_FOUND))
    ensures r.Ok? <==> found.Ok? && found.value.Some? && found.value.value != -1
    ensures r.Ok? ==> r.value == found.value.value
  {
    match found
    case Err(e) => Err(e)
    case Ok(None) => Err(NotFoundException(KEY_DOES_NOT_EXIST))
    case Ok(Some(zrank)) =>
      if zrank == -1 then Err(NotFoundException(MEMBER_NOT_FOUND)) else Ok(zrank)
  }

  /**
   * ZRANK through the service: NotFound for an absent key or an absent
   * member, otherwise the member's position in the zset.
   */
  lemma ZRankThroughRepository(db: Repository.Db, key: string, member: string)
    ensures key !in db ==> ZRank(Repository.ZRank(db, key, member)) == Err(NotFoundException(KEY_DOES_NOT_EXIST))
    ensures key in db && db[key].ZSet? && member !in Members(db[key].entries) ==>
      ZRank(Repository.ZRank(db, key, member)) == Err(NotFoundException(MEMBER_NOT_FOUND))
    ensures key in db && db[key].ZSet? && member in Members(db[key].entries) ==>
      var r := ZRank(Repository.ZRank(db, key, member));
      r.Ok? && 0 <= r.value < |db[key].entries| && db[key].entries[r.value].0 == member
  {
    var _ := Repository.ZRank(db, key, member);
  }

  /** `zrange`: an empty range is NotFound, any other range is returned as is. */
  function ZRange(found: Result<seq<Entry>>): (r: Result<seq<Entry>>)
    ensures found.Err? ==> r == Err(found.error)
    ensures found.Ok? ==> (r == Err(NotFoundException(COULD_NOT_FIND_RESULTS)) <==> found.value == [])
    ensures r.Ok? ==> found == r && r.value != []
    ensures found.Ok? && found.value != [] ==> r == found
  {
    match found
    case Err(e) => Err(e)
    case Ok(zrange) =>
      if zrange == [] then Err(NotFoundException(COULD_NOT_FIND_RESULTS)) else Ok(zrange)
  }

  /** ZRANGE of an absent key is NotFound, whatever the bounds. */
  lemma ZRangeOfAbsentKey(db: Repository.Db, key: string, start: Int32, stop: Int32)
    requires key !in db
    ensures ZRange(Repository.ZRange(db, key, start, stop)) == Err(NotFoundException(COULD_NOT_FIND_RESULTS))
  {
  }

  /**
   * ZRANGE 0 -1 of a zset of two members answers only the first member: the
   * stop index -1 resolves to the second-to-last position.
   */
  lemma ZRangeZeroMinusOneOfTwo(db: Repository.Db, key: string)
    requires key in db && db[key].ZSet? && |db[key].entries| == 2
    ensures ZRange(Repository.ZRange(db, key, 0, -1)) == Ok([db[key].entries[0]])
  {
    var z := db[key].entries;
    RangeOfMinusOneDropsLast(z);
    assert z[..|z| - 1] == [z[0]];
  }

  /**
   * What the repository's `getKey` is taken to deliver: the ExpirableValue a
   * SET stored, a non-expiring wrapper around any other object, null for an
   * absent key.
   */
  function GetKey(db: Repository.Db, key: string): (r: Result<Option<ExpirableValue>>)
    ensures r.Ok?
    ensures r.value.None? <==> key !in db
    ensures key in db && db[key].Expirable? ==> r.value == Some(db[key].ev)
    ensures key in db && !db[key].Expirable? ==> r.value == Some(ExpirableValue(Some(db[key]), None))
  {
    if key !in db then Ok(None)
    else if db[key].Expirable? then Ok(Some(db[key].ev))
    else Ok(Some(ExpirableValue(Some(db[key]), None)))
  }

  class DatabaseService {
    const repository: Repository.DatabaseRepository

    constructor (repository: Repository.DatabaseRepository)
      ensures this.repository == repository
    {
      this.repository := repository;
    }

    /**
     * SET: stores `value` with its expiry instant (none for a key without
     * time-to-live) and answers what GET then reads back, the value's text.
     */
    method SetKeyValue(key: string, value: Obj, expireTime: Option<Time>) returns (r: Result<string>)
      requires repository.Valid()
      modifies repository
      ensures repository.Valid()
      ensures repository.values == old(repository.values)[key := Expirable(ExpirableValue(Some(value), expireTime))]
      ensures r == Ok(Text(value))
    {
      repository.SetStringValue(key, Expirable(ExpirableValue(Some(value), expireTime)));
      r := GetStringValue(GetKey(repository.values, key));
    }

    /** DEL, passed through. */
    method Del(keys: seq<string>) returns (deletions: int)
      requires repository.Valid()
      modifies repository
      ensures repository.Valid()
      ensures repository.values == old(repository.values) - (set k | k in keys)
      ensures deletions == Repository.DelCount(old(repository.values), keys)
    {
      deletions := repository.Del(keys);
    }

    /** DBSIZE, passed through: the number of stored keys. */
    function Dbsize(): (r: nat)
      reads repository
      ensures r == |repository.values.Keys|
    {
      Repository.Dbsize(repository.values)
    }

    /** ZADD, passed through. */
    method ZAdd(key: string, scoreMembers: seq<string>, parseScore: string -> Option<Score>)
      returns (r: Result<int>)
      requires repository.Valid()
      modifies repository
      ensures repository.Valid()
      ensures r == Repository.ZAddSpec(old(repository.values), key, scoreMembers, parseScore).0
      ensures repository.values == Repository.ZAddSpec(old(repository.values), key, scoreMembers, parseScore).1
    {
      r := repository.ZAdd(key, scoreMembers, parseScore);
    }

    /** ZCARD, passed through: 0 for an absent key, an error for a non-zset. */
    function ZCard(key: string): (r: Result<int>)
      reads repository
      ensures key !in repository.values ==> r == Ok(0)
      ensures key in repository.values && !repository.values[key].ZSet? ==>
        r == Err(BusinessException(Repository.NOT_A_ZSET))
      ensures key in repository.values && repository.values[key].ZSet? ==>
        r == Ok(|repository.values[key].entries|)
    {
      Repository.ZCard(repository.values, key)
    }
  }
}
