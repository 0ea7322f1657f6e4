/**
 * `DatabaseCleanupJob`: the expiry sweep. Once a second it walks the shared
 * map and deletes, through the service's DEL, every key holding an
 * ExpirableValue whose expiry instant is set and not after the current
 * instant. The current instant is a parameter here.
 */
module CleanupJob {
  import opened Values
  import Repository
  import Service

  /** An ExpirableValue whose expiry instant is set and at or before `now`. */
  predicate Expired(o: Obj, now: Time) {
    o.Expirable? && o.ev.expireTime.Some? && o.ev.expireTime.value <= now
  }

  /** The map a sweep at `now` leaves: every entry that is not expired. */
  function Survivors(db: Repository.Db, now: Time): (r: Repository.Db)
    ensures forall k :: k in r <==> k in db && !Expired(db[k], now)
    ensures forall k | k in r :: r[k] == db[k]
  {
    map k | k in db && !Expired(db[k], now) :: db[k]
  }

  /** After a sweep no stored value is expired. */
  lemma SweepLeavesNothingExpired(db: Repository.Db, now: Time)
    ensures forall k | k in Survivors(db, now) :: !Expired(Survivors(db, now)[k], now)
  {
  }

  /**
   * A sweep keeps exactly the entries that are not ExpirableValues, have no
   * expiry instant, or expire after `now`, each unchanged.
   */
  lemma SweepKeeps(db: Repository.Db, now: Time, k: string)
    requires k in db
    ensures k in Survivors(db, now) <==>
      !db[k].Expirable? || db[k].ev.expireTime.None? || db[k].ev.expireTime.value > now
    ensures k in Survivors(db, now) ==> Survivors(db, now)[k] == db[k]
  {
  }

  /** For a fixed instant, a second sweep removes nothing. */
  lemma SweepIdempotent(db: Repository.Db, now: Time)
    ensures Survivors(Survivors(db, now), now) == Survivors(db, now)
  {
  }

  /** A later sweep removes at least what an earlier one did. */
  lemma SweepMonotone(db: Repository.Db, earlier: Time, later: Time)
    requires earlier <= later
    ensures Survivors(db, later).Keys <= Survivors(db, earlier).Keys
  {
  }

  /** A sweep keeps every valid zset map valid and every sorted zset sorted. */
  lemma SweepKeepsStoreValid(db: Repository.Db, now: Time)
    requires Repository.DbValid(db) && Repository.ZSetsSorted(db)
    ensures Repository.DbValid(Survivors(db, now)) && Repository.ZSetsSorted(Survivors(db, now))
  {
  }

  class DatabaseCleanupJob {
    const service: Service.DatabaseService

    constructor (service: Service.DatabaseService)
      ensures this.service == service
    {
      this.service := service;
    }

    /**
     * `reportCurrentTime`: visits every key of a snapshot of the map and
     * deletes the expired ones one DEL at a time; the map ends as
     * `Survivors` of the map it started from.
     */
    method ReportCurrentTime(now: Time)
      requires service.repository.Valid()
      modifies service.repository
      ensures service.repository.Valid()
      ensures service.repository.values == Survivors(old(service.repository.values), now)
    {
      var pending := service.repository.values.Keys;
      while pending != {}
        invariant service.repository.Valid()
        invariant pending <= old(service.repository.values).Keys
        invariant service.repository.values ==
          map k | k in old(service.repository.values) &&
                  (k in pending || !Expired(old(service.repository.values)[k], now)) ::
            old(service.repository.values)[k]
        decreases pending
      {
        var key :| key in pending;
        pending := pending - {key};
        var value := service.repository.values[key];
        if value.Expirable? {
          var expireTime := value.ev.expireTime;
          if expireTime.Some? && expireTime.value <= now {
            var _ := service.Del([key]);
            assert (set k | k in [key]) == {key};
          }
        }
      }
    }
  }
}
