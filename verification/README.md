# mini-redis data engine in Dafny

This project models the data engine of mini-redis, a single-node in-memory
key-value store that implements a subset of the Redis commands. The engine
supports SET, GET, DEL, DBSIZE, INCR, ZADD, ZCARD, ZRANK and ZRANGE, and runs
an expiry sweep once a second.

Modules, one per file:

- `Values` (`values.dfy`) defines what the shared map holds. `Obj` has four kinds:
  - a String;
  - an Integer (`Int32`);
  - a zset: a `LinkedHashMap<String, Double>`, seen as its entries in iteration order;
  - an `ExpirableValue`: a value plus an optional expiry instant.

  The kinds match the runtime class checks the engine performs. `Result` carries the engine's exceptions.
- `Numerals` (`numerals.dfy`) holds Java's `Integer.parseInt`, `String.valueOf(int)` and the wrapping `int` increment that INCR uses.
- `Rendering` (`rendering.dfy`) gives the `toString` text of each stored kind. GET and INCR parse that text. `Double.toString` is included for integer-valued doubles.
- `Comparator` (`comparator.dfy`) is `MapValueKeyComparator`: score first, then the member name. It is proved to be a strict total order.
- `ZSets` (`zsets.dfy`) holds the operations on one zset:
  - `put`, with a later score replacing an earlier one in place;
  - the pairing of ZADD's `score member` tokens;
  - the sort by the comparator;
  - the rank search;
  - the ZRANGE slice as written, and the range Redis documents beside it.
- `Repository` (`repository.dfy`) is `DatabaseRepository`. It is a class whose `values` field is the shared map:
  - SET, DEL, INCR and ZADD are methods proved against specification functions;
  - GET, DBSIZE, ZCARD, ZRANK and ZRANGE are functions of the map.
- `Service` (`service.dfy`) is `DatabaseService`. It maps the repository's sentinels to `NotFoundException`s: null, -1, or an empty range.
- `CleanupJob` (`cleanup.dfy`) is the sweep of `DatabaseCleanupJob`. It takes the current instant as a parameter and deletes every expired key through the service's DEL.

Where the documentation comments and the code disagree, the model follows the code:

- ZRANGE uses the index arithmetic as written (see "## Findings").
- INCR on an absent key fails with a NullPointerException. It does not start from 0.
- DEL counts a zset as its number of entries.
- ZADD re-sorts and stores an existing zset even when it saves no pair.

## Model

| member | source | states |
|---|---|---|
| Numerals.NatToString | src/main/java/com/twl/miniredis/repository/DatabaseRepository.java:108 | the decimal text of a natural number is non-empty, all digits, and has no leading zero |
| Numerals.NatToStringRoundTrip | src/main/java/com/twl/miniredis/repository/DatabaseRepository.java:108 | the digits `String.valueOf` writes denote the number written |
| Numerals.IntToString | src/main/java/com/twl/miniredis/repository/DatabaseRepository.java:108 | `String.valueOf(int)` writes a '-' exactly for a negative number, followed by decimal digits only |
| Numerals.IntToStringDenotes | src/main/java/com/twl/miniredis/repository/DatabaseRepository.java:108 | the digits `String.valueOf(int)` writes after the sign denote the number's magnitude |
| Numerals.ParseInt32 | src/main/java/com/twl/miniredis/repository/DatabaseRepository.java:106 | `Integer.parseInt` accepts only a text that starts with a sign or a digit; a negative result needs a leading '-'; out-of-range values are rejected |
| Numerals.ParseIntToStringRoundTrip | src/main/java/com/twl/miniredis/repository/DatabaseRepository.java:106-108 | every 32-bit int parses back from its `String.valueOf` text |
| Numerals.ParseRejectsForeignStart | src/main/java/com/twl/miniredis/repository/DatabaseRepository.java:106-113 | a text whose first character is neither a sign nor a digit raises NumberFormatException |
| Numerals.Inc32 | src/main/java/com/twl/miniredis/repository/DatabaseRepository.java:107 | `numericValue++` is the successor modulo 2^32 in the 32-bit range |
| Rendering.Text | src/main/java/com/twl/miniredis/repository/DatabaseRepository.java:47 | `String.valueOf` of a String is the String itself; the text of a zset is braced (`{...}`) and that of an ExpirableValue starts with 'E', the Lombok record form |
| Rendering.DoubleText | src/main/java/com/twl/miniredis/repository/DatabaseRepository.java:50-51 | `Double.toString` of an integer-valued double starts with '-' exactly for a negative value, and uses the 'E' notation exactly from 10^7 in magnitude on |
| Rendering.DoubleTextOfSmall | src/main/java/com/twl/miniredis/repository/DatabaseRepository.java:50-51 | below 10^7 in magnitude, `Double.toString` of an integer is its `Integer.toString` text followed by ".0" |
| Rendering.ParseTextOfNum | src/main/java/com/twl/miniredis/repository/DatabaseRepository.java:104-106 | INCR reads a stored Integer back as that Integer |
| Rendering.ParseTextOfCompound | src/main/java/com/twl/miniredis/repository/DatabaseRepository.java:104-113 | INCR on a zset or an ExpirableValue always meets a NumberFormatException |
| Comparator.ScoreCompareTo | src/main/java/com/twl/miniredis/service/comparator/MapValueKeyComparator.java:11 | the score comparison is negative, zero or positive exactly when the first score is lower, equal or higher |
| Comparator.StringCompareTo | src/main/java/com/twl/miniredis/service/comparator/MapValueKeyComparator.java:15 | `String.compareTo` is negative, zero or positive exactly when the first name is lexicographically before, equal to or after the second |
| Comparator.StrLessTransitive | src/main/java/com/twl/miniredis/service/comparator/MapValueKeyComparator.java:15 | the lexicographic order on member names is transitive |
| Comparator.Compare | src/main/java/com/twl/miniredis/service/comparator/MapValueKeyComparator.java:10-17 | compare is negative exactly when the first entry precedes in (score, member) order, zero exactly for equal entries, positive exactly when the second precedes |
| Comparator.CompareScoreFirst | src/main/java/com/twl/miniredis/service/comparator/MapValueKeyComparator.java:11-13 | with different scores the result is the score comparison alone |
| Comparator.CompareTieBreak | src/main/java/com/twl/miniredis/service/comparator/MapValueKeyComparator.java:14-15 | with equal scores the member comparison decides |
| Comparator.CompareDistinctMembers | src/main/java/com/twl/miniredis/service/comparator/MapValueKeyComparator.java:11-16 | entries of distinct members never compare equal |
| Comparator.CompareAntisymmetric | src/main/java/com/twl/miniredis/service/comparator/MapValueKeyComparator.java:10-17 | sgn(compare(a, b)) == -sgn(compare(b, a)) |
| Comparator.CompareTransitive | src/main/java/com/twl/miniredis/service/comparator/MapValueKeyComparator.java:10-17 | compare(a, b) < 0 and compare(b, c) < 0 give compare(a, c) < 0 |
| Comparator.EntryLessIrreflexive | src/main/java/com/twl/miniredis/service/comparator/MapValueKeyComparator.java:10-17 | no entry precedes itself |
| Comparator.EntryLessAsymmetric | src/main/java/com/twl/miniredis/service/comparator/MapValueKeyComparator.java:10-17 | two entries never precede each other |
| Comparator.EntryLessTotal | src/main/java/com/twl/miniredis/service/comparator/MapValueKeyComparator.java:10-17 | of two different entries one precedes the other |
| Comparator.EntryLessTransitive | src/main/java/com/twl/miniredis/service/comparator/MapValueKeyComparator.java:10-17 | the (score, member) order is transitive |
| ZSets.PutEntry | src/main/java/com/twl/miniredis/repository/DatabaseRepository.java:156 | `LinkedHashMap.put` keeps one entry per member and adds the put member to the members |
| ZSets.PutEntryAppends | src/main/java/com/twl/miniredis/repository/DatabaseRepository.java:170 | `put` of a new member appends its entry at the end of the iteration order |
| ZSets.PutEntryInPlace | src/main/java/com/twl/miniredis/repository/DatabaseRepository.java:156 | `put` of a present member keeps its position, takes the new score there and leaves every other entry as it was |
| ZSets.PutEntryScores | src/main/java/com/twl/miniredis/repository/DatabaseRepository.java:156 | after `put(m, sc)`, `get(m)` is `sc` and every other member's score is unchanged |
| ZSets.ValidPairsOddStep | src/main/java/com/twl/miniredis/repository/DatabaseRepository.java:146-163 | an odd last token never forms a pair |
| ZSets.ValidPairsEvenStep | src/main/java/com/twl/miniredis/repository/DatabaseRepository.java:146-163 | a closing (score, member) pair is saved exactly when its score parses, after the pairs of the earlier tokens |
| ZSets.ValidPairsFromTokens | src/main/java/com/twl/miniredis/repository/DatabaseRepository.java:146-163 | the pairs ZADD saves are exactly the (member token, parsed score) pairs of the odd-position member tokens whose preceding score token parses |
| ZSets.ValidPairsCount | src/main/java/com/twl/miniredis/repository/DatabaseRepository.java:146-163 | ZADD saves at most one pair per two tokens, and exactly one per two tokens when every score parses |
| ZSets.LastScoreOfMember | src/main/java/com/twl/miniredis/repository/DatabaseRepository.java:154-156 | every member given in the pairs has a last given score |
| ZSets.PutAll | src/main/java/com/twl/miniredis/repository/DatabaseRepository.java:146-163 | putting the saved pairs keeps one entry per member |
| ZSets.PutAllMembers | src/main/java/com/twl/miniredis/repository/DatabaseRepository.java:146-163 | after the puts the zset holds its old members and every member given |
| ZSets.PutAllScores | src/main/java/com/twl/miniredis/repository/DatabaseRepository.java:146-163 | after the puts a given member has the last score it was given and any other member its old score |
| ZSets.Insert | src/main/java/com/twl/miniredis/repository/DatabaseRepository.java:165-166 | inserting a new member into a sorted zset keeps it sorted with one entry per member, adds exactly that entry, and leaves the other scores unchanged |
| ZSets.SortEntries | src/main/java/com/twl/miniredis/repository/DatabaseRepository.java:165-166 | sorting with the comparator yields a strictly ascending permutation of the entries with the same members and scores |
| ZSets.SortedDeterminedByScores | src/main/java/com/twl/miniredis/repository/DatabaseRepository.java:165-166 | two sorted zsets with the same member-to-score mapping are the same sequence, so the sort result is unique |
| ZSets.IndexOf | src/main/java/com/twl/miniredis/repository/DatabaseRepository.java:207-211 | the rank search returns -1 exactly for a non-member, otherwise the first position holding the member |
| ZSets.RankFollowsOrder | src/main/java/com/twl/miniredis/repository/DatabaseRepository.java:198-211 | in a sorted zset each member's rank is its position, and rank i < rank j exactly when entry i precedes entry j |
| ZSets.RankCountsPredecessors | src/main/java/com/twl/miniredis/repository/DatabaseRepository.java:198-211 | in a sorted zset a member's rank is the number of entries ordered before it |
| ZSets.MemberCount | src/main/java/com/twl/miniredis/repository/DatabaseRepository.java:189-196 | a map's size is its number of distinct members |
| ZSets.RedisRange | src/main/java/com/twl/miniredis/repository/DatabaseRepository.java:216-229 | the documented range never has more entries than the zset |
| ZSets.RedisRangeIndexRules | src/main/java/com/twl/miniredis/repository/DatabaseRepository.java:216-229 | for every input, the documented range clamps a stop past the end to the last entry, reads a negative index i as size + i (a start before the beginning as 0), and returns exactly the entries start..stop of a normalised range, empty when start lies past stop |
| ZSets.RedisRangeExamples | src/main/java/com/twl/miniredis/repository/DatabaseRepository.java:216-229 | in the documented range, 0..-1 is the whole zset, a stop past the end is clamped, and -1..-1 is the last entry |
| ZSets.RangeOf | src/main/java/com/twl/miniredis/repository/DatabaseRepository.java:241-263 | on a non-empty zset the range as written fails exactly for a negative start with stop ≥ 1 - size, or for stop == size with start ≤ stop; otherwise it equals the documented range for non-negative indexes, equals it with stop - 1 for a negative stop, and is empty for a negative start; an empty zset always answers the empty range |
| ZSets.RangeOfMinusOneDropsLast | src/main/java/com/twl/miniredis/repository/DatabaseRepository.java:248-256 | as written, 0..-1 returns every entry but the last, where the documented range returns the whole zset |
| ZSets.RangeOfStopAtSizeFails | src/main/java/com/twl/miniredis/repository/DatabaseRepository.java:248-262 | as written, stop == size raises IndexOutOfBoundsException, where the documented range returns the whole zset |
| ZSets.RangeOfNegativeStartFails | src/main/java/com/twl/miniredis/repository/DatabaseRepository.java:259-262 | as written, -1..-1 on two or more entries raises IndexOutOfBoundsException, where the documented range returns the last entry |
| Repository.GetObject | src/main/java/com/twl/miniredis/repository/DatabaseRepository.java:179-181 | the stored object is returned exactly when the key is present |
| Repository.GetStringValue | src/main/java/com/twl/miniredis/repository/DatabaseRepository.java:43-60 | GET returns null exactly for an absent key; a stored String as it is; a stored Integer as the `Double.toString` text of its value; and fails with the "can`t be resolved as a string" message exactly for a zset or an ExpirableValue |
| Repository.GetIntegerReadsAsDouble | src/main/java/com/twl/miniredis/repository/DatabaseRepository.java:49-51 | GET of a stored Integer below 10^7 in magnitude answers its text plus ".0", so a stored 1 reads as "1.0" |
| Repository.SetThenGet | src/main/java/com/twl/miniredis/repository/DatabaseRepository.java:33-47 | a string just SET reads back as itself, and no other key's GET changes |
| Repository.Dbsize | src/main/java/com/twl/miniredis/repository/DatabaseRepository.java:87-89 | DBSIZE is the number of keys |
| Repository.GetZSet | src/main/java/com/twl/miniredis/repository/DatabaseRepository.java:268-281 | null exactly for an absent key; the zset exactly when the key holds one; otherwise the "does not represent a zset" error |
| Repository.ZCard | src/main/java/com/twl/miniredis/repository/DatabaseRepository.java:189-196 | ZCARD is 0 for an absent key and an error for a non-zset |
| Repository.ZCardCountsMembers | src/main/java/com/twl/miniredis/repository/DatabaseRepository.java:189-196 | ZCARD of a stored zset is its number of distinct members |
| Repository.ZRank | src/main/java/com/twl/miniredis/repository/DatabaseRepository.java:204-214 | ZRANK is null for an absent key and an error for a non-zset; on a zset it is -1 exactly for a non-member, otherwise a position that holds the member |
| Repository.ZRankIsSortedPosition | src/main/java/com/twl/miniredis/repository/DatabaseRepository.java:198-214 | in a sorted stored zset, the member at position i has rank i, which is the number of entries ordered before it |
| Repository.ZRange | src/main/java/com/twl/miniredis/repository/DatabaseRepository.java:235-266 | ZRANGE is empty for an absent key, an error for a non-zset, and the as-written range of the zset otherwise |
| Repository.DelCountCountsKeys | src/main/java/com/twl/miniredis/repository/DatabaseRepository.java:68-82 | when no listed key holds a zset, DEL counts each removed key once |
| Repository.ZAddStoresSortedZSet | src/main/java/com/twl/miniredis/repository/DatabaseRepository.java:130-177 | a successful ZADD returns the number of saved pairs. At the key it leaves a sorted zset of the old members plus the given ones, each with its last given score or its old score. The key is created only when a pair was saved, and no other key changes |
| Repository.ZAddThenZRank | src/main/java/com/twl/miniredis/repository/DatabaseRepository.java:130-177 | after ZADD, every saved member's rank is the position of its entry, which carries its last given score, and equals the number of entries ordered before it |
| Repository.ZAddNothingSavedUnchanged | src/main/java/com/twl/miniredis/repository/DatabaseRepository.java:165-174 | a ZADD that saves no pair leaves a store of sorted zsets exactly as it was |
| Repository.ZAddKeepsZSetsSorted | src/main/java/com/twl/miniredis/repository/DatabaseRepository.java:130-177 | ZADD keeps every stored zset sorted |
| Repository.IncrStoresParsableText | src/main/java/com/twl/miniredis/repository/DatabaseRepository.java:106-109 | the text INCR stores parses back as the incremented value, so a second INCR continues from it |
| Repository.IncrFromOneGivesTwo | src/main/java/com/twl/miniredis/repository/DatabaseRepository.java:103-114 | a stored Integer 1 increments to "2", and GET then reads "2" |
| Repository.PutScoreMembers | src/main/java/com/twl/miniredis/repository/DatabaseRepository.java:144-163 | the pairing loop leaves the zset as the puts of exactly the pairs whose score parses, and counts them |
| Repository.Refill | src/main/java/com/twl/miniredis/repository/DatabaseRepository.java:168-171 | clearing the map and putting the sorted entries back gives the map the sorted order |
| Repository.DatabaseRepository.SetStringValue | src/main/java/com/twl/miniredis/repository/DatabaseRepository.java:33-35 | SET overwrites the key whatever it held, and nothing else changes |
| Repository.DatabaseRepository.Del | src/main/java/com/twl/miniredis/repository/DatabaseRepository.java:68-82 | DEL removes exactly the listed keys that are present and returns the sum of their weights: entries of a zset, 1 for anything else |
| Repository.DatabaseRepository.Incr | src/main/java/com/twl/miniredis/repository/DatabaseRepository.java:103-114 | INCR fails and changes nothing on an absent key (NullPointerException) or on a text that is no 32-bit integer (NonNumericValueException). Otherwise it stores and returns the text of the wrapped increment, and keeps stored zsets sorted |
| Repository.DatabaseRepository.ZAdd | src/main/java/com/twl/miniredis/repository/DatabaseRepository.java:130-177 | ZADD ends in the map and result of `ZAddSpec`: it fails on fewer than two tokens or a non-zset key, and otherwise stores the re-sorted zset |
| Service.GetStringValue | src/main/java/com/twl/miniredis/service/DatabaseService.java:37-45 | GET fails with NotFound("(nil) Key does not exist in database.") exactly when the repository result or its value is null; a non-null value gives Ok with the value's text; repository errors pass through |
| Service.Incr | src/main/java/com/twl/miniredis/service/DatabaseService.java:55-58 | INCR adds no error of its own; repository errors pass through |
| Service.IncrAgreesWithGet | src/main/java/com/twl/miniredis/service/DatabaseService.java:37-58 | INCR answers the same text GET does, and "0" where GET answers NotFound |
| Service.ZRank | src/main/java/com/twl/miniredis/service/DatabaseService.java:68-81 | null maps to NotFound(key does not exist), -1 to NotFound(member not found), any other rank passes unchanged |
| Service.ZRankThroughRepository | src/main/java/com/twl/miniredis/service/DatabaseService.java:68-81 | ZRANK through the service is NotFound for an absent key or member, otherwise a position holding the member |
| Service.ZRange | src/main/java/com/twl/miniredis/service/DatabaseService.java:83-90 | ZRANGE fails with NotFound("Could not find any results.") exactly when the range is empty; a non-empty range is returned unchanged as Ok; repository errors pass through |
| Service.ZRangeOfAbsentKey | src/main/java/com/twl/miniredis/service/DatabaseService.java:83-90 | ZRANGE of an absent key is NotFound whatever the bounds |
| Service.ZRangeZeroMinusOneOfTwo | src/main/java/com/twl/miniredis/repository/DatabaseRepository.java:248-263 | ZRANGE 0 -1 on a zset of two members answers only the first member |
| Service.GetKey | src/main/java/com/twl/miniredis/service/DatabaseService.java:38 | the stand-in for `getKey` is null exactly for an absent key, returns a stored ExpirableValue as is, and wraps any other stored object as an ExpirableValue without an expiry instant |
| Service.DatabaseService.constructor | src/main/java/com/twl/miniredis/service/DatabaseService.java:27-29 | the service works on the repository it is given |
| Service.DatabaseService.SetKeyValue | src/main/java/com/twl/miniredis/service/DatabaseService.java:32-35 | SET stores the value with its expiry instant and answers what GET reads back, the value's text |
| Service.DatabaseService.Del | src/main/java/com/twl/miniredis/service/DatabaseService.java:47-49 | DEL is the repository's DEL unchanged |
| Service.DatabaseService.Dbsize | src/main/java/com/twl/miniredis/service/DatabaseService.java:51-53 | DBSIZE is the number of stored keys |
| Service.DatabaseService.ZAdd | src/main/java/com/twl/miniredis/service/DatabaseService.java:60-62 | ZADD is the repository's ZADD unchanged |
| Service.DatabaseService.ZCard | src/main/java/com/twl/miniredis/service/DatabaseService.java:64-66 | ZCARD is the repository's ZCARD unchanged: 0, an error, or the entry count |
| CleanupJob.Survivors | src/main/java/com/twl/miniredis/scheduler/DatabaseCleanupJob.java:26-34 | a sweep keeps exactly the entries that are not expired, each unchanged |
| CleanupJob.SweepLeavesNothingExpired | src/main/java/com/twl/miniredis/scheduler/DatabaseCleanupJob.java:27-31 | after a sweep at `now`, no ExpirableValue with an expiry instant at or before `now` remains |
| CleanupJob.SweepKeeps | src/main/java/com/twl/miniredis/scheduler/DatabaseCleanupJob.java:27-29 | strings, numbers, zsets, values without an expiry instant, and values expiring after `now` all survive unchanged; nothing else does |
| CleanupJob.SweepIdempotent | src/main/java/com/twl/miniredis/scheduler/DatabaseCleanupJob.java:26-34 | for a fixed `now`, a second sweep removes nothing |
| CleanupJob.SweepMonotone | src/main/java/com/twl/miniredis/scheduler/DatabaseCleanupJob.java:29 | a sweep at a later instant removes at least what an earlier one removes |
| CleanupJob.SweepKeepsStoreValid | src/main/java/com/twl/miniredis/scheduler/DatabaseCleanupJob.java:30 | deleting through DEL keeps every stored zset well formed and sorted |
| CleanupJob.DatabaseCleanupJob.constructor | src/main/java/com/twl/miniredis/scheduler/DatabaseCleanupJob.java:19-21 | the job works on the service it is given |
| CleanupJob.DatabaseCleanupJob.ReportCurrentTime | src/main/java/com/twl/miniredis/scheduler/DatabaseCleanupJob.java:24-35 | visiting each key once and deleting the expired ones one DEL at a time leaves the map as `Survivors` of the map it started from |

## Left out

- Scores are integers, not doubles. `Double.parseDouble` is the `parseScore` parameter of ZADD, so fractions, NaN, infinities and the ordering quirks of `Double.compareTo` are not modelled. `Double.toString` is modelled only for integer-valued doubles.
- `Integer.parseInt` also accepts non-ASCII Unicode digits. The model accepts only '0'..'9' after an optional sign.
- Java strings are UTF-16 code units. Member names and texts are Dafny `string`s, and `String.compareTo` compares Dafny characters.
- Expiry instants are integers (`Time`), not `LocalDateTime`. Their text inside an ExpirableValue is the number, not an ISO timestamp.
- The job's two `LocalDateTime.now()` calls are one `now` parameter.
- Concurrency is not modelled: the `ConcurrentMap`, the `@Scheduled` trigger, and commands interleaving with the sweep. The sweep iterates a snapshot of the key set taken at its start.
- Logging is not modelled.
- Zsets are values. The same `LinkedHashMap` object stored under two keys, where changing one changes the other, is not modelled. ZADD's in-place refill of the stored map is modelled as writing the sorted zset back to its key.
- Null arguments are not modelled (a null token array, null keys, members or values), with one exception: INCR on an absent key, which the model turns into a NullPointerException outcome.
- Repository.DatabaseRepository.Del: the 32-bit `int deletions` counter is unbounded in the model, so its wrap-around is not modelled.
- Repository.Dbsize: `size()` is unbounded in the model, so saturation at 2^31 - 1 keys is not modelled.
- The service calls repository methods that do not exist in the repository: `setKeyValue(key, value, exSeconds)`, `getKey(key)`, and an `incr` that returns an `ExpirableValue`. For these:
  - GET and INCR are functions of the result such a call delivers (`Service.GetStringValue`, `Service.Incr`).
  - `Service.GetKey` and `Service.DatabaseService.SetKeyValue` state an assumed behaviour: SET stores `ExpirableValue(value, expireTime)`, and `getKey` returns it. `getKey` also wraps any other stored object as an `ExpirableValue` without an expiry instant (`ExpirableValue(o, null)`). That covers a zset stored by ZADD and a String stored by INCR, so the service's GET answers the text of such an object.
  - Computing the expiry instant from `exSeconds` and the clock is left to the caller.
- ZADD re-sorts the whole zset on every call, as the code does (DatabaseRepository.java:164-171). An incremental ordered insert is not modelled.
- The controller (`MiniRedisController.java`), the application class, `Database.java` and `NonNumericValueException.java` are not part of this model. The map the repository and the sweep reach through `Database.getValues()` is the `values` field of `Repository.DatabaseRepository`. The `Database.java` in the repository does not define that method, and its two maps, `stringValues` and `zset`, are not used by the core. The exception is the `NonNumericValueException` outcome.

## Findings

The repository keeps the as-written ZRANGE (`Repository.ZRange` uses `ZSets.RangeOf`). Each row shows, for `RangeOf`, the input that departs from the range the method's own documentation comment describes (lines 216-229). `ZSets.RedisRange` is that documented range, and `ZSets.RangeOf`'s contract proves where the two agree.

| source | as written | input that shows it | evidently intended | confidence | as-written member | corrected member |
|---|---|---|---|---|---|---|
| src/main/java/com/twl/miniredis/repository/DatabaseRepository.java:251-252 | a negative stop resolves to `size - 1 + stop` | ZRANGE 0 -1 on a zset of two entries returns only the first entry | -1 is the last entry (`size + stop`), so 0 -1 returns the whole zset | not executed | ZSets.RangeOfMinusOneDropsLast | ZSets.RedisRange |
| src/main/java/com/twl/miniredis/repository/DatabaseRepository.java:249-250 | stop is clamped only when `stop > size` | ZRANGE 0 2 on a zset of two entries reads index 2 and throws IndexOutOfBoundsException | any stop past the last index is clamped to the last entry | not executed | ZSets.RangeOfStopAtSizeFails | ZSets.RedisRange |
| src/main/java/com/twl/miniredis/repository/DatabaseRepository.java:259-260 | a negative start is used as an index | ZRANGE -1 -1 on a zset of two entries reads index -1 and throws IndexOutOfBoundsException | a negative start counts from the end, so -1 -1 returns the last entry | not executed | ZSets.RangeOfNegativeStartFails | ZSets.RedisRange |
