# redis-extend in Dafny

redis-extend adds per-field and per-member expiry to Redis hashes, sets and
sorted sets, which plain Redis can only expire as whole keys. For each field
or member with a deadline it keeps one entry in a bookkeeping sorted set, the
*bucket* `__redis-extend`. The entry's name is `type:key:field` and its score
is the deadline in milliseconds. It also keeps a marker string key
`__redis-extend:ttl:type:key:field` whose Redis TTL answers the `*ttl`
queries. A background job, `runExpire`, works on the due entries:

- it deletes each one's field or member with `hdel`/`srem`/`zrem`;
- when that removal succeeds, it drops the bucket entry and emits a
  type-specific event (`hexpired`, `sexpired`, `zexpired`) followed by a
  generic `expired` event;
- it then re-arms a timer for the earliest remaining deadline.

This project models that core of `redis-extend.js` and proves what the code
promises about it.

Modules:

- `Wrappers`: the `Option` type.
- `Strings`: JavaScript's `split`/`join` on one character, the global
  `replace(/_/g, '')`, and `Number()` on digit strings.
- `Chunking`: `toChunk`, an imperative loop that splices a JavaScript array
  (class `JsArray`) in place.
- `Names`: the constants, the naming scheme `expireKey`/`keyTTL`, and
  `parseChunk`.
- `Clock`: `convertToGMT0` and the arithmetic for deadlines and marker
  lifetimes. The wall clock is an input: epoch milliseconds plus the
  timezone offset in minutes.
- `Notification`: `parseMessage` for keyspace/keyevent channel names.
- `Store`: the Redis data the core touches, as values.
  - Hash fields, set members and sorted-set members are keyed by
    `(key, field)`.
  - The bucket is a map from entry name to score.
  - The markers are a map from name to lifetime in milliseconds.
  - It also holds the pure specification of one sweep (`AfterSweep`) and of
    its event log (`SweptLog`, which holds for some order of the due entries).
- `Schedule`: the scheduler state (`isRunning`, `nextRemoveAt`, the armed
  timer delay, the event log) and the relations `Ran` (what `runExpire`
  does) and `Added` (what `addExpire` does).
- `Extend`: class `RedisExtend`, whose methods update the fields in place:
  - `RunExpire`, `ClearExpired` and `RemoveOneChunk`;
  - `GetMsNextClear`, `StopRunExpire` and `AddExpire`;
  - the six `*expire` guards and the six `*ttl` queries;
  - `zismember` and `zmismember`.

  The class invariant is that every bucket entry name has at least three
  `:`-separated segments, which holds for every name `expireKey` builds. It
  makes the outcome of a sweep independent of the order in which the due
  entries are processed, and `ClearExpired` proves this for the order it
  picks.

Where the code and its description differ, the model follows the code,
with one exception: the marker lifetime that line 73 gets wrong (see
"## Findings") is modelled as corrected. The differences the model keeps:

- A hash field whose name contains `:` round-trips through the bucket, but a
  key containing `:` does not: the field absorbs the extra segment. The
  sweep then deletes field `b:c` of hash `a` in place of field `c` of hash
  `a:b`, and never removes anything from a key that contains `:`.
- A keyspace notification for a key containing `:` or `@` reports only the
  part of the key before the first such character.
- A due entry whose removal returns 0 stays in the bucket, and each later
  `runExpire` re-arms the timer with delay 0. The entry stays until the
  application re-creates that field or member (an `hset` with no new
  expiry, say). The next sweep, which comes at once, then deletes the new
  data, drops the entry and emits the events with the stale `expiredAt`.
- The sweep never deletes marker keys. They lapse on their own TTL.
- Despite its name, `convertToGMT0` adds the local timezone offset to the
  epoch value. That value is already UTC, so the result is shifted, not UTC.
  Differences between two readings taken at the same offset are unaffected.

## Model

| member | source | states |
|---|---|---|
| Names.ExpireKey | redis-extend.js:151-153 | the entry name is as long as its three parts plus two separators; `ExpireKeySeparators`, `ExpireKeyWellFormed` and `ParseExpireKey` state its shape |
| Names.ExpireKeySeparators | redis-extend.js:151-153 | the entry name holds exactly two `:` more than its type, key and field hold together |
| Names.ParseChunk | redis-extend.js:28-42 | the name and score pass through unchanged; the shape of the parts is stated by `ParseChunkShape`, and the parse of entry names by `ParseExpireKey`, `RejoinMember` and `ColonInKeyMisparsed` |
| Names.ParseChunkShape | redis-extend.js:28-42 | the type, and the key when there is one, contain no `:`; the key is missing exactly when the name has no `:`, and then the type is the whole name and the field is empty |
| Names.KeyTtl | redis-extend.js:155-157 | the marker key is the bucket name, then `:ttl:`, then the bucket entry name of the same triple |
| Names.ParseExpireKey | redis-extend.js:28-42 | parsing the entry name of `(type, key, field)` gives back exactly that type, key and field, whatever `:` the field contains, provided type and key have no `:` |
| Names.ExpireKeyWellFormed | redis-extend.js:151-153 | every entry name `expireKey` builds has at least three `:`-segments |
| Names.RejoinMember | redis-extend.js:28-42 | for a name with at least three segments, re-joining the parsed type, key and field with `:` gives back the name |
| Names.MemberInjective | redis-extend.js:28-42 | two well-formed names that parse to the same type, key and field are the same name |
| Names.ColonInKeyMisparsed | redis-extend.js:30-33 | when the key is `k1:k2`, the parsed key is `k1` and the parsed field is `k2:field` |
| Names.ColonKeyNameCollides | redis-extend.js:151-153 | field `f` of key `k1:k2` and field `k2:f` of key `k1` get the same entry name |
| Names.ColonInKeyExample | redis-extend.js:30-33 | `hash:user:1:name` parses to key `user` and field `1:name` |
| Strings.Split | redis-extend.js:30 | `split` on one character gives at least one piece; `SplitPartsFree`, `JoinSplit` and `SplitJoin` state the pieces |
| Strings.Join | redis-extend.js:33 | `join` of one or more pieces is at least as long as the number of separators it inserts; `JoinSeparators` counts them and `JoinSplit`/`SplitJoin` relate it to `split` |
| Strings.JoinSeparators | redis-extend.js:33 | joining separator-free pieces inserts exactly one separator between each two of them |
| Strings.JoinSplit | redis-extend.js:30-33 | joining the pieces of a split with the same separator restores the string |
| Strings.SplitJoin | redis-extend.js:30-33 | splitting a join of separator-free pieces restores the pieces |
| Strings.SplitPartsFree | redis-extend.js:30 | no piece of a split contains the separator |
| Strings.RemoveAll | redis-extend.js:85 | the result has no occurrence of the removed character, is no longer than the input, and holds every other character exactly as often as the input does |
| Strings.RemoveAllChar | redis-extend.js:85 | on one character: the removed character disappears, any other stays |
| Strings.RemoveAllConcat | redis-extend.js:85 | removal distributes over concatenation, so with `RemoveAllChar` the other characters stay in their order |
| Strings.Number | redis-extend.js:89 | `Number()` of a string is finite exactly when the string is all digits, its value is then the decimal value of the digits, and the empty string gives 0 |
| Strings.LeadingZero | redis-extend.js:89 | a leading zero does not change the value of a digit string |
| Strings.SplitFirst | redis-extend.js:84 | in front of a prefix without the separator, the first piece of a split is that prefix followed by the first piece of the rest |
| Chunking.ToChunk | redis-extend.js:44-52 | the loop leaves the input array empty and returns the chunks of its old contents, which concatenate back to those contents |
| Chunking.JsArray.SpliceFront | redis-extend.js:48 | `splice(0, n)` returns the first `min(n, length)` elements and leaves the rest in the array |
| Chunking.FlattenChunks | redis-extend.js:44-52 | the chunks concatenate to the original sequence |
| Chunking.ChunkSizes | redis-extend.js:44-52 | every chunk is non-empty and at most `size` long, and every chunk but the last is exactly `size` long |
| Chunking.ChunkPairs | redis-extend.js:233-234 | chunking a flat WITHSCORES reply of even length by 2 gives the (name, score) pairs in order |
| Clock.ConvertToGMT0 | redis-extend.js:54-58 | the result is the epoch value shifted by the offset in milliseconds: equal to it only at offset 0, earlier for a negative offset |
| Clock.ElapsedIgnoresOffset | redis-extend.js:54-58 | the difference of two converted readings at the same offset is the difference of their epoch values |
| Clock.OffsetChangeShifts | redis-extend.js:54-58 | the same instant converted at two offsets differs by the offset difference in milliseconds |
| Clock.ExpiredAt | redis-extend.js:61-63 | the deadline lies the requested duration after the converted clock: `d` ms, or `d`·1000 ms for the seconds variants; it is strictly later for a positive amount |
| Clock.MarkerTtl | redis-extend.js:72-73 | the corrected marker lifetime is the entry's own duration `DurationMs`; it equals the lifetime as written for the seconds variants and is 1000 times shorter than it for the millisecond variants |
| Clock.MarkerTtlMatchesDeadline | redis-extend.js:60-73 | with the corrected lifetime the marker lapses exactly at the bucket deadline |
| Clock.MarkerTtlAsWritten | redis-extend.js:73 | the marker lifetime as written is the amount read as seconds, whichever variant was called |
| Clock.MarkerTtlAsWrittenOverstates | redis-extend.js:73 | as written, a millisecond variant's marker lives 1000 times the requested duration and does not lapse at the deadline |
| Notification.ParseMessage | redis-extend.js:80-100 | a channel without `@` is a TypeError; the channel name has no `_`; a `keyspace` channel carries the message as the command, any other as the key |
| Notification.ParseChannelName | redis-extend.js:80-100 | for any key, parsing `__kind@db__:key` gives channel `kind`, db `Number(db)`, and as key the key cut at its first `@`, then at its first `:`, with underscores removed; the message goes in the slot the channel kind selects |
| Notification.ParseChannel | redis-extend.js:80-100 | for a key without `:` or `@` the parsed key is the key with underscores removed |
| Notification.ColonInChannelKeyTruncated | redis-extend.js:87-90 | a keyspace key `k1:k2` is reported as `k1` (underscores removed), whatever `k2` holds |
| Notification.AtInChannelKeyTruncated | redis-extend.js:84 | a keyspace key `k1@k2` is reported as `k1` (underscores removed): `__keyspace@0__:user@example.com` gives key `user` |
| Store.Delete | redis-extend.js:244-256 | after `hdel`/`srem`/`zrem`, the field or member is absent; every other field or member is present exactly when it was before, every remaining hash value and sorted-set score is unchanged, nothing is added, and the bucket and markers are unchanged |
| Store.RemoveChunk | redis-extend.js:239-286 | if the entry's field or member exists, it and the bucket entry are gone; otherwise nothing changes |
| Store.Due | redis-extend.js:233 | an entry is due at `ms` exactly when its score lies in `[0, ms]` |
| Store.RemoveStep | redis-extend.js:236-260 | processing a well-formed due entry after a set of others is the same as having processed the enlarged set, so the sweep's result does not depend on the order |
| Store.SweptEntryRemoved | redis-extend.js:246-260 | a due entry whose removal succeeds ends the sweep absent from the bucket, and its field or member is absent |
| Store.NoOpEntryKept | redis-extend.js:259 | a due entry whose field or member is already gone stays in the bucket with its score |
| Store.DueEntryClearsSubKey | redis-extend.js:239-260 | a due entry deletes the field or member it names whether or not it existed when the entry was written, and drops itself when it was present: a leaked entry deletes a re-created field |
| Store.NotDueKept | redis-extend.js:233 | an entry scored outside `[0, ms]` is untouched |
| Store.ColonKeyNeverSwept | redis-extend.js:239-256 | a field or member of a key containing `:` is kept by every sweep, whatever the bucket holds |
| Store.ColonKeySweepsOtherField | redis-extend.js:239-256 | once the entry for field `f` of hash `k1:k2` is due, the sweep deletes field `k2:f` of hash `k1` |
| Store.SweepOnlyRemoves | redis-extend.js:231-286 | a sweep only removes: no field, member, entry or marker is added, and every remaining hash value, sorted-set score and bucket score is unchanged |
| Store.DataOf | redis-extend.js:262-267 | the event payload carries the entry's score as `expiredAt`, and for a well-formed entry its type, key and field build that entry's name again |
| Store.DataOfExpireKey | redis-extend.js:262-267 | the payload of the entry for `(type, key, field)` is exactly `{type, key, field, expiredAt}` when type and key have no `:` |
| Store.EmittedOnce | redis-extend.js:269-283 | a processed entry emits each of its events once, all carrying its payload |
| Store.DataInjective | redis-extend.js:262-267 | two well-formed entries with the same payload (type, key, field, score) are the same entry |
| Store.OneEventPerEntry | redis-extend.js:262-283 | in a sweep's log, each processed entry's type-specific event and its `expired` event each occur exactly once |
| Store.NoEventsForOthers | redis-extend.js:259-283 | no event in the log carries the payload of an entry that was not processed |
| Schedule.Delay | redis-extend.js:203 | the armed delay is never negative, is at least `msNext - now`, and is either 0 or exactly `msNext - now` |
| Schedule.DelayIgnoresOffset | redis-extend.js:193-203 | for a deadline written and a run made under the same offset, the armed delay depends only on the epoch times |
| Schedule.Stopped | redis-extend.js:214-220 | stopping clears the timer, sets `isRunning` false and `nextRemoveAt` to -1, and keeps the data and the events |
| Schedule.RanArmsForEarliest | redis-extend.js:197-211 | after a run the timer is armed exactly when an entry with a non-negative score remains, with delay `max(nextRemoveAt - now, 0)`; `isRunning` is false |
| Schedule.LeakedEntryReArmsAtOnce | redis-extend.js:197-211 | a due entry whose removal was a no-op survives the run (the `if (result)` guard at line 259), and the timer is re-armed with delay 0 |
| Schedule.SweptEntryOutcome | redis-extend.js:231-286 | for each entry a run sweeps, the entry and its field or member are gone and each of its two events was emitted exactly once |
| Schedule.AddedLastWriteWins | redis-extend.js:60-78 | a successful `addExpire` whose deadline is not yet due at the run's clock reading returns 1, and the entry's score is the new deadline, whatever it was before |
| Schedule.DueEntrySwept | redis-extend.js:184-212 | a run that finds the entry of an existing field or member due deletes it, drops the entry and emits each of its two events once; a re-created field behind a leaked entry is deleted this way |
| Schedule.AddedSweptAtOnce | redis-extend.js:60-78 | when the run's clock reading has already reached the new deadline (the store round trips took the whole duration), the run that `addExpire` starts deletes the field or member, drops the entry and emits each of its events exactly once with the new deadline |
| Schedule.AddedKeepsOthers | redis-extend.js:60-78 | any other entry left in the bucket keeps its score; one that was not due at the run's clock reading is still present |
| Schedule.AddedWakesInTime | redis-extend.js:67-75 | when no sweep was in flight, or the new deadline was earlier than `nextRemoveAt`, and the deadline is still ahead of the run's clock reading, the re-armed timer is due no later than the new deadline |
| Schedule.OffsetChangeShiftsDue | redis-extend.js:54-63 | an entry written under one timezone offset and swept under another falls due the offset difference early or late |
| Extend.HszTtl | redis-extend.js:379-390 | a marker TTL of -2 becomes -1, -1 stays -1, every other reply passes through, and the result is never -2 |
| Extend.RedisExtend.constructor | redis-extend.js:103-149 | a new client starts with an empty timer, `isRunning` false and `nextRemoveAt` -1, then runs one sweep |
| Extend.RedisExtend.ZScore | redis-extend.js:349 | the score exists exactly when the member is in the sorted set, and equals its stored score |
| Extend.RedisExtend.ZIsMember | redis-extend.js:348-353 | the result is 0 or 1, and it is 1 exactly when `zscore` is non-null |
| Extend.RedisExtend.ZMIsMember | redis-extend.js:355-373 | one answer per member, in order, each the `zismember` of that member |
| Extend.RedisExtend.StopRunExpire | redis-extend.js:214-220 | the new state is `Stopped` of the old |
| Extend.RedisExtend.GetMsNextClear | redis-extend.js:222-229 | null exactly when no entry has a non-negative score, otherwise the least such score |
| Extend.RedisExtend.RemoveOneChunk | redis-extend.js:239-286 | the data becomes `RemoveChunk` of the old data; the two events are appended exactly when the field or member existed; the scheduler fields are unchanged |
| Extend.RedisExtend.ClearExpired | redis-extend.js:231-237 | the data becomes `AfterSweep` of the old, and the appended events are the log of some order of the swept entries |
| Extend.RedisExtend.RunExpire | redis-extend.js:184-212 | a call while a sweep is in flight changes nothing; otherwise the state after it is related to the state before by `Ran` |
| Extend.RedisExtend.AddExpire | redis-extend.js:60-78 | the deadline is taken from the clock reading of line 61, and the run that follows sweeps at its own reading `runClock`, taken after the two store round trips; the entry's score becomes the deadline and the scheduler is stopped when `nextRemoveAt` was later. A non-positive amount makes `setex` fail with nothing further done; otherwise the marker is set (with the corrected lifetime, see "## Left out"), a run follows, and the result is 1 |
| Extend.RedisExtend.HExpire | redis-extend.js:288-296 | an absent field gives 0 and leaves the state as it was; otherwise `addExpire` in seconds |
| Extend.RedisExtend.HPExpire | redis-extend.js:298-306 | an absent field gives 0 and leaves the state as it was; otherwise `addExpire` in milliseconds |
| Extend.RedisExtend.SExpire | redis-extend.js:308-316 | an absent member gives 0 and leaves the state as it was; otherwise `addExpire` in seconds |
| Extend.RedisExtend.SPExpire | redis-extend.js:318-326 | an absent member gives 0 and leaves the state as it was; otherwise `addExpire` in milliseconds |
| Extend.RedisExtend.ZExpire | redis-extend.js:328-336 | 0 when `zismember` is 0, with the state left as it was; otherwise `addExpire` in seconds |
| Extend.RedisExtend.ZPExpire | redis-extend.js:338-346 | 0 when `zismember` is 0, with the state left as it was; otherwise `addExpire` in milliseconds |
| Extend.RedisExtend.HTtl | redis-extend.js:392-400 | -2 exactly when the field is absent, otherwise `hszTtl` in seconds |
| Extend.RedisExtend.HPTtl | redis-extend.js:402-410 | -2 exactly when the field is absent, otherwise `hszTtl` in milliseconds |
| Extend.RedisExtend.STtl | redis-extend.js:412-420 | -2 exactly when the member is absent, otherwise `hszTtl` in seconds |
| Extend.RedisExtend.SPTtl | redis-extend.js:422-430 | -2 exactly when the member is absent, otherwise `hszTtl` in milliseconds |
| Extend.RedisExtend.ZTtl | redis-extend.js:432-440 | -2 exactly when `zismember` is 0, otherwise `hszTtl` in seconds |
| Extend.RedisExtend.ZPTtl | redis-extend.js:442-450 | -2 exactly when `zismember` is 0, otherwise `hszTtl` in milliseconds |

## Left out

- Connection and pub/sub setup (redis-extend.js:103-145): the Redis client, the `psubscribe` and `config set` calls, and the `pmessage` handler that re-emits parsed notifications. This is network I/O and event plumbing; only `parseMessage` is modelled.
- `command` (redis-extend.js:159-182). It looks up ioredis methods by name, and that library is not part of this model.
- `zmembers` and the `debug` logging: thin wrappers.
- Real timers and the real clock. The clock is an input. An armed timer is recorded as its delay, and a run happens only when `RunExpire` is called.
- Node's `setTimeout` fires a delay above 2147483647 ms after 1 ms. A next deadline more than about 24.8 days ahead therefore re-arms in a tight loop. The model's `Delay` is an unbounded natural number and does not capture this.
- Re-arming overwrites the timer handle without `clearTimeout`, so in the program an earlier timer can still fire. The model keeps one timer slot.
- `async.eachLimit` concurrency (redis-extend.js:236): the sweep is a sequential loop.
- Interleaving of calls. The program starts `runExpire` without awaiting it (redis-extend.js:75, 148) and from timers, so a call can arrive while a sweep is in flight, and `stopRunExpire` (line 217) can reset `isRunning` during one. In the model every call runs to completion before the next begins; `addExpire` returns 1 only after its whole run. So `runExpire`'s `isRunning` guard is modelled, but no reachable state has a sweep in flight.
- `runExpire` reads the clock at line 193 and `clearExpired` reads it again at line 232. The model uses one reading for both. The reading `addExpire` takes at line 61 is a separate input.
- The native countdown of marker keys. The TTL replies `hszTtl` sees are an input (`TtlQuery`), and the marker map records the lifetime set when the marker was created.
- Chunk order inside `zrangebyscore` replies. The due set is processed in an order the model leaves open; `ClearExpired` proves the data outcome for every order and describes the log up to that order.
- `Number()` beyond strings of decimal digits: signs, decimals, hex and whitespace all give NaN in the model. Scores are integers, not floats.
- Store errors such as WRONGTYPE (an `hdel` on a key that holds a string, say). When one happens after line 192, `isRunning` stays true, and every later `runExpire` returns at line 187 until an `addExpire` with an earlier deadline calls `stopRunExpire`. The model has no failing store calls, so it never reaches that stuck state.
- A user key named like the bucket or a marker key. The model keeps the bookkeeping keys apart from user data. Redis deleting a composite key once it becomes empty is not modelled either.
- `zmismember`'s argument normalisation: a trailing callback, or an array as the first argument. The model takes the member list directly.
- Node-style callbacks: every operation returns its result.
- Extend.RedisExtend.AddExpire: sets the marker's lifetime to the corrected `MarkerTtl` (row under "## Findings"), not to `amount` seconds as line 73 does. For the seconds variants the two agree; for the millisecond variants the model's marker lives 1000 times shorter than the program's. The as-written lifetime is `MarkerTtlAsWritten`.
- Extend.RedisExtend.HPExpire: through `AddExpire`, the marker gets the corrected lifetime of `milliseconds` ms, where the program's lives `milliseconds` s.
- Extend.RedisExtend.SPExpire: through `AddExpire`, the marker gets the corrected lifetime of `milliseconds` ms, where the program's lives `milliseconds` s.
- Extend.RedisExtend.ZPExpire: through `AddExpire`, the marker gets the corrected lifetime of `milliseconds` ms, where the program's lives `milliseconds` s.
- Names.ParseChunk: takes the score as an integer, so the `Number(value)` of line 32 on the score string Redis returns is not modelled. Its own contract states the name and score; the shape of the type and key is stated by ParseChunkShape, and what it parses an entry name to by ParseExpireKey, RejoinMember and ColonInKeyMisparsed.

## Findings

| source | as written | input that shows it | evidently intended | confidence | as-written member | corrected member |
|---|---|---|---|---|---|---|
| redis-extend.js:73 | `setex(keyTTL, seconds, 1)` passes the caller's amount as the marker lifetime in seconds even for the millisecond variants `hpexpire`/`spexpire`/`zpexpire`; `MarkerTtlAsWrittenOverstates` shows the marker then lives 1000 times the duration | `hpexpire(k, f, 5000)`: the bucket deadline is 5000 ms ahead, but the marker lives 5000 s, so `hpttl` reports about 5000000 ms | the marker lives exactly as long as the bucket entry, i.e. `seconds` s for the seconds variants and `milliseconds` ms (`psetex`) for the millisecond variants; `MarkerTtlMatchesDeadline` proves this of the corrected lifetime | not executed | Clock.MarkerTtlAsWritten | Clock.MarkerTtl |
