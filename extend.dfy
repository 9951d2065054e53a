/** `RedisExtend`: per-field and per-member expiry on hashes, sets and
    sorted sets. The store is held as a value that the methods replace; the
    clock is an argument; arming a timer records its delay. */
module Extend {
  import opened Wrappers
  import opened Names
  import opened Clock
  import opened Store
  import opened Schedule
  import Strings

  /** The answers the store gives to `ttl` and `pttl` for a key name. */
  datatype TtlQuery = TtlQuery(seconds: string -> int, millis: string -> int)

  /** The reply-code logic of `hszTtl`: the marker's TTL (seconds or
      milliseconds), except that a missing marker (-2) reads as "no pending
      expiry" (-1). The result is never -2, which is left to mean "no such
      sub-key". */
  function HszTtl(typ: string, key: string, field: string, isMs: bool, q: TtlQuery): (r: int)
    ensures var reply := if isMs then q.millis(KeyTtl(typ, key, field)) else q.seconds(KeyTtl(typ, key, field));
            r != -2 && (reply != -2 ==> r == reply) && (r == -1 <==> reply == -1 || reply == -2)
  {
    var reply := if isMs then q.millis(KeyTtl(typ, key, field)) else q.seconds(KeyTtl(typ, key, field));
    if reply == -2 then -1 else reply
  }

  class RedisExtend {
    var store: Store
    var isRunning: bool
    var nextRemoveAt: int
    var timer: Option<nat>
    var events: seq<Event>

    /** Every bucket entry was written by `expireKey`. */
    ghost predicate Valid()
      reads this
    {
      WellFormedBucket(store.bucket)
    }

    ghost function Snapshot(): State
      reads this
    {
      State(store, isRunning, nextRemoveAt, timer, events)
    }

    /** The instance starts idle, with no timer, and sweeps once. */
    constructor (initial: Store, clock: Clock)
      requires WellFormedBucket(initial.bucket)
      ensures Valid()
      ensures Ran(State(initial, false, -1, None, []), Snapshot(), ConvertToGMT0(clock))
    {
      store := initial;
      isRunning := false;
      nextRemoveAt := -1;
      timer := None;
      events := [];
      new;
      RunExpire(clock);
    }

    /** `hexists`. */
    function HExists(key: string, field: string): bool
      reads this
    {
      SubKey(key, field) in store.hashes
    }

    /** `sismember`. */
    function SIsMember(key: string, member: string): bool
      reads this
    {
      SubKey(key, member) in store.sets
    }

    /** `zscore`: the member's score, or null. */
    function ZScore(key: string, member: string): (r: Option<int>)
      reads this
      ensures r.Some? <==> SubKey(key, member) in store.zsets
      ensures r.Some? ==> r.value == store.zsets[SubKey(key, member)]
    {
      if SubKey(key, member) in store.zsets then Some(store.zsets[SubKey(key, member)]) else None
    }

    /** `zismember`: 1 exactly when `zscore` is not null, 0 otherwise. */
    function ZIsMember(key: string, member: string): (r: int)
      reads this
      ensures r == 0 || r == 1
      ensures r == 1 <==> ZScore(key, member).Some?
    {
      if ZScore(key, member) == None then 0 else 1
    }

    /** `zmismember`: `zismember` of each member, in order. */
    function ZMIsMember(key: string, members: seq<string>): (r: seq<int>)
      reads this
      ensures |r| == |members|
      ensures forall i :: 0 <= i < |members| ==> r[i] == ZIsMember(key, members[i])
    {
      if |members| == 0 then []
      else [ZIsMember(key, members[0])] + ZMIsMember(key, members[1..])
    }

    /** `stopRunExpire`. */
    method StopRunExpire()
      requires Valid()
      modifies this
      ensures Valid()
      ensures Snapshot() == Stopped(old(Snapshot()))
    {
      timer := None;
      isRunning := false;
      nextRemoveAt := -1;
    }

    /** `getMsNextClear`: the earliest deadline of 0 or later, or null when
      there is none. The store's `zrangebyscore(bucket, 0, '+inf', LIMIT 0 1)`
      is carried out here as a scan of the bucket. */
    method GetMsNextClear() returns (r: Option<int>)
      ensures r.None? <==> !HasDeadline(store.bucket)
      ensures r.Some? ==> IsEarliest(store.bucket, r.value)
    {
      var rest := store.bucket.Keys;
      r := None;
      while rest != {}
        invariant rest <= store.bucket.Keys
        invariant r.None? ==> forall m :: m in store.bucket && m !in rest ==> store.bucket[m] < 0
        invariant r.Some? ==> r.value >= 0 && (exists m :: m in store.bucket && store.bucket[m] == r.value)
        invariant r.Some? ==> forall m :: m in store.bucket && m !in rest && store.bucket[m] >= 0 ==> r.value <= store.bucket[m]
        decreases rest
      {
        var m :| m in rest;
        var score := store.bucket[m];
        if score >= 0 && (r.None? || score < r.value) {
          r := Some(score);
        }
        rest := rest - {m};
      }
    }

    /** `removeOneChunk([name, score])`: remove the sub-key the entry names;
      when the store reports a removal, drop the entry and emit the
      type-specific event and then `expired`. */
    method RemoveOneChunk(name: string, score: int)
      requires Valid()
      modifies this
      ensures Valid()
      ensures store == RemoveChunk(old(store), name)
      ensures events == old(events) + if PresentFor(old(store), name) then Emitted(DataOf(name, score)) else []
      ensures isRunning == old(isRunning) && nextRemoveAt == old(nextRemoveAt) && timer == old(timer)
    {
      var c := ParseChunk(name, score);
      var removed := c.key.Some? && Present(store, c.typ, c.key.value, c.field);
      assert removed == PresentFor(store, name);
      if removed {
        store := Delete(store, c.typ, c.key.value, c.field);
        store := store.(bucket := store.bucket - {name});
        var data := Expired(c.typ, c.key.value, c.field, score);
        assert data == DataOf(name, score);
        if c.typ == Hash {
          events := events + [HExpired(data)];
        } else if c.typ == Set {
          events := events + [SExpired(data)];
        } else if c.typ == SortedSet {
          events := events + [ZExpired(data)];
        }
        events := events + [AnyExpired(data)];
      }
    }

    /** `clearExpired(ms)`: every entry due at `ms` goes through
      `removeOneChunk`, one after the other. */
    method ClearExpired(ms: int)
      requires Valid()
      modifies this
      ensures Valid()
      ensures store == AfterSweep(old(store), ms)
      ensures |events| >= |old(events)| && events[..|old(events)|] == old(events)
      ensures SweptLog(events[|old(events)|..], old(store), ms)
      ensures isRunning == old(isRunning) && nextRemoveAt == old(nextRemoveAt) && timer == old(timer)
    {
      ghost var s0, e0 := store, events;
      var pending := Due(store.bucket, ms);
      ghost var done: set<string> := {};
      ghost var order: seq<string> := [];
      while pending != {}
        invariant WellFormedBucket(s0.bucket)
        invariant pending !! done && pending + done == Due(s0.bucket, ms)
        invariant store == AfterRemovals(s0, done)
        invariant Processed(order, done, s0)
        invariant events == e0 + EventsFor(s0.bucket, order)
        invariant isRunning == old(isRunning) && nextRemoveAt == old(nextRemoveAt) && timer == old(timer)
        decreases pending
      {
        var m :| m in pending;
        SweepStep(s0, done, order, m, e0);
        var score := store.bucket[m];
        RemoveOneChunk(m, score);
        order := if PresentFor(s0, m) then order + [m] else order;
        done := done + {m};
        pending := pending - {m};
      }
      AfterRemovalsWellFormed(s0, done);
      assert events[|e0|..] == EventsFor(s0.bucket, order);
      ProcessedIsSwept(order, done, s0, ms);
    }

    /** `runExpire`: guarded against re-entry; sweeps what is due now, then
      arms the timer for the next deadline or clears it. */
    method RunExpire(clock: Clock)
      requires Valid()
      modifies this
      ensures Valid()
      ensures Ran(old(Snapshot()), Snapshot(), ConvertToGMT0(clock))
    {
      if isRunning {
        return;
      }
      isRunning := true;
      var now := ConvertToGMT0(clock);
      ClearExpired(now);
      var msNext := GetMsNextClear();
      isRunning := false;
      if msNext.Some? {
        nextRemoveAt := msNext.value;
        timer := Some(Delay(msNext.value, now));
      } else {
        timer := None;
      }
    }

    /** `addExpire`: the deadline comes from `clock`, read at line 61, and the
        run it starts reads the later `runClock`, after the `zadd` and
        `setex` round trips. */
    method AddExpire(typ: string, key: string, field: string, amount: int, isMs: bool, clock: Clock, runClock: Clock)
      returns (r: Reply)
      requires Valid()
      modifies this
      ensures Valid()
      ensures Added(old(Snapshot()), Snapshot(), typ, key, field, amount, isMs, clock, runClock, r)
    {
      var expiredAt := ExpiredAt(clock, amount, isMs);
      var name := ExpireKey(typ, key, field);
      ExpireKeyWellFormed(typ, key, field);
      store := store.(bucket := store.bucket[name := expiredAt]);
      if nextRemoveAt > expiredAt {
        StopRunExpire();
      }
      if amount <= 0 {
        // the store refuses a non-positive expire time for the marker
        r := Failure;
        return;
      }
      store := store.(markers := store.markers[KeyTtl(typ, key, field) := MarkerTtl(amount, isMs)]);
      RunExpire(runClock);
      r := Int(1);
    }
    /** `hexpire(key, field, seconds)`: 0 when the field does not exist, with
      nothing changed; otherwise `addExpire`. */
    method HExpire(key: string, sub: string, seconds: int, clock: Clock, runClock: Clock) returns (r: Reply)
      requires Valid()
      modifies this
      ensures Valid()
      ensures !old(HExists(key, sub)) ==> r == Int(0) && Snapshot() == old(Snapshot())
      ensures old(HExists(key, sub)) ==> Added(old(Snapshot()), Snapshot(), Hash, key, sub, seconds, false, clock, runClock, r)
    {
      if !(HExists(key, sub)) {
        return Int(0);
      }
      r := AddExpire(Hash, key, sub, seconds, false, clock, runClock);
    }

    /** `hpexpire(key, field, milliseconds)`: 0 when the field does not exist, with
      nothing changed; otherwise `addExpire`. */
    method HPExpire(key: string, sub: string, milliseconds: int, clock: Clock, runClock: Clock) returns (r: Reply)
      requires Valid()
      modifies this
      ensures Valid()
      ensures !old(HExists(key, sub)) ==> r == Int(0) && Snapshot() == old(Snapshot())
      ensures old(HExists(key, sub)) ==> Added(old(Snapshot()), Snapshot(), Hash, key, sub, milliseconds, true, clock, runClock, r)
    {
      if !(HExists(key, sub)) {
        return Int(0);
      }
      r := AddExpire(Hash, key, sub, milliseconds, true, clock, runClock);
    }

    /** `sexpire(key, member, seconds)`: 0 when the member does not exist, with
      nothing changed; otherwise `addExpire`. */
    method SExpire(key: string, sub: string, seconds: int, clock: Clock, runClock: Clock) returns (r: Reply)
      requires Valid()
      modifies this
      ensures Valid()
      ensures !old(SIsMember(key, sub)) ==> r == Int(0) && Snapshot() == old(Snapshot())
      ensures old(SIsMember(key, sub)) ==> Added(old(Snapshot()), Snapshot(), Set, key, sub, seconds, false, clock, runClock, r)
    {
      if !(SIsMember(key, sub)) {
        return Int(0);
      }
      r := AddExpire(Set, key, sub, seconds, false, clock, runClock);
    }

    /** `spexpire(key, member, milliseconds)`: 0 when the member does not exist, with
      nothing changed; otherwise `addExpire`. */
    method SPExpire(key: string, sub: string, milliseconds: int, clock: Clock, runClock: Clock) returns (r: Reply)
      requires Valid()
      modifies this
      ensures Valid()
      ensures !old(SIsMember(key, sub)) ==> r == Int(0) && Snapshot() == old(Snapshot())
      ensures old(SIsMember(key, sub)) ==> Added(old(Snapshot()), Snapshot(), Set, key, sub, milliseconds, true, clock, runClock, r)
    {
      if !(SIsMember(key, sub)) {
        return Int(0);
      }
      r := AddExpire(Set, key, sub, milliseconds, true, clock, runClock);
    }

    /** `zexpire(key, member, seconds)`: 0 when the member does not exist, with
      nothing changed; otherwise `addExpire`. */
    method ZExpire(key: string, sub: string, seconds: int, clock: Clock, runClock: Clock) returns (r: Reply)
      requires Valid()
      modifies this
      ensures Valid()
      ensures !old(ZIsMember(key, sub) == 1) ==> r == Int(0) && Snapshot() == old(Snapshot())
      ensures old(ZIsMember(key, sub) == 1) ==> Added(old(Snapshot()), Snapshot(), SortedSet, key, sub, seconds, false, clock, runClock, r)
    {
      if !(ZIsMember(key, sub) == 1) {
        return Int(0);
      }
      r := AddExpire(SortedSet, key, sub, seconds, false, clock, runClock);
    }

    /** `zpexpire(key, member, milliseconds)`: 0 when the member does not exist, with
      nothing changed; otherwise `addExpire`. */
    method ZPExpire(key: string, sub: string, milliseconds: int, clock: Clock, runClock: Clock) returns (r: Reply)
      requires Valid()
      modifies this
      ensures Valid()
      ensures !old(ZIsMember(key, sub) == 1) ==> r == Int(0) && Snapshot() == old(Snapshot())
      ensures old(ZIsMember(key, sub) == 1) ==> Added(old(Snapshot()), Snapshot(), SortedSet, key, sub, milliseconds, true, clock, runClock, r)
    {
      if !(ZIsMember(key, sub) == 1) {
        return Int(0);
      }
      r := AddExpire(SortedSet, key, sub, milliseconds, true, clock, runClock);
    }

    /** `httl(key, field)`: -2 when the field does not exist, otherwise
      `hszTtl` in seconds. */
    function HTtl(key: string, sub: string, q: TtlQuery): (r: int)
      reads this
      ensures r == -2 <==> !(HExists(key, sub))
      ensures HExists(key, sub) ==> r == HszTtl(Hash, key, sub, false, q)
    {
      if !(HExists(key, sub)) then -2 else HszTtl(Hash, key, sub, false, q)
    }

    /** `hpttl(key, field)`: -2 when the field does not exist, otherwise
      `hszTtl` in milliseconds. */
    function HPTtl(key: string, sub: string, q: TtlQuery): (r: int)
      reads this
      ensures r == -2 <==> !(HExists(key, sub))
      ensures HExists(key, sub) ==> r == HszTtl(Hash, key, sub, true, q)
    {
      if !(HExists(key, sub)) then -2 else HszTtl(Hash, key, sub, true, q)
    }

    /** `sttl(key, member)`: -2 when the member does not exist, otherwise
      `hszTtl` in seconds. */
    function STtl(key: string, sub: string, q: TtlQuery): (r: int)
      reads this
      ensures r == -2 <==> !(SIsMember(key, sub))
      ensures SIsMember(key, sub) ==> r == HszTtl(Set, key, sub, false, q)
    {
      if !(SIsMember(key, sub)) then -2 else HszTtl(Set, key, sub, false, q)
    }

    /** `spttl(key, member)`: -2 when the member does not exist, otherwise
      `hszTtl` in milliseconds. */
    function SPTtl(key: string, sub: string, q: TtlQuery): (r: int)
      reads this
      ensures r == -2 <==> !(SIsMember(key, sub))
      ensures SIsMember(key, sub) ==> r == HszTtl(Set, key, sub, true, q)
    {
      if !(SIsMember(key, sub)) then -2 else HszTtl(Set, key, sub, true, q)
    }

    /** `zttl(key, member)`: -2 when the member does not exist, otherwise
      `hszTtl` in seconds. */
    function ZTtl(key: string, sub: string, q: TtlQuery): (r: int)
      reads this
      ensures r == -2 <==> !(ZIsMember(key, sub) == 1)
      ensures ZIsMember(key, sub) == 1 ==> r == HszTtl(SortedSet, key, sub, false, q)
    {
      if !(ZIsMember(key, sub) == 1) then -2 else HszTtl(SortedSet, key, sub, false, q)
    }

    /** `zpttl(key, member)`: -2 when the member does not exist, otherwise
      `hszTtl` in milliseconds. */
    function ZPTtl(key: string, sub: string, q: TtlQuery): (r: int)
      reads this
      ensures r == -2 <==> !(ZIsMember(key, sub) == 1)
      ensures ZIsMember(key, sub) == 1 ==> r == HszTtl(SortedSet, key, sub, true, q)
    {
      if !(ZIsMember(key, sub) == 1) then -2 else HszTtl(SortedSet, key, sub, true, q)
    }
  }

  /** One iteration of the sweep: processing entry `m` after the entries in
      `done` takes the store, the log and the order to those of `done + {m}`. */
  lemma SweepStep(s0: Store, done: set<string>, order: seq<string>, m: string, e0: seq<Event>)
    requires WellFormedBucket(s0.bucket) && m in s0.bucket && m !in done
    requires Processed(order, done, s0)
    ensures var st := AfterRemovals(s0, done);
            WellFormedBucket(st.bucket) && m in st.bucket && st.bucket[m] == s0.bucket[m]
            && PresentFor(st, m) == PresentFor(s0, m)
            && RemoveChunk(st, m) == AfterRemovals(s0, done + {m})
    ensures var order' := if PresentFor(s0, m) then order + [m] else order;
            Processed(order', done + {m}, s0)
            && e0 + EventsFor(s0.bucket, order')
               == (e0 + EventsFor(s0.bucket, order))
                  + if PresentFor(s0, m) then Emitted(DataOf(m, s0.bucket[m])) else []
  {
    RemoveStep(s0, done, m);
    AfterRemovalsWellFormed(s0, done);
    AfterRemovalsKeeps(s0, done, m);
    ProcessedStep(order, done, s0, m);
    if PresentFor(s0, m) {
      EventsForAppend(s0.bucket, order, m);
      Strings.ConcatAssoc(e0, EventsFor(s0.bucket, order), Emitted(DataOf(m, s0.bucket[m])));
    }
  }

  /** `order` lists, once each, the processed entries whose removal succeeded. */
  ghost predicate Processed(order: seq<string>, done: set<string>, s0: Store)
  {
    NoDup(order) && forall x :: x in order <==> x in done && PresentFor(s0, x)
  }

  lemma ProcessedStep(order: seq<string>, done: set<string>, s0: Store, m: string)
    requires Processed(order, done, s0) && m !in done
    ensures Processed(if PresentFor(s0, m) then order + [m] else order, done + {m}, s0)
  {
  }

  lemma ProcessedIsSwept(order: seq<string>, done: set<string>, s0: Store, ms: int)
    requires Processed(order, done, s0) && done == Due(s0.bucket, ms)
    ensures forall x :: x in order <==> x in Swept(s0, ms)
  {
  }

  lemma AfterRemovalsKeeps(st: Store, done: set<string>, m: string)
    requires m in st.bucket && m !in done
    ensures m in AfterRemovals(st, done).bucket && AfterRemovals(st, done).bucket[m] == st.bucket[m]
  {
  }

  lemma AfterRemovalsWellFormed(st: Store, done: set<string>)
    requires WellFormedBucket(st.bucket)
    ensures WellFormedBucket(AfterRemovals(st, done).bucket)
  {
  }

  lemma {:induction false} EventsForAppend(bucket: map<string, int>, order: seq<string>, m: string)
    ensures EventsFor(bucket, order + [m]) == EventsFor(bucket, order) + Emitted(DataOf(m, Score(bucket, m)))
    decreases |order|
  {
    if |order| > 0 {
      assert (order + [m])[1..] == order[1..] + [m];
      EventsForAppend(bucket, order[1..], m);
    }
  }
}
