/** The sweep scheduler's state and what `runExpire` and `addExpire` do to
    it, stated as relations between the state before and after a call. */
module Schedule {
  import opened Wrappers
  import opened Names
  import opened Clock
  import opened Store

  /** A command's reply: an integer, or a rejected promise. */
  datatype Reply = Int(value: int) | Failure

  /** The instance state: the store, the scheduler fields `isRunning` and
      `nextRemoveAt`, the pending timer `fnTimeOutExpire` (recorded as the
      delay it was armed with, or None once cleared), and the events emitted
      so far. */
  datatype State = State(store: Store, isRunning: bool, nextRemoveAt: int, timer: Option<nat>, events: seq<Event>)

  /** Whether the bucket holds an entry with a deadline of 0 or later, which
      is what `zrangebyscore(bucket, 0, '+inf')` can return. */
  ghost predicate HasDeadline(bucket: map<string, int>)
  {
    exists m :: m in bucket && bucket[m] >= 0
  }

  /** `v` is the earliest deadline of 0 or later in the bucket. */
  ghost predicate IsEarliest(bucket: map<string, int>, v: int)
  {
    && v >= 0
    && (exists m :: m in bucket && bucket[m] == v)
    && forall m :: m in bucket && bucket[m] >= 0 ==> v <= bucket[m]
  }

  /** `Math.max(deadline - now, 0)`. */
  function Delay(deadline: int, now: int): (d: nat)
    ensures d >= deadline - now
    ensures d == 0 || d == deadline - now
  {
    if deadline - now > 0 then deadline - now else 0
  }

  /** A deadline written and a delay computed under the same timezone offset
      give the delay the epoch times alone give: the offset cancels. */
  lemma DelayIgnoresOffset(t0: int, amount: int, isMs: bool, t: int, tz: int)
    ensures Delay(ExpiredAt(Clock(t0, tz), amount, isMs), ConvertToGMT0(Clock(t, tz)))
            == Delay(t0 + DurationMs(amount, isMs), t)
  {
    ElapsedIgnoresOffset(t0, t, tz);
  }

  /** `stopRunExpire`: clear the timer, mark not running, forget the deadline. */
  function Stopped(s: State): (r: State)
    ensures r.timer == None && !r.isRunning && r.nextRemoveAt == -1
    ensures r.store == s.store && r.events == s.events
  {
    s.(isRunning := false, nextRemoveAt := -1, timer := None)
  }

  /** `runExpire` at the converted time `now`, from state `b` to state `a`.
      While a sweep is running nothing changes. Otherwise the due entries
      are swept, their events appended, `isRunning` is false at the end, and
      either the timer is armed for the earliest remaining deadline (which
      becomes `nextRemoveAt`), or, with no deadline left, the timer is
      cleared and `nextRemoveAt` keeps its old value. */
  ghost predicate Ran(b: State, a: State, now: int)
  {
    if b.isRunning then a == b
    else
      && a.store == AfterSweep(b.store, now)
      && !a.isRunning
      && |a.events| >= |b.events| && a.events[..|b.events|] == b.events
      && SweptLog(a.events[|b.events|..], b.store, now)
      && if HasDeadline(a.store.bucket)
         then IsEarliest(a.store.bucket, a.nextRemoveAt) && a.timer == Some(Delay(a.nextRemoveAt, now))
         else a.timer == None && a.nextRemoveAt == b.nextRemoveAt
  }

  /** `addExpire(type, key, field, amount, ..., isMs)` from `b` to `a` with
      reply `r`, the deadline computed from the reading `clock` (line 61) and
      the run that follows it sweeping at the later reading `runClock`
      (lines 193 and 232, taken after the store round trips). The entry's
      deadline is written (overwriting any earlier one); if the scheduled
      wake-up is later than the new deadline the scheduler is stopped; a
      non-positive amount is then refused by the store when the marker is
      written; otherwise the marker is written, `runExpire` runs, and the
      reply is 1. */
  ghost predicate Added(b: State, a: State, typ: string, key: string, field: string,
                        amount: int, isMs: bool, clock: Clock, runClock: Clock, r: Reply)
  {
    var at := ExpiredAt(clock, amount, isMs);
    var indexed := b.(store := b.store.(bucket := b.store.bucket[ExpireKey(typ, key, field) := at]));
    var s1 := if b.nextRemoveAt > at then Stopped(indexed) else indexed;
    if amount <= 0 then r == Failure && a == s1
    else
      var marked := s1.(store := s1.store.(markers := s1.store.markers[KeyTtl(typ, key, field) := MarkerTtl(amount, isMs)]));
      r == Int(1) && Ran(marked, a, ConvertToGMT0(runClock))
  }

  /** After a run, the armed delay is never negative and the wake-up is at
      the earliest remaining deadline. */
  lemma RanArmsForEarliest(b: State, a: State, now: int)
    requires !b.isRunning && Ran(b, a, now)
    ensures a.timer.Some? <==> HasDeadline(a.store.bucket)
    ensures a.timer.Some? ==> a.timer.value == Delay(a.nextRemoveAt, now) && a.nextRemoveAt >= 0
    ensures !a.isRunning
  {
  }

  /** An entry that is due but whose sub-key is already gone stays in the
      bucket, so the next wake-up is armed with delay 0: the scheduler keeps
      re-running at once for as long as such an entry exists. */
  lemma LeakedEntryReArmsAtOnce(b: State, a: State, now: int, m: string)
    requires !b.isRunning && Ran(b, a, now)
    requires m in Due(b.store.bucket, now) && !PresentFor(b.store, m)
    ensures m in a.store.bucket && a.store.bucket[m] == b.store.bucket[m]
    ensures a.timer == Some(0)
  {
    NoOpEntryKept(b.store, now, m);
    assert HasDeadline(a.store.bucket);
  }

  /** After `addExpire` with a positive amount and a deadline that is not
      yet due at the run's reading, the entry holds the new deadline,
      whatever deadline it had before (last write wins). */
  lemma AddedLastWriteWins(b: State, a: State, typ: string, key: string, field: string,
                           amount: int, isMs: bool, clock: Clock, runClock: Clock, r: Reply)
    requires amount > 0 && Added(b, a, typ, key, field, amount, isMs, clock, runClock, r)
    requires !(0 <= ExpiredAt(clock, amount, isMs) <= ConvertToGMT0(runClock))
    ensures r == Int(1)
    ensures ExpireKey(typ, key, field) in a.store.bucket
    ensures a.store.bucket[ExpireKey(typ, key, field)] == ExpiredAt(clock, amount, isMs)
  {
    var at := ExpiredAt(clock, amount, isMs);
    var name := ExpireKey(typ, key, field);
    var indexed := b.(store := b.store.(bucket := b.store.bucket[name := at]));
    var s1 := if b.nextRemoveAt > at then Stopped(indexed) else indexed;
    var marked := s1.(store := s1.store.(markers := s1.store.markers[KeyTtl(typ, key, field) := MarkerTtl(amount, isMs)]));
    if !marked.isRunning {
      NotDueKept(marked.store, ConvertToGMT0(runClock), name);
    }
  }

  /** When the store round trips before the run take at least the duration
      (`hpexpire(k, f, 1)`, say), the run that `addExpire` starts already
      finds the new entry due: with no sweep in flight and the sub-key
      present, it deletes the sub-key, drops the entry and emits each of
      the entry's two events exactly once, carrying the new deadline. */
  lemma AddedSweptAtOnce(b: State, a: State, typ: string, key: string, field: string,
                         amount: int, isMs: bool, clock: Clock, runClock: Clock, r: Reply, ev: Event)
    requires amount > 0 && Added(b, a, typ, key, field, amount, isMs, clock, runClock, r)
    requires !b.isRunning && WellFormedBucket(b.store.bucket)
    requires ':' !in typ && ':' !in key && Present(b.store, typ, key, field)
    requires 0 <= ExpiredAt(clock, amount, isMs) <= ConvertToGMT0(runClock)
    requires ev in Emitted(Expired(typ, key, field, ExpiredAt(clock, amount, isMs)))
    ensures r == Int(1)
    ensures ExpireKey(typ, key, field) !in a.store.bucket && !Present(a.store, typ, key, field)
    ensures multiset(a.events[|b.events|..])[ev] == 1
  {
    var at := ExpiredAt(clock, amount, isMs);
    var name := ExpireKey(typ, key, field);
    var indexed := b.(store := b.store.(bucket := b.store.bucket[name := at]));
    var s1 := if b.nextRemoveAt > at then Stopped(indexed) else indexed;
    var marked := s1.(store := s1.store.(markers := s1.store.markers[KeyTtl(typ, key, field) := MarkerTtl(amount, isMs)]));
    ExpireKeyWellFormed(typ, key, field);
    assert WellFormedBucket(marked.store.bucket);
    assert marked.events == b.events;
    DueEntrySwept(marked, a, ConvertToGMT0(runClock), typ, key, field, ev);
  }

  /** A run that finds the entry of a present sub-key due deletes the
      sub-key, drops the entry and emits each of its two events once. */
  lemma DueEntrySwept(b: State, a: State, now: int, typ: string, key: string, field: string, ev: Event)
    requires !b.isRunning && Ran(b, a, now) && WellFormedBucket(b.store.bucket)
    requires ':' !in typ && ':' !in key && Present(b.store, typ, key, field)
    requires ExpireKey(typ, key, field) in Due(b.store.bucket, now)
    requires ev in Emitted(Expired(typ, key, field, b.store.bucket[ExpireKey(typ, key, field)]))
    ensures ExpireKey(typ, key, field) !in a.store.bucket && !Present(a.store, typ, key, field)
    ensures multiset(a.events[|b.events|..])[ev] == 1
  {
    var name := ExpireKey(typ, key, field);
    ParseExpireKey(typ, key, field, 0);
    assert name in Swept(b.store, now);
    DataOfExpireKey(typ, key, field, b.store.bucket[name]);
    SweptEntryOutcome(b, a, now, name, ev);
  }

  /** `addExpire` leaves every other entry that is not due at the run's
      reading alone, and adds no other entry. */
  lemma AddedKeepsOthers(b: State, a: State, typ: string, key: string, field: string,
                         amount: int, isMs: bool, clock: Clock, runClock: Clock, r: Reply, m: string)
    requires Added(b, a, typ, key, field, amount, isMs, clock, runClock, r)
    requires m != ExpireKey(typ, key, field)
    ensures m in a.store.bucket ==> m in b.store.bucket && a.store.bucket[m] == b.store.bucket[m]
    ensures m in b.store.bucket && !(0 <= b.store.bucket[m] <= ConvertToGMT0(runClock))
            ==> m in a.store.bucket && a.store.bucket[m] == b.store.bucket[m]
  {
    var at := ExpiredAt(clock, amount, isMs);
    var indexed := b.(store := b.store.(bucket := b.store.bucket[ExpireKey(typ, key, field) := at]));
    var s1 := if b.nextRemoveAt > at then Stopped(indexed) else indexed;
    if amount > 0 {
      var marked := s1.(store := s1.store.(markers := s1.store.markers[KeyTtl(typ, key, field) := MarkerTtl(amount, isMs)]));
      if !marked.isRunning {
        SweepOnlyRemoves(marked.store, ConvertToGMT0(runClock));
        if m in b.store.bucket && !(0 <= b.store.bucket[m] <= ConvertToGMT0(runClock)) {
          NotDueKept(marked.store, ConvertToGMT0(runClock), m);
        }
      }
    }
  }

  /** When no sweep is in flight, or the scheduled wake-up is later than the
      new deadline, `addExpire` with a positive amount and a deadline still
      ahead of the run's reading leaves the timer armed no later than the
      new deadline. */
  lemma AddedWakesInTime(b: State, a: State, typ: string, key: string, field: string,
                         amount: int, isMs: bool, clock: Clock, runClock: Clock, r: Reply)
    requires amount > 0 && ExpiredAt(clock, amount, isMs) > ConvertToGMT0(runClock)
    requires ExpiredAt(clock, amount, isMs) >= 0
    requires !b.isRunning || b.nextRemoveAt > ExpiredAt(clock, amount, isMs)
    requires Added(b, a, typ, key, field, amount, isMs, clock, runClock, r)
    ensures a.timer == Some(Delay(a.nextRemoveAt, ConvertToGMT0(runClock)))
    ensures 0 <= a.nextRemoveAt <= ExpiredAt(clock, amount, isMs)
  {
    AddedLastWriteWins(b, a, typ, key, field, amount, isMs, clock, runClock, r);
    var name := ExpireKey(typ, key, field);
    assert a.store.bucket[name] >= 0;
    assert HasDeadline(a.store.bucket);
  }

  /** For every entry a run sweeps: the entry and its sub-key are gone, and
      the run emitted each of the entry's two events (type-specific and
      generic, carrying type, key, field or member, and the deadline)
      exactly once. */
  lemma SweptEntryOutcome(b: State, a: State, now: int, m: string, ev: Event)
    requires !b.isRunning && Ran(b, a, now) && WellFormedBucket(b.store.bucket)
    requires m in Swept(b.store, now)
    requires ev.data == DataOf(m, b.store.bucket[m]) && ev in Emitted(ev.data)
    ensures m !in a.store.bucket && !PresentFor(a.store, m)
    ensures multiset(a.events[|b.events|..])[ev] == 1
  {
    SweptEntryRemoved(b.store, now, m);
    var order: seq<string> :| NoDup(order) && (forall x :: x in order <==> x in Swept(b.store, now))
                              && a.events[|b.events|..] == EventsFor(b.store.bucket, order);
    OneEventPerEntry(b.store.bucket, order, m, ev);
  }

  /** An entry written at epoch time `t0` under offset `tz1` and swept at
      epoch time `t` under offset `tz2` (a daylight-saving change, say) is
      due exactly when `t - t0` reaches its duration plus `(tz1 - tz2)`
      minutes: the sweep runs that much early or late. */
  lemma OffsetChangeShiftsDue(bucket: map<string, int>, m: string, t0: int, tz1: int,
                              amount: int, isMs: bool, t: int, tz2: int)
    requires m in bucket && bucket[m] == ExpiredAt(Clock(t0, tz1), amount, isMs) && bucket[m] >= 0
    ensures m in Due(bucket, ConvertToGMT0(Clock(t, tz2)))
            <==> t - t0 >= DurationMs(amount, isMs) + (tz1 - tz2) * 60000
  {
    OffsetChangeShifts(t, tz1, tz2);
  }
}
