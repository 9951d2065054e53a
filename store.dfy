/** The store contents the library reads and changes, and the effect of a
    sweep over the bucket, stated on values. */
module Store {
  import opened Wrappers
  import opened Names
  import Strings

  /** A sub-key: a field of a hash, or a member of a set or sorted set. */
  datatype SubKey = SubKey(key: string, sub: string)

  /** The composite values (hash fields with their values, set members,
      sorted-set members with their scores), the bucket (entry name to
      deadline) and the TTL markers (name to lifetime in milliseconds). */
  datatype Store = Store(
    hashes: map<SubKey, string>,
    sets: set<SubKey>,
    zsets: map<SubKey, int>,
    bucket: map<string, int>,
    markers: map<string, int>)

  /** Whether the sub-key named by (type, key, sub) exists; a type other
      than the three composite types names nothing. */
  predicate Present(st: Store, typ: string, key: string, sub: string)
  {
    if typ == Hash then SubKey(key, sub) in st.hashes
    else if typ == Set then SubKey(key, sub) in st.sets
    else if typ == SortedSet then SubKey(key, sub) in st.zsets
    else false
  }

  /** `hdel`, `srem` or `zrem` of one sub-key, chosen by type; any other
      type leaves the store alone. */
  function Delete(st: Store, typ: string, key: string, sub: string): (r: Store)
    ensures !Present(r, typ, key, sub)
    ensures r.bucket == st.bucket && r.markers == st.markers
    ensures forall t, k, s :: (t, k, s) != (typ, key, sub) ==> Present(r, t, k, s) == Present(st, t, k, s)
    ensures forall p :: p in r.hashes ==> p in st.hashes && r.hashes[p] == st.hashes[p]
    ensures forall p :: p in r.zsets ==> p in st.zsets && r.zsets[p] == st.zsets[p]
    ensures r.sets <= st.sets
  {
    if typ == Hash then st.(hashes := st.hashes - {SubKey(key, sub)})
    else if typ == Set then st.(sets := st.sets - {SubKey(key, sub)})
    else if typ == SortedSet then st.(zsets := st.zsets - {SubKey(key, sub)})
    else st
  }

  /** Whether bucket entry `name` parses to the sub-key (type, key, sub). */
  predicate Targets(name: string, typ: string, key: string, sub: string)
  {
    var c := ParseChunk(name, 0);
    c.typ == typ && c.key == Some(key) && c.field == sub
  }

  /** Whether the sub-key that bucket entry `name` parses to exists, so that
      its removal in the sweep reports success. */
  predicate PresentFor(st: Store, name: string)
  {
    var c := ParseChunk(name, 0);
    c.key.Some? && Present(st, c.typ, c.key.value, c.field)
  }

  /** `removeOneChunk` on values: remove the sub-key an entry names, and
      only when that removal reported success, the entry itself. */
  function RemoveChunk(st: Store, name: string): (r: Store)
    ensures PresentFor(st, name) ==> name !in r.bucket && !PresentFor(r, name)
    ensures !PresentFor(st, name) ==> r == st
  {
    var c := ParseChunk(name, 0);
    if PresentFor(st, name)
    then Delete(st, c.typ, c.key.value, c.field).(bucket := st.bucket - {name})
    else st
  }

  /** Whether a set of processed entries holds the one that names (type, key, sub). */
  predicate Hit(done: set<string>, typ: string, key: string, sub: string)
  {
    ExpireKey(typ, key, sub) in done && Targets(ExpireKey(typ, key, sub), typ, key, sub)
  }

  /** The store after the entries in `done` have each been processed by
      `removeOneChunk`: every sub-key one of them names is gone, and so is
      every one of them whose sub-key existed; the markers are untouched. */
  function AfterRemovals(st: Store, done: set<string>): Store
  {
    Store(
      map p | p in st.hashes && !Hit(done, Hash, p.key, p.sub) :: st.hashes[p],
      set p | p in st.sets && !Hit(done, Set, p.key, p.sub),
      map p | p in st.zsets && !Hit(done, SortedSet, p.key, p.sub) :: st.zsets[p],
      map m | m in st.bucket && !(m in done && PresentFor(st, m)) :: st.bucket[m],
      st.markers)
  }

  /** `zrangebyscore(bucket, 0, ms)`: the entries due at `ms`. */
  function Due(bucket: map<string, int>, ms: int): (due: set<string>)
    ensures forall m :: m in due <==> m in bucket && 0 <= bucket[m] <= ms
  {
    set m | m in bucket && 0 <= bucket[m] <= ms
  }

  /** The due entries whose removal reports success. */
  function Swept(st: Store, ms: int): set<string>
  {
    set m | m in Due(st.bucket, ms) && PresentFor(st, m)
  }

  /** The store after `clearExpired(ms)`. */
  function AfterSweep(st: Store, ms: int): Store
  {
    AfterRemovals(st, Due(st.bucket, ms))
  }

  /** Every bucket entry has the shape `expireKey` writes. */
  ghost predicate WellFormedBucket(bucket: map<string, int>)
  {
    forall m :: m in bucket ==> WellFormedMember(m)
  }

  /** Adding a well-formed entry to the processed set hits exactly the
      sub-key that entry names. */
  lemma HitStep(done: set<string>, m: string)
    requires m !in done && WellFormedMember(m)
    ensures var c := ParseChunk(m, 0);
            c.key.Some? && !Hit(done, c.typ, c.key.value, c.field) &&
            forall t, k, f {:trigger Hit(done + {m}, t, k, f)} ::
              Hit(done + {m}, t, k, f) <==> Hit(done, t, k, f) || (t == c.typ && k == c.key.value && f == c.field)
  {
    RejoinMember(m, 0);
  }

  /** Processing one more well-formed entry extends the processed set: the
      order in which the due entries are processed does not matter. */
  lemma RemoveStep(st: Store, done: set<string>, m: string)
    requires m in st.bucket && m !in done && WellFormedMember(m)
    ensures PresentFor(AfterRemovals(st, done), m) == PresentFor(st, m)
    ensures RemoveChunk(AfterRemovals(st, done), m) == AfterRemovals(st, done + {m})
  {
    var c := ParseChunk(m, 0);
    HitStep(done, m);
    var t, k, f := c.typ, c.key.value, c.field;
    var s1 := AfterRemovals(st, done);
    var rhs := AfterRemovals(st, done + {m});
    assert Present(s1, t, k, f) == Present(st, t, k, f);
    if PresentFor(st, m) {
      var lhs := Delete(s1, t, k, f).(bucket := s1.bucket - {m});
      assert RemoveChunk(s1, m) == lhs;
      HashesStep(st, done, m, t, k, f);
      SetsStep(st, done, m, t, k, f);
      ZsetsStep(st, done, m, t, k, f);
      assert lhs.bucket == rhs.bucket;
    } else {
      assert RemoveChunk(s1, m) == s1;
      assert s1.hashes == rhs.hashes;
      assert s1.sets == rhs.sets;
      assert s1.zsets == rhs.zsets;
      assert s1.bucket == rhs.bucket;
    }
  }

  lemma HashesStep(st: Store, done: set<string>, m: string, t: string, k: string, f: string)
    requires forall t', k', f' {:trigger Hit(done + {m}, t', k', f')} ::
               Hit(done + {m}, t', k', f') <==> Hit(done, t', k', f') || (t' == t && k' == k && f' == f)
    ensures Delete(AfterRemovals(st, done), t, k, f).hashes == AfterRemovals(st, done + {m}).hashes
  {
    var before := AfterRemovals(st, done).hashes;
    var lhs := Delete(AfterRemovals(st, done), t, k, f).hashes;
    var rhs := AfterRemovals(st, done + {m}).hashes;
    assert lhs == if t == Hash then before - {SubKey(k, f)} else before;
    forall p ensures p in lhs <==> p in rhs {
      assert Hit(done + {m}, Hash, p.key, p.sub) <==> Hit(done, Hash, p.key, p.sub) || (Hash == t && p == SubKey(k, f));
    }
    assert lhs.Keys == rhs.Keys;
  }

  lemma SetsStep(st: Store, done: set<string>, m: string, t: string, k: string, f: string)
    requires forall t', k', f' {:trigger Hit(done + {m}, t', k', f')} ::
               Hit(done + {m}, t', k', f') <==> Hit(done, t', k', f') || (t' == t && k' == k && f' == f)
    ensures Delete(AfterRemovals(st, done), t, k, f).sets == AfterRemovals(st, done + {m}).sets
  {
    var before := AfterRemovals(st, done).sets;
    var lhs := Delete(AfterRemovals(st, done), t, k, f).sets;
    var rhs := AfterRemovals(st, done + {m}).sets;
    assert lhs == if t == Set then before - {SubKey(k, f)} else before;
    forall p ensures p in lhs <==> p in rhs {
      assert Hit(done + {m}, Set, p.key, p.sub) <==> Hit(done, Set, p.key, p.sub) || (Set == t && p == SubKey(k, f));
    }
    assert lhs == rhs;
  }

  lemma ZsetsStep(st: Store, done: set<string>, m: string, t: string, k: string, f: string)
    requires forall t', k', f' {:trigger Hit(done + {m}, t', k', f')} ::
               Hit(done + {m}, t', k', f') <==> Hit(done, t', k', f') || (t' == t && k' == k && f' == f)
    ensures Delete(AfterRemovals(st, done), t, k, f).zsets == AfterRemovals(st, done + {m}).zsets
  {
    var before := AfterRemovals(st, done).zsets;
    var lhs := Delete(AfterRemovals(st, done), t, k, f).zsets;
    var rhs := AfterRemovals(st, done + {m}).zsets;
    assert lhs == if t == SortedSet then before - {SubKey(k, f)} else before;
    forall p ensures p in lhs <==> p in rhs {
      assert Hit(done + {m}, SortedSet, p.key, p.sub) <==> Hit(done, SortedSet, p.key, p.sub) || (SortedSet == t && p == SubKey(k, f));
    }
    assert lhs.Keys == rhs.Keys;
  }

  /** An entry swept at `ms` is gone from the bucket, and so is the sub-key
      it names. */
  lemma SweptEntryRemoved(st: Store, ms: int, m: string)
    requires WellFormedMember(m) && m in Swept(st, ms)
    ensures m !in AfterSweep(st, ms).bucket
    ensures !PresentFor(AfterSweep(st, ms), m)
  {
    var c := ParseChunk(m, 0);
    RejoinMember(m, 0);
    assert Hit(Due(st.bucket, ms), c.typ, c.key.value, c.field);
  }

  /** A due entry whose removal reports nothing stays in the bucket with
      its deadline: the index entry outlives its sub-key. */
  lemma NoOpEntryKept(st: Store, ms: int, m: string)
    requires m in Due(st.bucket, ms) && !PresentFor(st, m)
    ensures m in AfterSweep(st, ms).bucket && AfterSweep(st, ms).bucket[m] == st.bucket[m]
  {
  }

  /** A due entry deletes the sub-key it names, whether or not that sub-key
      existed when the entry was written. With `NoOpEntryKept`: an entry
      leaked by a no-op removal deletes the field or member once the
      application re-creates it, with the old deadline as `expiredAt`. */
  lemma DueEntryClearsSubKey(st: Store, ms: int, typ: string, key: string, field: string)
    requires ':' !in typ && ':' !in key
    requires ExpireKey(typ, key, field) in Due(st.bucket, ms)
    ensures !Present(AfterSweep(st, ms), typ, key, field)
    ensures Present(st, typ, key, field) ==> ExpireKey(typ, key, field) !in AfterSweep(st, ms).bucket
  {
    ParseExpireKey(typ, key, field, 0);
    assert Hit(Due(st.bucket, ms), typ, key, field);
  }

  /** Entries not due at `ms` keep their deadlines. */
  lemma NotDueKept(st: Store, ms: int, m: string)
    requires m in st.bucket && !(0 <= st.bucket[m] <= ms)
    ensures m in AfterSweep(st, ms).bucket && AfterSweep(st, ms).bucket[m] == st.bucket[m]
  {
  }

  /** No entry name targets a key containing ':', since the parsed key is a
      single ':'-segment. */
  lemma NoTargetWithColonKey(name: string, t: string, k: string, f: string)
    requires ':' in k
    ensures !Targets(name, t, k, f)
  {
    Strings.SplitPartsFree(name, ':');
  }

  /** A field or member of a key containing ':' is never removed by a sweep,
      whatever the bucket holds. */
  lemma ColonKeyNeverSwept(st: Store, ms: int, k: string, f: string)
    requires ':' in k
    ensures SubKey(k, f) in AfterSweep(st, ms).hashes <==> SubKey(k, f) in st.hashes
    ensures SubKey(k, f) in AfterSweep(st, ms).sets <==> SubKey(k, f) in st.sets
    ensures SubKey(k, f) in AfterSweep(st, ms).zsets <==> SubKey(k, f) in st.zsets
  {
    NoTargetWithColonKey(ExpireKey(Hash, k, f), Hash, k, f);
    NoTargetWithColonKey(ExpireKey(Set, k, f), Set, k, f);
    NoTargetWithColonKey(ExpireKey(SortedSet, k, f), SortedSet, k, f);
  }

  /** Instead, once the entry for field `f` of hash `k1:k2` is due, the sweep
      deletes field `k2:f` of hash `k1`, whether or not `f` exists. */
  lemma ColonKeySweepsOtherField(st: Store, ms: int, k1: string, k2: string, f: string)
    requires ':' !in k1
    requires ExpireKey(Hash, k1 + ":" + k2, f) in Due(st.bucket, ms)
    ensures SubKey(k1, k2 + ":" + f) !in AfterSweep(st, ms).hashes
  {
    ColonKeyNameCollides(Hash, k1, k2, f);
    ParseExpireKey(Hash, k1, k2 + ":" + f, 0);
    assert Hit(Due(st.bucket, ms), Hash, k1, k2 + ":" + f);
  }

  /** A sweep only removes: no entry, sub-key or value is added or changed. */
  lemma SweepOnlyRemoves(st: Store, ms: int)
    ensures AfterSweep(st, ms).bucket.Keys <= st.bucket.Keys
    ensures forall m :: m in AfterSweep(st, ms).bucket ==> AfterSweep(st, ms).bucket[m] == st.bucket[m]
    ensures AfterSweep(st, ms).hashes.Keys <= st.hashes.Keys
    ensures AfterSweep(st, ms).sets <= st.sets
    ensures AfterSweep(st, ms).zsets.Keys <= st.zsets.Keys
    ensures AfterSweep(st, ms).markers == st.markers
    ensures forall p :: p in AfterSweep(st, ms).hashes ==> AfterSweep(st, ms).hashes[p] == st.hashes[p]
    ensures forall p :: p in AfterSweep(st, ms).zsets ==> AfterSweep(st, ms).zsets[p] == st.zsets[p]
  {
  }

  /** What an expiry event carries: `{type, key, field|member, expiredAt}`. */
  datatype Expired = Expired(typ: string, key: string, sub: string, expiredAt: int)

  /** The type-specific events `hexpired`, `sexpired`, `zexpired` and the
      generic `expired`. */
  datatype Event = HExpired(data: Expired) | SExpired(data: Expired) | ZExpired(data: Expired) | AnyExpired(data: Expired)

  /** The data of the events for bucket entry `name` with deadline `score`. */
  function DataOf(name: string, score: int): (d: Expired)
    ensures d.expiredAt == score
    ensures WellFormedMember(name) ==> ExpireKey(d.typ, d.key, d.sub) == name
  {
    var c := ParseChunk(name, score);
    var d := Expired(c.typ, if c.key.Some? then c.key.value else "", c.field, score);
    if WellFormedMember(name) then RejoinMember(name, score); d else d
  }

  /** The payload of the entry `expireKey(type, key, field)` carries exactly
      that type, key and field, for a type and key without ':'. */
  lemma DataOfExpireKey(typ: string, key: string, field: string, score: int)
    requires ':' !in typ && ':' !in key
    ensures DataOf(ExpireKey(typ, key, field), score) == Expired(typ, key, field, score)
  {
    ParseExpireKey(typ, key, field, score);
  }

  /** The events one successful removal emits, the type-specific one first. */
  function Emitted(d: Expired): seq<Event>
  {
    (if d.typ == Hash then [HExpired(d)]
     else if d.typ == Set then [SExpired(d)]
     else if d.typ == SortedSet then [ZExpired(d)]
     else [])
    + [AnyExpired(d)]
  }

  function Score(bucket: map<string, int>, m: string): int
  {
    if m in bucket then bucket[m] else 0
  }

  /** The events of a sweep that removed the entries of `order`, in that order. */
  function EventsFor(bucket: map<string, int>, order: seq<string>): seq<Event>
  {
    if |order| == 0 then []
    else Emitted(DataOf(order[0], Score(bucket, order[0]))) + EventsFor(bucket, order[1..])
  }

  predicate NoDup(s: seq<string>)
  {
    forall i, j :: 0 <= i < j < |s| ==> s[i] != s[j]
  }

  /** `log` is what a sweep at `ms` emits: the events of every swept entry,
      each entry once, in some order. */
  ghost predicate SweptLog(log: seq<Event>, st: Store, ms: int)
  {
    exists order: seq<string> ::
      NoDup(order) && (forall m :: m in order <==> m in Swept(st, ms)) && log == EventsFor(st.bucket, order)
  }

  /** Events of distinct well-formed entries carry distinct data. */
  lemma DataInjective(m1: string, s1: int, m2: string, s2: int)
    requires WellFormedMember(m1) && WellFormedMember(m2)
    requires DataOf(m1, s1) == DataOf(m2, s2)
    ensures m1 == m2
  {
    RejoinMember(m1, 0);
    RejoinMember(m2, 0);
    MemberInjective(m1, m2);
  }

  /** Every event of `Emitted(d)` carries `d`, and occurs in it once. */
  lemma EmittedOnce(d: Expired, ev: Event)
    ensures ev in Emitted(d) ==> ev.data == d && multiset(Emitted(d))[ev] == 1
    ensures ev.data != d ==> multiset(Emitted(d))[ev] == 0
  {
  }

  /** An entry not in `order` has no event in the log. */
  lemma {:induction false} NoEventsForOthers(bucket: map<string, int>, order: seq<string>, m: string, ev: Event)
    requires WellFormedMember(m) && forall x :: x in order ==> WellFormedMember(x)
    requires m !in order && ev.data == DataOf(m, Score(bucket, m))
    ensures multiset(EventsFor(bucket, order))[ev] == 0
  {
    if |order| > 0 {
      var d := DataOf(order[0], Score(bucket, order[0]));
      EmittedOnce(d, ev);
      NoEventsForOthers(bucket, order[1..], m, ev);
      assert EventsFor(bucket, order) == Emitted(d) + EventsFor(bucket, order[1..]);
    }
  }

  /** Each entry of a sweep's order gets each of its events (the
      type-specific one and the generic `expired`) exactly once. */
  lemma {:induction false} OneEventPerEntry(bucket: map<string, int>, order: seq<string>, m: string, ev: Event)
    requires forall x :: x in order ==> WellFormedMember(x)
    requires NoDup(order) && m in order
    requires ev.data == DataOf(m, Score(bucket, m)) && ev in Emitted(ev.data)
    ensures multiset(EventsFor(bucket, order))[ev] == 1
  {
    var d := DataOf(order[0], Score(bucket, order[0]));
    assert EventsFor(bucket, order) == Emitted(d) + EventsFor(bucket, order[1..]);
    EmittedOnce(d, ev);
    if order[0] == m {
      assert m !in order[1..] by {
        forall j | 0 <= j < |order[1..]| ensures order[1..][j] != m {
          assert order[1..][j] == order[j + 1];
        }
      }
      NoEventsForOthers(bucket, order[1..], m, ev);
    } else {
      assert NoDup(order[1..]) by {
        forall i, j | 0 <= i < j < |order[1..]| ensures order[1..][i] != order[1..][j] {
          assert order[1..][i] == order[i + 1] && order[1..][j] == order[j + 1];
        }
      }
      OneEventPerEntry(bucket, order[1..], m, ev);
    }
  }
}
