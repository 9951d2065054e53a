/** The key-naming scheme: the name of an expiry entry in the bucket, the
    name of its TTL marker, and `parseChunk`, which reads an entry back. */
module Names {
  import opened Wrappers
  import opened Strings

  /** The one sorted set that holds every expiry entry. */
  const Bucket: string := "__redis-extend"

  /** The composite types, as spelled inside entry names. */
  const Hash: string := "hash"
  const Set: string := "set"
  const SortedSet: string := "zset"

  /** `expireKey(type, key, field)`: the bucket member for one sub-key. */
  function ExpireKey(typ: string, key: string, field: string): (name: string)
    ensures |name| == |typ| + |key| + |field| + 2
  {
    typ + ":" + key + ":" + field
  }

  /** `keyTTL(type, key, field)`: the name of the TTL marker, which is the
      bucket name, the tag `ttl`, and the bucket member of the same sub-key. */
  function KeyTtl(typ: string, key: string, field: string): (r: string)
    ensures r == Bucket + ":ttl:" + ExpireKey(typ, key, field)
    ensures |r| > |Bucket|
  {
    Bucket + ":ttl:" + typ + ":" + key + ":" + field
  }

  /** What `parseChunk([name, score])` returns. `key` is absent when the
      name holds no ':' at all (JavaScript's `undefined`). */
  datatype Chunk = Chunk(zMemberName: string, typ: string, key: Option<string>, field: string, value: int)

  /** `parseChunk`: the type is the first ':'-segment, the key the second,
      and the field all remaining segments joined back with ':'. */
  function ParseChunk(name: string, score: int): (c: Chunk)
    ensures c.zMemberName == name && c.value == score
  {
    var parts := Split(name, ':');
    Chunk(name, parts[0],
          if |parts| > 1 then Some(parts[1]) else None,
          Join(if |parts| > 2 then parts[2..] else [], ':'),
          score)
  }

  /** The type, and the key when there is one, are single segments; the key
      is missing exactly when the name has no ':', and the type is then the
      whole name and the field empty. */
  lemma ParseChunkShape(name: string, score: int)
    ensures var c := ParseChunk(name, score);
            && ':' !in c.typ && (c.key.Some? ==> ':' !in c.key.value)
            && (c.key.None? <==> ':' !in name)
            && (c.key.None? ==> c.typ == name && c.field == "")
  {
    SplitPartsFree(name, ':');
  }

  /** A bucket member of the shape `expireKey` writes: at least three segments. */
  predicate WellFormedMember(name: string)
  {
    |Split(name, ':')| >= 3
  }

  /** The name `expireKey` writes, regrouped around its first separator. */
  lemma ExpireKeyShape(typ: string, key: string, field: string)
    ensures ExpireKey(typ, key, field) == typ + [':'] + (key + [':'] + field)
  {
  }

  /** The entry name holds exactly two separators more than its three
      parts hold together. */
  lemma ExpireKeySeparators(typ: string, key: string, field: string)
    ensures multiset(ExpireKey(typ, key, field))[':']
            == multiset(typ)[':'] + multiset(key)[':'] + multiset(field)[':'] + 2
  {
    ExpireKeyShape(typ, key, field);
    var rest := key + [':'] + field;
    assert multiset(typ + [':'] + rest) == multiset(typ) + multiset([':']) + multiset(rest);
    assert multiset(rest) == multiset(key) + multiset([':']) + multiset(field);
  }

  /** Naming round trip: type and key without ':' come back unchanged, and
      the field comes back whole even when it contains ':'. */
  lemma ParseExpireKey(typ: string, key: string, field: string, score: int)
    requires ':' !in typ && ':' !in key
    ensures ParseChunk(ExpireKey(typ, key, field), score)
            == Chunk(ExpireKey(typ, key, field), typ, Some(key), field, score)
  {
    var name := ExpireKey(typ, key, field);
    var rest := key + [':'] + field;
    ExpireKeyShape(typ, key, field);
    SplitAppend(typ, rest, ':');
    SplitAppend(key, field, ':');
    assert Split(name, ':') == [typ] + ([key] + Split(field, ':'));
    ParseSegments(name, score, typ, key, field);
  }

  /** `parseChunk` of a name that splits into `typ`, `key` and then the
      segments of `field`. */
  lemma ParseSegments(name: string, score: int, typ: string, key: string, field: string)
    requires Split(name, ':') == [typ] + ([key] + Split(field, ':'))
    ensures ParseChunk(name, score) == Chunk(name, typ, Some(key), field, score)
  {
    var parts := Split(name, ':');
    assert parts[0] == typ && parts[1] == key && parts[2..] == Split(field, ':');
    JoinSplit(field, ':');
  }

  /** Every name `expireKey` writes is well formed, whatever its parts hold. */
  lemma ExpireKeyWellFormed(typ: string, key: string, field: string)
    ensures WellFormedMember(ExpireKey(typ, key, field))
  {
    var name := ExpireKey(typ, key, field);
    assert name == typ + [':'] + (key + [':'] + field);
    SplitConcat(typ, key + [':'] + field, ':');
    SplitConcat(key, field, ':');
  }

  /** Re-joining what `parseChunk` reads from a well-formed name gives the
      name back, so a well-formed name is determined by its parsed
      (type, key, field). */
  lemma RejoinMember(name: string, score: int)
    requires WellFormedMember(name)
    ensures var c := ParseChunk(name, score);
            c.key.Some? && ExpireKey(c.typ, c.key.value, c.field) == name
  {
    var parts := Split(name, ':');
    var tail := parts[1..];
    var a, b, c := parts[0], parts[1], Join(parts[2..], ':');
    assert tail[1..] == parts[2..];
    assert Join(tail, ':') == b + [':'] + c;
    assert Join(parts, ':') == a + [':'] + (b + [':'] + c);
    ExpireKeyShape(a, b, c);
    JoinSplit(name, ':');
    ParseSegmentsOf(name, score);
  }

  /** What `parseChunk` reads from a name with at least three segments. */
  lemma ParseSegmentsOf(name: string, score: int)
    requires WellFormedMember(name)
    ensures var parts, c := Split(name, ':'), ParseChunk(name, score);
            c.typ == parts[0] && c.key == Some(parts[1]) && c.field == Join(parts[2..], ':')
  {
  }

  /** Two well-formed names that parse to the same sub-key are equal. */
  lemma MemberInjective(m1: string, m2: string)
    requires WellFormedMember(m1) && WellFormedMember(m2)
    requires var c1, c2 := ParseChunk(m1, 0), ParseChunk(m2, 0);
             c1.typ == c2.typ && c1.key == c2.key && c1.field == c2.field
    ensures m1 == m2
  {
    RejoinMember(m1, 0);
    RejoinMember(m2, 0);
  }

  /** A key containing ':' is read back wrongly: the part of the key after
      its first ':' is taken to belong to the field. */
  lemma ColonInKeyMisparsed(typ: string, k1: string, k2: string, field: string)
    requires ':' !in typ && ':' !in k1
    ensures var c := ParseChunk(ExpireKey(typ, k1 + ":" + k2, field), 0);
            c.key == Some(k1) && c.field == k2 + ":" + field
  {
    ColonKeyNameCollides(typ, k1, k2, field);
    ParseExpireKey(typ, k1, k2 + ":" + field, 0);
  }

  /** The entry names of field `f` of key `k1:k2` and of field `k2:f` of key
      `k1` are the same string. */
  lemma ColonKeyNameCollides(typ: string, k1: string, k2: string, f: string)
    ensures ExpireKey(typ, k1 + ":" + k2, f) == ExpireKey(typ, k1, k2 + ":" + f)
  {
    var key, f' := k1 + ":" + k2, k2 + ":" + f;
    assert key + ":" + f == k1 + ":" + f';
    assert ExpireKey(typ, key, f) == typ + ":" + (key + ":" + f);
    assert ExpireKey(typ, k1, f') == typ + ":" + (k1 + ":" + f');
  }

  /** For instance, the entry for field `name` of hash `user:1` is read as
      field `1:name` of hash `user`. */
  lemma ColonInKeyExample()
    ensures var c := ParseChunk(ExpireKey(Hash, "user:1", "name"), 0);
            c.key == Some("user") && c.field == "1:name"
  {
    assert "user:1" == "user" + ":" + "1";
    assert ':' !in Hash && ':' !in "user";
    ColonInKeyMisparsed(Hash, "user", "1", "name");
  }
}
