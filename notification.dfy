/** `parseMessage`: reading a keyspace-notification channel name such as
    `__keyspace@0__:mykey` or `__keyevent@0__:del`. */
module Notification {
  import opened Strings

  datatype Body =
    | KeyCommand(key: string, command: string)   // a `keyspace` channel: the key, and the command in the message
    | EventKey(event: string, key: string)       // any other channel: the event, and the key in the message

  datatype Notification = Notification(channel: string, db: Num, body: Body)

  /** The parse fails (JavaScript throws a TypeError) when the channel has
      no '@', or nothing after the '@' contains a ':'. */
  datatype Parsed = Parsed(note: Notification) | TypeError

  function ParseMessage(str: string, msg: string): (r: Parsed)
    ensures '@' !in str ==> r == TypeError
    ensures r.Parsed? ==> '_' !in r.note.channel
    ensures r.Parsed? && r.note.channel == "keyspace" ==> r.note.body.KeyCommand? && r.note.body.command == msg
    ensures r.Parsed? && r.note.channel != "keyspace" ==> r.note.body.EventKey? && r.note.body.key == msg
  {
    var atParts := Split(str, '@');
    if |atParts| < 2 then TypeError
    else
      var channel := RemoveAll(atParts[0], '_');
      var colonParts := Split(atParts[1], ':');
      if |colonParts| < 2 then TypeError
      else
        var db := Number(RemoveAll(colonParts[0], '_'));
        var key := RemoveAll(colonParts[1], '_');
        Parsed(Notification(channel, db,
          if channel == "keyspace" then KeyCommand(key, msg) else EventKey(key, msg)))
  }

  /** A channel name `__<kind>@<db>__:<key>` as the store publishes it. */
  function ChannelName(kind: string, db: string, key: string): string
  {
    "__" + kind + "@" + db + "__:" + key
  }

  /** Reading a channel name: the kind and the database number come back,
      and the key is what follows `__:` up to its first '@' and then up to
      its first ':', without its underscores. */
  lemma ParseChannelName(kind: string, db: string, key: string, msg: string)
    requires '_' !in kind && '@' !in kind
    requires IsDigits(db)
    ensures var k := RemoveAll(Split(Split(key, '@')[0], ':')[0], '_');
            ParseMessage(ChannelName(kind, db, key), msg)
            == Parsed(Notification(kind, Finite(DecimalValue(db)),
                 if kind == "keyspace" then KeyCommand(k, msg) else EventKey(k, msg)))
  {
    AtPartsOfChannel(kind, db, key);
    var k0 := Split(key, '@')[0];
    ColonPartsOfRest(db, k0);
    UnderscoresOfChannel(kind, db);
  }

  /** Splitting a channel name at '@': the `__kind` part, then the db part and
      the key up to its first '@'. */
  lemma AtPartsOfChannel(kind: string, db: string, key: string)
    requires '@' !in kind && IsDigits(db)
    ensures var parts := Split(ChannelName(kind, db, key), '@');
            |parts| >= 2 && parts[0] == "__" + kind && parts[1] == db + "__:" + Split(key, '@')[0]
  {
    var head, prefix := "__" + kind, db + "__:";
    var rest := prefix + key;
    assert ChannelName(kind, db, key) == head + ['@'] + rest;
    assert forall i :: 0 <= i < |db| ==> db[i] != '@';
    assert '@' !in prefix;
    SplitAppend(head, rest, '@');
    SplitFirst(prefix, key, '@');
  }

  /** Splitting what follows the '@' at ':': the `db__` part, then the key up
      to its first ':'. */
  lemma ColonPartsOfRest(db: string, k0: string)
    requires IsDigits(db)
    ensures var parts := Split(db + "__:" + k0, ':');
            |parts| >= 2 && parts[0] == db + "__" && parts[1] == Split(k0, ':')[0]
  {
    var dbPart := db + "__";
    assert forall i :: 0 <= i < |db| ==> db[i] != ':';
    assert ':' !in dbPart;
    assert db + "__:" + k0 == dbPart + [':'] + k0;
    SplitAppend(dbPart, k0, ':');
  }

  /** Removing the underscores around the kind and the db number. */
  lemma UnderscoresOfChannel(kind: string, db: string)
    requires '_' !in kind && IsDigits(db)
    ensures RemoveAll("__" + kind, '_') == kind && RemoveAll(db + "__", '_') == db
  {
    assert forall i :: 0 <= i < |db| ==> db[i] != '_';
    RemoveAllConcat("__", kind, '_');
    RemoveAllAbsent(kind, '_');
    assert RemoveAll("__", '_') == "";
    RemoveAllConcat(db, "__", '_');
    RemoveAllAbsent(db, '_');
  }

  /** `parseMessage('__keyspace@D__:K', m)` for a key without ':' or '@'
      gives the database D, the key K without underscores, and the command
      m; a `keyevent` channel gives the event and the key in m. */
  lemma ParseChannel(kind: string, db: string, key: string, msg: string)
    requires '_' !in kind && '@' !in kind
    requires IsDigits(db)
    requires ':' !in key && '@' !in key
    ensures ParseMessage(ChannelName(kind, db, key), msg)
            == Parsed(Notification(kind, Finite(DecimalValue(db)),
                 if kind == "keyspace" then KeyCommand(RemoveAll(key, '_'), msg)
                 else EventKey(RemoveAll(key, '_'), msg)))
  {
    SplitNoSep(key, '@');
    SplitNoSep(key, ':');
    ParseChannelName(kind, db, key, msg);
  }

  /** A keyspace channel whose key contains ':' loses everything from that
      ':' on: only the first segment is kept as the key. */
  lemma ColonInChannelKeyTruncated(db: string, k1: string, k2: string, msg: string)
    requires IsDigits(db)
    requires ':' !in k1 && '@' !in k1
    ensures var r := ParseMessage(ChannelName("keyspace", db, k1 + ":" + k2), msg);
            r.Parsed? && r.note.body == KeyCommand(RemoveAll(k1, '_'), msg)
  {
    FirstSegmentOfColonKey(k1, k2);
    assert '_' !in "keyspace" && '@' !in "keyspace";
    ParseChannelName("keyspace", db, k1 + ":" + k2, msg);
  }

  /** The key `k1:k2` cut at its first '@' and then at its first ':' is `k1`. */
  lemma FirstSegmentOfColonKey(k1: string, k2: string)
    requires ':' !in k1 && '@' !in k1
    ensures Split(Split(k1 + ":" + k2, '@')[0], ':')[0] == k1
  {
    var key := k1 + ":" + k2;
    var k0 := Split(key, '@')[0];
    assert k0 == k1 + [':'] + Split(k2, '@')[0] by {
      assert '@' !in k1 + [':'];
      assert key == (k1 + [':']) + k2;
      SplitFirst(k1 + [':'], k2, '@');
    }
    SplitAppend(k1, Split(k2, '@')[0], ':');
  }

  /** Likewise a key containing '@' loses everything from that '@' on:
      `__keyspace@0__:user@example.com` is reported as key `user`. */
  lemma AtInChannelKeyTruncated(db: string, k1: string, k2: string, msg: string)
    requires IsDigits(db)
    requires ':' !in k1 && '@' !in k1
    ensures var r := ParseMessage(ChannelName("keyspace", db, k1 + "@" + k2), msg);
            r.Parsed? && r.note.body == KeyCommand(RemoveAll(k1, '_'), msg)
  {
    var key := k1 + "@" + k2;
    assert Split(key, '@')[0] == k1 by {
      assert key == k1 + ['@'] + k2;
      SplitAppend(k1, k2, '@');
    }
    SplitNoSep(k1, ':');
    assert '_' !in "keyspace" && '@' !in "keyspace";
    ParseChannelName("keyspace", db, key, msg);
  }
}
