/** The DEL command: a count, a set of keys gone, and as many records. */
module DelCommand {
  import opened ByteStrings
  import opened LogCodec
  import opened Store
  import opened Database
  import opened RespCodec
  import opened RespReplies

  datatype Deletion = Deletion(db: Db, count: nat)

  /** Deleting keys one after the other, counting those that were there. */
  function DeleteAll(db: Db, keys: seq<Bytes>): (r: Deletion)
    ensures r.count <= |keys|
  {
    if keys == [] then Deletion(db, 0)
    else
      var before := DeleteAll(db, keys[..|keys| - 1]);
      var last := Committing(before.db, DeleteEvent(NEVER, keys[|keys| - 1]), 0);
      Deletion(last.db, before.count + if last.result == Ok(true) then 1 else 0)
  }

  function WrongArity(name: Bytes): Reply {
    Refusal(Text("wrong number of arguments for '") + name + Text("' command"))
  }

  /** No argument of an accepted request makes a record too large for the log. */
  lemma ArgumentsFit(e: Event)
    requires !e.ClearEvent? ==> |e.key| <= MAX_BULK
    requires e.RenameEvent? ==> |e.renameKey| <= MAX_BULK
    requires e.CreateEvent? ==> |e.payload| <= MAX_BULK
    ensures Fits(e)
  {}

  function KeySet(keys: seq<Bytes>): set<Bytes> {
    set key | key in keys
  }

  /** The keys a DEL removes, in the order of their records. */
  function Removed(entries: map<Bytes, Entry>, keys: seq<Bytes>): seq<Bytes> {
    if keys == [] then []
    else
      var n := |keys| - 1;
      if keys[n] in entries && keys[n] !in keys[..n] then Removed(entries, keys[..n]) + [keys[n]]
      else Removed(entries, keys[..n])
  }

  function DeleteEvents(keys: seq<Bytes>): seq<Event> {
    if keys == [] then [] else DeleteEvents(keys[..|keys| - 1]) + [DeleteEvent(NEVER, keys[|keys| - 1])]
  }

  lemma SizeWithout(entries: map<Bytes, Entry>, key: Bytes)
    requires key in entries
    ensures |entries - {key}| == |entries| - 1
  {
    assert (entries - {key}).Keys == entries.Keys - {key};
  }

  lemma KeySetSnoc(keys: seq<Bytes>)
    requires keys != []
    ensures KeySet(keys) == KeySet(keys[..|keys| - 1]) + {keys[|keys| - 1]}
  {
    assert keys == keys[..|keys| - 1] + [keys[|keys| - 1]];
  }

  /** What a log is after `e` was appended to it, if there is a log. */
  function Logged(log: Option<Bytes>, bytes: Bytes): Option<Bytes> {
    match log
    case None => None
    case Some(file) => Some(file + bytes)
  }

  lemma LoggedTwice(log: Option<Bytes>, a: Bytes, b: Bytes)
    ensures Logged(Logged(log, a), b) == Logged(log, a + b) && Logged(log, []) == log
  {
    if log.Some? {
      Associate(log.value, a, b);
      assert log.value + [] == log.value;
    }
  }

  lemma DeleteOne(db: Db, key: Bytes)
    requires |key| <= MAX_BULK
    ensures var c := Committing(db, DeleteEvent(NEVER, key), 0);
            && c.result == Ok(key in db.store.entries)
            && c.db.store == db.store.Remove(key)
            && c.db.log == if key in db.store.entries then Logged(db.log, Frame(DeleteEvent(NEVER, key)))
                           else db.log
  {
    hide Frame;
    ArgumentsFit(DeleteEvent(NEVER, key));
    if key !in db.store.entries {
      assert db.store.entries - {key} == db.store.entries;
    }
  }

  /** What is gone is exactly the keys named. */
  lemma {:induction false} DeletedStore(db: Db, keys: seq<Bytes>)
    requires AllShort(keys)
    ensures DeleteAll(db, keys).db.store == db.store.(entries := db.store.entries - KeySet(keys))
  {
    hide Committing;
    if keys == [] {
      assert db.store.entries - KeySet([]) == db.store.entries;
    } else {
      var n := |keys| - 1;
      DeletedStore(db, keys[..n]);
      KeySetSnoc(keys);
      DeleteOne(DeleteAll(db, keys[..n]).db, keys[n]);
      assert db.store.entries - KeySet(keys[..n]) - {keys[n]} == db.store.entries - KeySet(keys);
    }
  }

  /** The count and the log, one deletion after the other. */
  lemma DeleteAllStep(db: Db, keys: seq<Bytes>)
    requires AllShort(keys) && keys != []
    ensures var n := |keys| - 1;
            var r, before, hit := DeleteAll(db, keys), DeleteAll(db, keys[..n]),
                                  keys[n] in db.store.entries && keys[n] !in keys[..n];
            && r.count == before.count + (if hit then 1 else 0)
            && |r.db.store.entries| == |before.db.store.entries| - (if hit then 1 else 0)
            && r.db.log == if hit then Logged(before.db.log, Frame(DeleteEvent(NEVER, keys[n])))
                           else before.db.log
  {
    hide Frame, Logged, Committing;
    var n := |keys| - 1;
    var before := DeleteAll(db, keys[..n]).db;
    DeletedStore(db, keys[..n]);
    DeleteOne(before, keys[n]);
    assert keys[n] in KeySet(keys[..n]) <==> keys[n] in keys[..n];
    if keys[n] in before.store.entries {
      SizeWithout(before.store.entries, keys[n]);
    } else {
      assert before.store.entries - {keys[n]} == before.store.entries;
    }
  }

  /** DEL conservation. For any argument list, repeated and expired keys included, the number
      replied is the drop in stored entries; what is gone is exactly the keys named; and the log
      has grown by exactly as many DELETE records, one for each stored key, at its first mention. */
  lemma {:induction false} DeletionIsConserved(db: Db, keys: seq<Bytes>)
    requires AllShort(keys)
    ensures var r, entries := DeleteAll(db, keys), db.store.entries;
            && r.db.store == db.store.(entries := entries - KeySet(keys))
            && |entries| == |r.db.store.entries| + r.count
            && |Removed(entries, keys)| == r.count
            && r.db.log == Logged(db.log, Frames(DeleteEvents(Removed(entries, keys))))
  {
    hide Frame, Frames, DeleteEvents, Logged;
    DeletedStore(db, keys);
    var entries := db.store.entries;
    if keys == [] {
      NothingLogged(db.log);
    } else {
      var n := |keys| - 1;
      DeletionIsConserved(db, keys[..n]);
      DeleteAllStep(db, keys);
      GrowsByOneRecord(Removed(entries, keys[..n]), keys[n]);
      LoggedTwice(db.log, Frames(DeleteEvents(Removed(entries, keys[..n]))), Frame(DeleteEvent(NEVER, keys[n])));
    }
  }

  lemma NothingLogged(log: Option<Bytes>)
    ensures Logged(log, Frames(DeleteEvents([]))) == log
  {
    LoggedTwice(log, [], []);
  }

  lemma GrowsByOneRecord(removed: seq<Bytes>, key: Bytes)
    ensures Frames(DeleteEvents(removed + [key]))
            == Frames(DeleteEvents(removed)) + Frame(DeleteEvent(NEVER, key))
  {
    assert (removed + [key])[..|removed|] == removed;
    FramesAppend(DeleteEvents(removed), [DeleteEvent(NEVER, key)]);
    assert Frames([DeleteEvent(NEVER, key)]) == Frame(DeleteEvent(NEVER, key)) + Frames([]);
  }

  /** The handler. Its arguments are those of an accepted request, the command name included. */
  method HandleDelete(db: RadishDB, arguments: seq<Bytes>, name: Bytes) returns (reply: Reply, close: bool)
    requires db.Valid() && Encodable(arguments)
    modifies db.Footprint()
    ensures db.Valid() && !close
    ensures |arguments| < 2 ==> reply == WrongArity(name) && db.Model() == old(db.Model())
    ensures |arguments| >= 2 ==>
              var r := DeleteAll(old(db.Model()), arguments[1..]);
              reply == Integer(r.count) && db.Model() == r.db
  {
    if |arguments| < 2 {
      return WrongArity(name), false;
    }
    ghost var keys, before := arguments[1..], db.Model();
    var deleted := 0;
    for index := 1 to |arguments|
      invariant db.Valid()
      invariant Deletion(db.Model(), deleted) == DeleteAll(before, keys[..index - 1])
    {
      assert keys[..index][..index - 1] == keys[..index - 1] && keys[index - 1] == arguments[index];
      ArgumentsFit(DeleteEvent(NEVER, arguments[index]));
      var result := db.Delete(arguments[index]);
      if result == Ok(true) {
        deleted := deleted + 1;
      }
    }
    assert keys[..|arguments| - 1] == keys;
    return Integer(deleted), false;
  }
}
