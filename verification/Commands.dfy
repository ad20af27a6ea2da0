/** The commands that look up or change something, and how they are found. */
module Commands {
  import opened ByteStrings
  import opened LogCodec
  import opened Store
  import opened Database
  import opened DelCommand
  import opened RespCodec
  import opened RespReplies
  import opened RespClient
  import opened SessionModel

  // ----- Handlers -----

  const HELLO: Bytes := [72, 69, 76, 76, 79]
  const GET: Bytes := [71, 69, 84]
  const SET: Bytes := [83, 69, 84]
  const DEL: Bytes := [68, 69, 76]
  const RENAME: Bytes := [82, 69, 78, 65, 77, 69]
  const FLUSHDB: Bytes := [70, 76, 85, 83, 72, 68, 66]
  const QUIT: Bytes := [81, 85, 73, 84]

  const OKAY: Reply := Simple([79, 75])

  function Uppercase(s: Bytes): Bytes {
    if s == [] then []
    else [if 97 <= s[0] <= 122 then s[0] - 32 else s[0]] + Uppercase(s[1..])
  }

  method ToUppercase(value: Bytes) returns (result: Bytes)
    ensures result == Uppercase(value)
  {
    result := value;
    UppercaseAt(value);
    for i := 0 to |value|
      invariant |result| == |value| == |Uppercase(value)|
      invariant result[..i] == Uppercase(value)[..i] && result[i..] == value[i..]
    {
      assert value[i] == result[i..][0];
      result := result[i := if 97 <= result[i] <= 122 then result[i] - 32 else result[i]];
    }
  }

  lemma {:induction false} UppercaseAt(s: Bytes)
    ensures |Uppercase(s)| == |s|
    ensures forall i :: 0 <= i < |s| ==> Uppercase(s)[i] == if 97 <= s[i] <= 122 then s[i] - 32 else s[i]
  {
    if s != [] {
      UppercaseAt(s[1..]);
    }
  }

  /** What a handler does to the database, and what it answers. */
  datatype Handled = Handled(db: Db, reply: Reply)

  function Getting(db: Db, arguments: seq<Bytes>, name: Bytes, version: Version, now: int): Reply {
    if |arguments| != 2 then WrongArity(name)
    else if arguments[1] in db.store.Live(now) then Present(db.store.Live(now)[arguments[1]].value)
    else Absent(version)
  }

  function Setting(db: Db, arguments: seq<Bytes>, name: Bytes, now: int): Handled {
    if |arguments| != 3 then Handled(db, WrongArity(name))
    else
      var e := CreateEvent(Stamp(db.store.ttl, now), arguments[1], arguments[2]);
      Handled(Committing(db, e, now).db, OKAY)
  }

  function Renaming(db: Db, arguments: seq<Bytes>, name: Bytes, now: int): Handled {
    if |arguments| != 3 then Handled(db, WrongArity(name))
    else
      var committed := Committing(db, RenameEvent(NEVER, arguments[1], arguments[2]), now);
      Handled(committed.db, if committed.result == Ok(true) then OKAY else Refusal(Text("no such key")))
  }

  function Deleting(db: Db, arguments: seq<Bytes>, name: Bytes): Handled
    requires |arguments| <= MAX_ARGUMENTS
  {
    if |arguments| < 2 then Handled(db, WrongArity(name))
    else
      var deletion := DeleteAll(db, arguments[1..]);
      Handled(deletion.db, Integer(deletion.count))
  }

  function Flushing(db: Db, arguments: seq<Bytes>, name: Bytes): Handled {
    if |arguments| != 1 then Handled(db, WrongArity(name))
    else Handled(Committing(db, ClearEvent(NEVER), 0).db, OKAY)
  }

  method HandleSet(db: RadishDB, arguments: seq<Bytes>, name: Bytes, now: int)
    returns (reply: Reply, close: bool)
    requires db.Valid() && Encodable(arguments)
    requires db.store.ttl != NEVER ==> -TWO_63 <= now + db.store.ttl < TWO_63
    modifies db.Footprint()
    ensures db.Valid() && !close
    ensures Handled(db.Model(), reply) == Setting(old(db.Model()), arguments, name, now)
  {
    if |arguments| != 3 {
      return WrongArity(name), false;
    }
    var _ := db.Create(arguments[1], arguments[2], now);
    return OKAY, false;
  }

  method HandleRename(db: RadishDB, arguments: seq<Bytes>, name: Bytes, now: int)
    returns (reply: Reply, close: bool)
    requires db.Valid() && Encodable(arguments)
    modifies db.Footprint()
    ensures db.Valid() && !close
    ensures Handled(db.Model(), reply) == Renaming(old(db.Model()), arguments, name, now)
  {
    if |arguments| != 3 {
      return WrongArity(name), false;
    }
    var renamed := db.Rename(arguments[1], arguments[2], now);
    if renamed != Ok(true) {
      return Refusal(Text("no such key")), false;
    }
    return OKAY, false;
  }

  method HandleFlushDatabase(db: RadishDB, arguments: seq<Bytes>, name: Bytes)
    returns (reply: Reply, close: bool)
    requires db.Valid()
    modifies db.Footprint()
    ensures db.Valid() && !close
    ensures Handled(db.Model(), reply) == Flushing(old(db.Model()), arguments, name)
  {
    if |arguments| != 1 {
      return WrongArity(name), false;
    }
    var _ := db.Clear();
    return OKAY, false;
  }

  // ----- Dispatch -----

  /** Behind a connection: the database, the negotiated version, and the number of commands so far. */
  datatype World = World(db: Db, version: Version, turn: nat)

  /** What the other commands can see of a world: whether there is a log is not among it. */
  datatype Seen = Seen(store: StoreState, version: Version, turn: nat)

  function Look(w: World): Seen {
    Seen(w.db.store, w.version, w.turn)
  }

  /** The reading of the clock each command takes, and what the other commands that change nothing
      (PING, EXISTS, KEYS, DBSIZE and unknown ones) answer. */
  datatype Surroundings = Surroundings(clock: nat -> int, answer: (Seen, seq<Bytes>) -> Reply)

  function Name(arguments: seq<Bytes>): Bytes {
    if arguments == [] then [] else Uppercase(arguments[0])
  }

  function Greeted(w: World, arguments: seq<Bytes>, name: Bytes): Outcome<World> {
    if |arguments| != 2 then Outcome(w, WrongArity(name), false)
    else if arguments[1] == [50] then Outcome(w.(version := Resp2), Greeting(Resp2, GreetingValues(Resp2)), false)
    else if arguments[1] == [51] then Outcome(w.(version := Resp3), Greeting(Resp3, GreetingValues(Resp3)), false)
    else Outcome(w, Refusal(Text("NOPROTO unsupported protocol version")), false)
  }

  function Handling(x: Surroundings, w: World, arguments: seq<Bytes>): Outcome<World>
    requires |arguments| <= MAX_ARGUMENTS
  {
    var name, now := Name(arguments), x.clock(w.turn);
    if name == HELLO then Greeted(w, arguments, name)
    else if name == QUIT then
      if |arguments| != 1 then Outcome(w, WrongArity(name), false) else Outcome(w, OKAY, true)
    else if name == SET then Changed(w, Setting(w.db, arguments, name, now))
    else if name == RENAME then Changed(w, Renaming(w.db, arguments, name, now))
    else if name == DEL then Changed(w, Deleting(w.db, arguments, name))
    else if name == FLUSHDB then Changed(w, Flushing(w.db, arguments, name))
    else if name == GET then Outcome(w, Getting(w.db, arguments, name, w.version, now), false)
    else Outcome(w, x.answer(Look(w), arguments), false)
  }

  function Changed(w: World, h: Handled): Outcome<World> {
    Outcome(w.(db := h.db), h.reply, false)
  }

  function NextTurn(o: Outcome<World>): Outcome<World> {
    o.(world := o.world.(turn := o.world.turn + 1))
  }

  /** The parser hands over at most 1024 arguments. */
  function Dispatching(x: Surroundings): (World, seq<Bytes>) -> Outcome<World> {
    (w: World, arguments: seq<Bytes>) =>
      if |arguments| <= MAX_ARGUMENTS then NextTurn(Handling(x, w, arguments)) else Outcome(w, OKAY, false)
  }

  function RadishServer(x: Surroundings): Server<World> {
    Server(Dispatching(x), Message)
  }

  /** The handlers of one connection, on the database all connections share. */
  class Handlers {
    const db: RadishDB
    ghost const surroundings: Surroundings
    var version: Version
    ghost var turn: nat

    constructor (db: RadishDB, ghost surroundings: Surroundings)
      ensures this.db == db && this.surroundings == surroundings && version == Resp2 && turn == 0
    {
      this.db, this.surroundings := db, surroundings;
      version, turn := Resp2, 0;
    }

    ghost function State(): World
      reads this, db.Footprint()
    {
      World(db.Model(), version, turn)
    }

    method HandleHello(arguments: seq<Bytes>, name: Bytes) returns (reply: Reply, close: bool)
      modifies this`version
      ensures Outcome(State(), reply, close) == Greeted(old(State()), arguments, name)
    {
      if |arguments| != 2 {
        return WrongArity(name), false;
      }
      if arguments[1] == [50] {
        version := Resp2;
      } else if arguments[1] == [51] {
        version := Resp3;
      } else {
        return Refusal(Text("NOPROTO unsupported protocol version")), false;
      }
      return Greeting(version, GreetingValues(version)), false;
    }

    method HandleGet(arguments: seq<Bytes>, name: Bytes, now: int) returns (reply: Reply, close: bool)
      requires db.Valid()
      ensures reply == Getting(db.Model(), arguments, name, version, now) && !close
    {
      if |arguments| != 2 {
        return WrongArity(name), false;
      }
      var value := db.store.Get(arguments[1], now);
      return if value.Some? then Present(value.value) else Absent(version), false;
    }

    /** Finds the handler by its name and calls it. `queried` is what one of the other handlers
        answers. */
    method Dispatch(arguments: seq<Bytes>, now: int, queried: Reply) returns (reply: Reply, close: bool)
      requires db.Valid() && Encodable(arguments)
      requires now == surroundings.clock(turn) && queried == surroundings.answer(Look(State()), arguments)
      requires db.store.ttl != NEVER ==> -TWO_63 <= now + db.store.ttl < TWO_63
      modifies this`version, this`turn, db.Footprint()
      ensures db.Valid()
      ensures Outcome(State(), reply, close) == RadishServer(surroundings).dispatch(old(State()), arguments)
    {
      hide Uppercase, Text, WrongArity, Committing, DeleteAll, Setting, Renaming, Flushing, Greeted, Getting;
      var name := ToUppercase(arguments[0]);
      close := false;
      if name == HELLO {
        reply, close := HandleHello(arguments, name);
      } else if name == QUIT {
        if |arguments| != 1 {
          reply := WrongArity(name);
        } else {
          reply, close := OKAY, true;
        }
      } else if name == SET {
        reply, close := HandleSet(db, arguments, name, now);
      } else if name == RENAME {
        reply, close := HandleRename(db, arguments, name, now);
      } else if name == DEL {
        reply, close := HandleDelete(db, arguments, name);
      } else if name == FLUSHDB {
        reply, close := HandleFlushDatabase(db, arguments, name);
      } else if name == GET {
        reply, close := HandleGet(arguments, name, now);
      } else {
        reply := queried;
      }
      turn := turn + 1;
    }
  }

  function NewWorld(ttl: Int64): World {
    World(Db(EmptyStore(ttl), Some(LogBytes([]))), Resp2, 0)
  }

  // ----- What each command means -----

  /** How many arguments a command takes, its name included. */
  predicate ArityOk(name: Bytes, n: nat) {
    if name == QUIT || name == FLUSHDB then n == 1
    else if name == HELLO || name == GET then n == 2
    else if name == SET || name == RENAME then n == 3
    else name == DEL ==> n >= 2
  }

  /** The version a HELLO asks for. */
  function Asked(argument: Bytes): Option<Version> {
    if argument == [50] then Some(Resp2) else if argument == [51] then Some(Resp3) else None
  }

  /** What clients may rely on. `st` is the store before the command, `after` the one after it, and
      `now` the reading of the command. */
  ghost predicate Means(st: StoreState, version: Version, now: int, arguments: seq<Bytes>,
                        after: StoreState, newVersion: Version, reply: Reply)
    requires arguments != [] && ArityOk(Name(arguments), |arguments|)
  {
    var name := Name(arguments);
    if name == HELLO then
      var asked := Asked(arguments[1]);
      && after == st && newVersion == (if asked.Some? then asked.value else version)
      && if asked.Some? then reply == Greeting(asked.value, GreetingValues(asked.value)) else reply.Refusal?
    else
      newVersion == version &&
      if name == SET then reply == OKAY && IsSet(st, arguments[1], arguments[2], now, after)
      else if name == RENAME then
        if arguments[1] in st.Live(now) then reply == OKAY && IsMoved(st, arguments[1], arguments[2], after)
        else reply.Refusal? && after == st
      else if name == DEL then
        && after == st.(entries := st.entries - KeySet(arguments[1..]))
        && |st.entries| - |after.entries| < TWO_63 && |st.entries| >= |after.entries|
        && reply == Integer(|st.entries| - |after.entries|)
      else if name == FLUSHDB then reply == OKAY && after == EmptyStore(st.ttl)
      else
        after == st &&
        if name == QUIT then reply == OKAY
        else name == GET ==>
          reply == if arguments[1] in st.Live(now) then Present(st.Live(now)[arguments[1]].value)
                   else Absent(version)
  }

  /** The key is visible with its value until its TTL has passed, and every other key as before. */
  ghost predicate IsSet(st: StoreState, key: Bytes, value: Bytes, now: int, after: StoreState) {
    && after.ttl == st.ttl && after.entries - {key} == st.entries - {key}
    && ((st.ttl != NEVER ==> -TWO_63 <= now + st.ttl < TWO_63) ==>
          forall later :: (key in after.Live(later) <==> st.ttl == NEVER || later < now + st.ttl)
                          && (key in after.Live(later) ==> after.Live(later)[key].value == value))
  }

  /** The key has its new name, or is gone if that is the old one; every other key is as before. */
  ghost predicate IsMoved(st: StoreState, key: Bytes, renameKey: Bytes, after: StoreState)
    requires key in st.entries
  {
    && after.ttl == st.ttl && key !in after.entries
    && after.entries - {key, renameKey} == st.entries - {key, renameKey}
    && (key != renameKey ==> renameKey in after.entries && after.entries[renameKey] == st.entries[key])
  }

  lemma SetMeans(db: Db, key: Bytes, value: Bytes, now: int)
    requires |key| <= MAX_BULK && |value| <= MAX_BULK
    ensures var e := CreateEvent(Stamp(db.store.ttl, now), key, value);
            IsSet(db.store, key, value, now, Committing(db, e, now).db.store)
  {
    var e := CreateEvent(Stamp(db.store.ttl, now), key, value);
    ArgumentsFit(e);
    if db.store.ttl != NEVER ==> -TWO_63 <= now + db.store.ttl < TWO_63 {
      forall later
        ensures var after := Committing(db, e, now).db.store;
                (key in after.Live(later) <==> db.store.ttl == NEVER || later < now + db.store.ttl)
                && (key in after.Live(later) ==> after.Live(later)[key].value == value)
      {
        CreatedLivesItsTtl(db, key, value, now, later);
      }
    }
  }

  lemma RenameMeans(db: Db, key: Bytes, renameKey: Bytes, now: int)
    requires |key| <= MAX_BULK && |renameKey| <= MAX_BULK
    ensures var c := Committing(db, RenameEvent(NEVER, key, renameKey), now);
            if key in db.store.Live(now)
            then c.result == Ok(true) && IsMoved(db.store, key, renameKey, c.db.store)
            else c == Committed(db, Ok(false))
  {
    ArgumentsFit(RenameEvent(NEVER, key, renameKey));
  }

  lemma ClearMeans(db: Db)
    ensures Committing(db, ClearEvent(NEVER), 0).db.store == EmptyStore(db.store.ttl)
  {
    ArgumentsFit(ClearEvent(NEVER));
  }

  lemma DeleteMeans(db: Db, keys: seq<Bytes>)
    requires AllShort(keys)
    ensures var r := DeleteAll(db, keys);
            && r.db.store == db.store.(entries := db.store.entries - KeySet(keys))
            && |db.store.entries| == |r.db.store.entries| + r.count
  {
    DeletionIsConserved(db, keys);
  }

  /** Every command, with a log or without one. The connection is closed by a QUIT and by nothing else.
      With a wrong number of arguments a command is refused and changes nothing; with the right one it
      means what it says. */
  lemma CommandMeans(x: Surroundings, w: World, arguments: seq<Bytes>)
    requires Encodable(arguments)
    ensures var name, o := Name(arguments), RadishServer(x).dispatch(w, arguments);
            && (o.close <==> name == QUIT && |arguments| == 1)
            && o.world.turn == w.turn + 1 && (o.world.db.log.Some? <==> w.db.log.Some?)
            && if ArityOk(name, |arguments|) then
                 Means(w.db.store, w.version, x.clock(w.turn), arguments, o.world.db.store, o.world.version, o.reply)
               else o.reply.Refusal? && o.world == w.(turn := w.turn + 1)
  {
    hide Committing, DeleteAll, Text, Uppercase, GreetingValues, IsSet, IsMoved;
    if ArityOk(Name(arguments), |arguments|) {
      if Name(arguments) in {SET, RENAME, DEL, FLUSHDB} {
        ChangeMeans(x, w, arguments);
      }
    } else {
      WrongArityChangesNothing(x, w, arguments);
    }
  }

  lemma WrongArityChangesNothing(x: Surroundings, w: World, arguments: seq<Bytes>)
    requires Encodable(arguments) && !ArityOk(Name(arguments), |arguments|)
    ensures var o := RadishServer(x).dispatch(w, arguments);
            o.reply.Refusal? && o.world == w.(turn := w.turn + 1) && !o.close
  {
    hide Committing, DeleteAll, Text, Uppercase, GreetingValues;
  }

  lemma ChangeMeans(x: Surroundings, w: World, arguments: seq<Bytes>)
    requires Encodable(arguments) && Name(arguments) in {SET, RENAME, DEL, FLUSHDB}
    requires ArityOk(Name(arguments), |arguments|)
    ensures var o := RadishServer(x).dispatch(w, arguments);
            && Means(w.db.store, w.version, x.clock(w.turn), arguments, o.world.db.store, o.world.version, o.reply)
            && !o.close && o.world.turn == w.turn + 1 && (o.world.db.log.Some? <==> w.db.log.Some?)
  {
    hide Committing, DeleteAll, Text, Uppercase, GreetingValues, IsSet, IsMoved;
    var name, now := Name(arguments), x.clock(w.turn);
    if name == SET {
      SetMeans(w.db, arguments[1], arguments[2], now);
      LogStays(w.db, CreateEvent(Stamp(w.db.store.ttl, now), arguments[1], arguments[2]), now);
    } else if name == RENAME {
      RenameMeans(w.db, arguments[1], arguments[2], now);
      LogStays(w.db, RenameEvent(NEVER, arguments[1], arguments[2]), now);
    } else if name == DEL {
      DeleteMeans(w.db, arguments[1..]);
      LogsStay(w.db, arguments[1..]);
    } else {
      ClearMeans(w.db);
      LogStays(w.db, ClearEvent(NEVER), 0);
    }
  }

  lemma LogStays(db: Db, e: Event, now: int)
    ensures Committing(db, e, now).db.log.Some? <==> db.log.Some?
  {}

  lemma {:induction false} LogsStay(db: Db, keys: seq<Bytes>)
    ensures DeleteAll(db, keys).db.log.Some? <==> db.log.Some?
  {
    if keys != [] {
      LogsStay(db, keys[..|keys| - 1]);
    }
  }

  /** The replies speak the version of the connection, if those of the other commands do. */
  lemma CommandSpeaks(x: Surroundings, w: World, arguments: seq<Bytes>)
    requires Encodable(arguments) && Speaks(x.answer(Look(w), arguments), w.version)
    ensures var o := RadishServer(x).dispatch(w, arguments); Speaks(o.reply, o.world.version)
    ensures var o := RadishServer(x).dispatch(w, arguments);
            !(Name(arguments) == HELLO && |arguments| == 2 && arguments[1] == [51]) ==>
              o.world.version == w.version || o.world.version == Resp2
  {
    hide Committing, DeleteAll, Text, Uppercase, GreetingValues;
  }
}
