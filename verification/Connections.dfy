/** Whole connections: what they leave in the log, what a restart makes of it, and that a client
    cannot tell whether there is a log at all. */
module Connections {
  import opened ByteStrings
  import opened LogCodec
  import opened Store
  import opened Compaction
  import opened Semantics
  import opened Divergence
  import opened Database
  import opened DelCommand
  import opened RespCodec
  import opened RespReplies
  import opened RespClient
  import opened SessionModel
  import opened SessionRuns
  import opened Commands

  // ----- The log behind the database -----

  /** The store is what applying the logged events left, event `i` at `readings[i]`, and the log file
      holds exactly these events. From `since` on they are those of a run. */
  ghost predicate Backed(ttl: Int64, db: Db, es: seq<Event>, readings: seq<int>, since: nat) {
    && |readings| == |es| && AllFit(es) && db.log == Some(LogBytes(es))
    && db.store == Replay(ttl, es, At(readings)) && Forward(At(readings), |es|)
    && forall i: nat :: since <= i < |es| ==> InRun(ttl, es, readings, i)
  }

  /** A RENAME moved its key, and a CREATE carries its own reading plus the TTL. */
  ghost predicate InRun(ttl: Int64, es: seq<Event>, readings: seq<int>, i: nat)
    requires i < |es| == |readings|
  {
    && (es[i].RenameEvent? ==> Replay(ttl, es[..i], At(readings)).CanMove(es[i].key, readings[i]))
    && (es[i].CreateEvent? ==> es[i].timestamp == Stamp(ttl, readings[i]))
  }

  /** A database opened on a log of complete frames, at whatever readings, with the run still to come. */
  lemma OpenedIsBacked(ttl: Int64, es: seq<Event>, readings: seq<int>)
    requires |readings| == |es| && AllFit(es) && Forward(At(readings), |es|)
    ensures Backed(ttl, Db(Replay(ttl, es, At(readings)), Some(LogBytes(es))), es, readings, |es|)
  {}

  lemma BackedIsRunLog(ttl: Int64, db: Db, es: seq<Event>, readings: seq<int>)
    requires Backed(ttl, db, es, readings, 0)
    ensures RunLog(ttl, es, At(readings))
  {
    forall i: nat | i < |es| && es[i].RenameEvent?
      ensures Replay(ttl, es[..i], At(readings)).CanMove(es[i].key, readings[i])
    {
      assert InRun(ttl, es, readings, i);
    }
  }

  predicate NotAfter(readings: seq<int>, now: int) {
    forall i :: 0 <= i < |readings| ==> readings[i] <= now
  }

  lemma InRunSnoc(ttl: Int64, es: seq<Event>, readings: seq<int>, e: Event, now: int, i: nat)
    requires |readings| == |es| && i < |es| && InRun(ttl, es, readings, i)
    ensures InRun(ttl, es + [e], readings + [now], i)
  {
    assert (es + [e])[..i] == es[..i];
    SameReadings(ttl, es[..i], At(readings), At(readings + [now]));
  }

  lemma ForwardSnoc(readings: seq<int>, now: int)
    requires Forward(At(readings), |readings|) && NotAfter(readings, now)
    ensures Forward(At(readings + [now]), |readings| + 1)
  {
    forall i: nat, j: nat | i <= j < |readings| + 1
      ensures At(readings + [now])(i) <= At(readings + [now])(j)
    {
      assert i < |readings| ==> At(readings)(i) == readings[i];
      assert j < |readings| ==> At(readings)(j) == readings[j];
    }
  }

  lemma ReplayAtSnoc(ttl: Int64, es: seq<Event>, readings: seq<int>, e: Event, now: int)
    requires |readings| == |es|
    ensures Replay(ttl, es + [e], At(readings + [now])) == Apply(Replay(ttl, es, At(readings)), e, now).store
    ensures Replay(ttl, (es + [e])[..|es|], At(readings + [now])) == Replay(ttl, es, At(readings))
  {
    assert (es + [e])[..|es|] == es;
    SameReadings(ttl, es, At(readings), At(readings + [now]));
  }

  /** One more mutation: logged and applied, or neither. */
  lemma BackedCommit(ttl: Int64, db: Db, es: seq<Event>, readings: seq<int>, since: nat, e: Event, now: int)
    requires Backed(ttl, db, es, readings, since) && NotAfter(readings, now) && Fits(e)
    requires e.CreateEvent? ==> e.timestamp == Stamp(ttl, now)
    ensures var c := Committing(db, e, now);
            if Apply(db.store, e, now).changed
            then c.result == Ok(true) && Backed(ttl, c.db, es + [e], readings + [now], since)
            else c == Committed(db, Ok(false))
  {
    hide Replay, LogBytes, Frame, Fits;
    if Apply(db.store, e, now).changed {
      ReplayAtSnoc(ttl, es, readings, e, now);
      LogBytesSnoc(es, e);
      forall i: nat | since <= i < |es + [e]|
        ensures InRun(ttl, es + [e], readings + [now], i)
      {
        if i < |es| {
          InRunSnoc(ttl, es, readings, e, now, i);
        }
      }
      ForwardSnoc(readings, now);
    }
  }

  /** As many readings of one and the same moment. */
  function Times(n: nat, now: int): seq<int> {
    seq(n, _ => now)
  }

  predicate DeletesOf(es: seq<Event>, keys: seq<Bytes>) {
    && (forall i :: 0 <= i < |es| ==>
          es[i].DeleteEvent? && es[i].timestamp == NEVER && es[i].key in keys)
    && (forall i, j :: 0 <= i < j < |es| ==> es[i].key != es[j].key)
  }

  function EventKeys(es: seq<Event>): set<Bytes> {
    set e | e in es && !e.ClearEvent? :: e.key
  }

  lemma EventKeysSnoc(es: seq<Event>, e: Event)
    requires !e.ClearEvent?
    ensures EventKeys(es + [e]) == EventKeys(es) + {e.key}
  {
    assert e in es + [e];
    assert forall f :: f in es + [e] <==> f in es || f == e;
  }

  lemma {:induction false} BackedDelete(ttl: Int64, db: Db, es: seq<Event>, readings: seq<int>,
                                       since: nat, keys: seq<Bytes>, now: int) returns (more: seq<Event>)
    requires Backed(ttl, db, es, readings, since) && NotAfter(readings, now) && AllShort(keys)
    ensures Backed(ttl, DeleteAll(db, keys).db, es + more, readings + Times(|more|, now), since)
    ensures |more| == DeleteAll(db, keys).count && DeletesOf(more, keys)
    ensures EventKeys(more) == KeySet(keys) * db.store.entries.Keys
  {
    hide Committing, Backed;
    if keys == [] {
      more := [];
      assert es + more == es && readings + Times(0, now) == readings;
    } else {
      var n := |keys| - 1;
      more := BackedDelete(ttl, db, es, readings, since, keys[..n], now);
      var before, e := DeleteAll(db, keys[..n]).db, DeleteEvent(NEVER, keys[n]);
      DeletedStore(db, keys[..n]);
      ArgumentsFit(e);
      DeleteAtAnyTime(before, keys[n], now);
      BackedCommit(ttl, before, es + more, readings + Times(|more|, now), since, e, now);
      KeySetSnoc(keys);
      assert keys[..n] < keys;
      if keys[n] in before.store.entries {
        assert keys[n] !in KeySet(keys[..n]);
        assert es + more + [e] == es + (more + [e]);
        assert readings + Times(|more|, now) + [now] == readings + Times(|more| + 1, now);
        EventKeysSnoc(more, e);
        more := more + [e];
      }
    }
  }

  lemma DeleteAtAnyTime(db: Db, key: Bytes, now: int)
    ensures Committing(db, DeleteEvent(NEVER, key), 0) == Committing(db, DeleteEvent(NEVER, key), now)
    ensures Apply(db.store, DeleteEvent(NEVER, key), now).changed <==> key in db.store.entries
  {}

  // ----- What the replies say -----

  /** The records behind one command, given the store they found and the reading of the command. */
  predicate AccountsFor(st: StoreState, now: int, arguments: seq<Bytes>, reply: Reply, es: seq<Event>) {
    var name := Name(arguments);
    if !ArityOk(name, |arguments|) then reply.Refusal? && es == []
    else if name == SET then
      && reply == OKAY && |es| == 1 && es[0].CreateEvent?
      && es[0].key == arguments[1] && es[0].payload == arguments[2]
    else if name == RENAME then
      && (reply == OKAY <==> arguments[1] in st.Live(now))
      && es == if reply == OKAY then [RenameEvent(NEVER, arguments[1], arguments[2])] else []
    else if name == DEL then
      && |es| < TWO_63 && reply == Integer(|es|) && DeletesOf(es, arguments[1..])
      && EventKeys(es) == KeySet(arguments[1..]) * st.entries.Keys
    else if name == FLUSHDB then
      reply == OKAY && es == if st.entries == map[] then [] else [ClearEvent(NEVER)]
    else es == []
  }

  /** Where a connection began: after `turn` readings of the clock, with the events `held` logged. */
  datatype Beginning = Beginning(ttl: Int64, clock: nat -> int, turn: nat, held: seq<Event>)

  /** The store behind the first `k` events of the connection. */
  function StoreAt(b: Beginning, es: seq<Event>, readings: seq<int>, k: nat): StoreState
    requires k <= |es|
  {
    Replay(b.ttl, b.held + es[..k], At(readings))
  }

  /** The events from `k` on are the records of the last command. */
  predicate LastAccounted(b: Beginning, commands: seq<seq<Bytes>>, replies: seq<Reply>, es: seq<Event>,
                          readings: seq<int>, k: nat)
    requires |commands| == |replies| && commands != [] && k <= |es|
  {
    var n := |commands| - 1;
    AccountsFor(StoreAt(b, es, readings, k), b.clock(b.turn + n), commands[n], replies[n], es[k..])
  }

  /** The log, cut into the records of one command after the other. */
  ghost predicate Accounted(b: Beginning, commands: seq<seq<Bytes>>, replies: seq<Reply>, es: seq<Event>,
                            readings: seq<int>)
    requires |commands| == |replies|
  {
    if commands == [] then es == []
    else
      var n := |commands| - 1;
      exists k: nat :: k <= |es| && Accounted(b, commands[..n], replies[..n], es[..k], readings)
                       && LastAccounted(b, commands, replies, es, readings, k)
  }

  lemma StoreAtLonger(b: Beginning, es: seq<Event>, readings: seq<int>, k: nat, later: seq<int>)
    requires k <= |es| && |readings| >= |b.held| + |es|
    ensures StoreAt(b, es, readings + later, k) == StoreAt(b, es, readings, k)
  {
    SameReadings(b.ttl, b.held + es[..k], At(readings), At(readings + later));
  }

  lemma LastLonger(b: Beginning, commands: seq<seq<Bytes>>, replies: seq<Reply>, es: seq<Event>,
                   readings: seq<int>, k: nat, later: seq<int>)
    requires |commands| == |replies| && commands != [] && k <= |es| && |readings| >= |b.held| + |es|
    ensures LastAccounted(b, commands, replies, es, readings + later, k)
            == LastAccounted(b, commands, replies, es, readings, k)
  {
    hide AccountsFor, StoreAt;
    StoreAtLonger(b, es, readings, k, later);
  }

  lemma {:induction false} AccountedLonger(b: Beginning, commands: seq<seq<Bytes>>, replies: seq<Reply>,
                                          es: seq<Event>, readings: seq<int>, later: seq<int>)
    requires |commands| == |replies| && |readings| >= |b.held| + |es|
    requires Accounted(b, commands, replies, es, readings)
    ensures Accounted(b, commands, replies, es, readings + later)
  {
    hide LastAccounted;
    if commands != [] {
      var n := |commands| - 1;
      var k: nat :| k <= |es| && Accounted(b, commands[..n], replies[..n], es[..k], readings)
                    && LastAccounted(b, commands, replies, es, readings, k);
      AccountedLonger(b, commands[..n], replies[..n], es[..k], readings, later);
      LastLonger(b, commands, replies, es, readings, k, later);
    }
  }

  lemma LastSnoc(b: Beginning, commands: seq<seq<Bytes>>, replies: seq<Reply>, es: seq<Event>,
                 readings: seq<int>, arguments: seq<Bytes>, reply: Reply, more: seq<Event>)
    requires |commands| == |replies|
    requires AccountsFor(Replay(b.ttl, b.held + es, At(readings)), b.clock(b.turn + |commands|),
                         arguments, reply, more)
    ensures LastAccounted(b, commands + [arguments], replies + [reply], es + more, readings, |es|)
  {
    hide AccountsFor, Replay;
    assert (es + more)[..|es|] == es && (es + more)[|es|..] == more;
  }

  lemma AccountedSnoc(b: Beginning, commands: seq<seq<Bytes>>, replies: seq<Reply>, es: seq<Event>,
                      readings: seq<int>, arguments: seq<Bytes>, reply: Reply, more: seq<Event>, later: seq<int>)
    requires |commands| == |replies| && |readings| == |b.held| + |es|
    requires Accounted(b, commands, replies, es, readings)
    requires AccountsFor(Replay(b.ttl, b.held + es, At(readings)), b.clock(b.turn + |commands|),
                         arguments, reply, more)
    ensures Accounted(b, commands + [arguments], replies + [reply], es + more, readings + later)
  {
    SameReadings(b.ttl, b.held + es, At(readings), At(readings + later));
    hide AccountsFor, LastAccounted, Replay;
    AccountedLonger(b, commands, replies, es, readings, later);
    LastSnoc(b, commands, replies, es, readings + later, arguments, reply, more);
    assert (commands + [arguments])[..|commands|] == commands && (replies + [reply])[..|commands|] == replies;
    assert (es + more)[..|es|] == es;
  }

  /** One command, whichever it is: the database is still backed by its log, and the new records are
      those its reply stands for. */
  lemma CommandIsLogged(x: Surroundings, ttl: Int64, w: World, es: seq<Event>, readings: seq<int>,
                        since: nat, arguments: seq<Bytes>) returns (more: seq<Event>)
    requires Backed(ttl, w.db, es, readings, since) && NotAfter(readings, x.clock(w.turn)) && Encodable(arguments)
    ensures var o := Handling(x, w, arguments);
            && Backed(ttl, o.world.db, es + more, readings + Times(|more|, x.clock(w.turn)), since)
            && AccountsFor(w.db.store, x.clock(w.turn), arguments, o.reply, more) && o.world.turn == w.turn
  {
    hide Committing, Backed, Text, Uppercase, GreetingValues, DeletesOf, EventKeys, DeleteAll;
    var name, now := Name(arguments), x.clock(w.turn);
    more := [];
    assert es + more == es && readings + Times(0, now) == readings;
    assert readings + [now] == readings + Times(1, now);
    BackedTtl(ttl, w.db, es, readings, since);
    if name == DEL && |arguments| >= 2 {
      more := BackedDelete(ttl, w.db, es, readings, since, arguments[1..], now);
    } else if name == FLUSHDB && |arguments| == 1 {
      ClearAtAnyTime(w.db, now);
      BackedCommit(ttl, w.db, es, readings, since, ClearEvent(NEVER), now);
      if w.db.store.entries != map[] {
        more := [ClearEvent(NEVER)];
      }
    } else if (name == SET || name == RENAME) && |arguments| == 3 {
      var e := if name == SET then CreateEvent(Stamp(ttl, now), arguments[1], arguments[2])
               else RenameEvent(NEVER, arguments[1], arguments[2]);
      ArgumentsFit(e);
      BackedCommit(ttl, w.db, es, readings, since, e, now);
      ApplyMeans(w.db.store, e, now, []);
      LiveMeans(w.db.store, arguments[1], now);
      if Apply(w.db.store, e, now).changed {
        more := [e];
      }
    }
  }

  lemma BackedTtl(ttl: Int64, db: Db, es: seq<Event>, readings: seq<int>, since: nat)
    requires Backed(ttl, db, es, readings, since)
    ensures db.store.ttl == ttl
  {
    ReplayTtl(ttl, es, At(readings));
  }

  lemma ClearAtAnyTime(db: Db, now: int)
    ensures Committing(db, ClearEvent(NEVER), 0) == Committing(db, ClearEvent(NEVER), now)
    ensures Apply(db.store, ClearEvent(NEVER), now).changed <==> db.store.entries != map[]
  {}

  // ----- Whole connections -----

  ghost predicate ForwardClock(x: Surroundings) {
    forall i: nat, j: nat :: i <= j ==> x.clock(i) <= x.clock(j)
  }

  /** `es` are the events logged since the connection began. */
  ghost predicate Told(b: Beginning, since: nat, w: World, commands: seq<seq<Bytes>>, replies: seq<Reply>,
                       es: seq<Event>, readings: seq<int>) {
    && Backed(b.ttl, w.db, b.held + es, readings, since) && NotAfter(readings, b.clock(w.turn))
    && |commands| == |replies| && w.turn == b.turn + |commands|
    && Accounted(b, commands, replies, es, readings)
  }

  ghost predicate IsTold(b: Beginning, since: nat, w: World, commands: seq<seq<Bytes>>, replies: seq<Reply>) {
    exists es, readings :: Told(b, since, w, commands, replies, es, readings)
  }

  lemma CommandIsTold(x: Surroundings, b: Beginning, since: nat, w: World,
                      commands: seq<seq<Bytes>>, replies: seq<Reply>, arguments: seq<Bytes>)
    requires ForwardClock(x) && b.clock == x.clock && IsTold(b, since, w, commands, replies)
    requires Encodable(arguments)
    ensures var o := RadishServer(x).dispatch(w, arguments);
            IsTold(b, since, o.world, commands + [arguments], replies + [o.reply])
  {
    hide Backed, Accounted, Handling, RadishServer, AccountsFor, Replay, Encodable;
    var es, readings :| Told(b, since, w, commands, replies, es, readings);
    var o := RadishServer(x).dispatch(w, arguments);
    DispatchIsHandling(x, w, arguments);
    var held, later, more := b.held + es, [], [];
    BackedIs(b.ttl, w.db, held, readings, since);
    more := CommandIsLogged(x, b.ttl, w, held, readings, since, arguments);
    later := Times(|more|, x.clock(w.turn));
    AccountedSnoc(b, commands, replies, es, readings, arguments, o.reply, more, later);
    ToldNext(b, since, o.world, commands + [arguments], replies + [o.reply], es, more, readings + later);
  }

  lemma ToldNext(b: Beginning, since: nat, w: World, commands: seq<seq<Bytes>>, replies: seq<Reply>,
                 es: seq<Event>, more: seq<Event>, readings: seq<int>)
    requires |commands| == |replies| && Accounted(b, commands, replies, es + more, readings)
    requires Backed(b.ttl, w.db, b.held + es + more, readings, since) && NotAfter(readings, b.clock(w.turn))
    requires w.turn == b.turn + |commands|
    ensures IsTold(b, since, w, commands, replies)
  {
    hide Backed, Accounted;
    assert b.held + (es + more) == b.held + es + more;
    assert Told(b, since, w, commands, replies, es + more, readings);
  }

  lemma BackedIs(ttl: Int64, db: Db, es: seq<Event>, readings: seq<int>, since: nat)
    requires Backed(ttl, db, es, readings, since)
    ensures db.store == Replay(ttl, es, At(readings)) && |readings| == |es|
  {}

  lemma DispatchIsHandling(x: Surroundings, w: World, arguments: seq<Bytes>)
    requires Encodable(arguments)
    ensures RadishServer(x).dispatch(w, arguments) == NextTurn(Handling(x, w, arguments))
  {}

  lemma FirstIsTold(b: Beginning, w: World, earlier: seq<int>, since: nat)
    requires Backed(b.ttl, w.db, b.held, earlier, since) && NotAfter(earlier, b.clock(w.turn)) && w.turn == b.turn
    ensures IsTold(b, since, w, [], [])
  {
    assert b.held + [] == b.held;
    assert Told(b, since, w, [], [], [], earlier);
  }

  /** A new database is backed by its empty log. */
  lemma NewIsBacked(ttl: Int64)
    ensures Backed(ttl, NewWorld(ttl).db, [], [], 0)
  {}

  /** A whole connection, to a database new or old, at any moment and however its bytes arrive. The
      log file reads as what it held before and then the records the replies stand for, one command
      after the other: a SET is answered with OK and logged once; a RENAME is logged just when it is
      answered with OK, and it is just when its key is visible; a DEL is logged once for each stored key
      it names, and answers with their number; a FLUSHDB is logged just when something was stored; and
      nothing else is logged. The store is what applying all these records left. What the client has
      seen is a prefix of these replies. The next connection finds the database as this lemma asks for
      it, and so do the first ones after a database is created or opened (`NewIsBacked`,
      `OpenedIsBacked`). */
  lemma ConnectionIsLogged(x: Surroundings, b: Beginning, w: World, earlier: seq<int>, since: nat, steps: seq<Step>)
    returns (es: seq<Event>, readings: seq<int>)
    requires b.clock == x.clock && b.turn == w.turn
    requires Backed(b.ttl, w.db, b.held, earlier, since) && NotAfter(earlier, x.clock(w.turn))
    requires ForwardClock(x) && CanRun(RadishServer(x), Start(w), steps)
    ensures var s := Run(RadishServer(x), Start(w), steps); var n := |s.commands|;
            && n <= |s.replies| && Accounted(b, s.commands, s.replies[..n], es, readings)
            && Backed(b.ttl, s.world.db, b.held + es, readings, since)
            && ReadLog(s.world.db.log.value) == Ok(b.held + es)
            && NotAfter(readings, x.clock(s.world.turn)) && s.sent <= EncodeReplies(s.replies)
  {
    hide Backed, Accounted, RadishServer, Run;
    var d := RadishServer(x);
    var inv := (w: World, commands: seq<seq<Bytes>>, replies: seq<Reply>) => IsTold(b, since, w, commands, replies);
    forall w, commands, replies, arguments | inv(w, commands, replies) && Encodable(arguments)
      ensures var o := d.dispatch(w, arguments);
              inv(o.world, commands + [arguments], replies + [o.reply])
    {
      CommandIsTold(x, b, since, w, commands, replies, arguments);
    }
    FirstIsTold(b, w, earlier, since);
    RunKeeps(d, inv, w, steps);
    WriteQueueSafety(d, w, steps);
    var s := Run(d, Start(w), steps);
    assert IsTold(b, since, s.world, s.commands, s.replies[..|s.commands|]);
    es, readings :| Told(b, since, s.world, s.commands, s.replies[..|s.commands|], es, readings);
    BackedReads(b.ttl, s.world.db, b.held + es, readings, since);
  }

  lemma BackedReads(ttl: Int64, db: Db, es: seq<Event>, readings: seq<int>, since: nat)
    requires Backed(ttl, db, es, readings, since)
    ensures db.log.Some? && ReadLog(db.log.value) == Ok(es)
  {
    ReadLogComplete(es, []);
    assert LogBytes(es) + [] == LogBytes(es);
  }

  /** So every SET answered so far is in the log with its key and its value, and stays there whatever
      is dispatched later. */
  lemma {:induction false} SetIsLogged(b: Beginning, commands: seq<seq<Bytes>>, replies: seq<Reply>,
                                      es: seq<Event>, readings: seq<int>, i: nat)
    requires |commands| == |replies| && Accounted(b, commands, replies, es, readings) && i < |commands|
    requires Name(commands[i]) == SET && |commands[i]| == 3
    ensures exists j :: 0 <= j < |es| && es[j].CreateEvent?
                        && es[j].key == commands[i][1] && es[j].payload == commands[i][2]
  {
    hide LastAccounted, Uppercase;
    var n := |commands| - 1;
    var k: nat :| k <= |es| && Accounted(b, commands[..n], replies[..n], es[..k], readings)
                  && LastAccounted(b, commands, replies, es, readings, k);
    if i == n {
      LastSet(b, commands, replies, es, readings, k);
    } else {
      SetIsLogged(b, commands[..n], replies[..n], es[..k], readings, i);
      var j :| 0 <= j < k && es[..k][j].CreateEvent?
               && es[..k][j].key == commands[i][1] && es[..k][j].payload == commands[i][2];
      assert es[j] == es[..k][j];
    }
  }

  lemma LastSet(b: Beginning, commands: seq<seq<Bytes>>, replies: seq<Reply>, es: seq<Event>,
                readings: seq<int>, k: nat)
    requires |commands| == |replies| && commands != [] && k <= |es|
    requires LastAccounted(b, commands, replies, es, readings, k)
    requires Name(commands[|commands| - 1]) == SET && |commands[|commands| - 1]| == 3
    ensures var c := commands[|commands| - 1];
            k < |es| && es[k].CreateEvent? && es[k].key == c[1] && es[k].payload == c[2]
  {
    hide Uppercase, StoreAt, DeletesOf, EventKeys;
    assert es[k..] != [] ==> es[k..][0] == es[k];
  }

  /** And a restart shows, at every later reading, what the store behind the connection shows, if no
      RENAME went over a key that would have outlived its source. */
  lemma RestartAfterConnection(ttl: Int64, db: Db, es: seq<Event>, readings: seq<int>,
                               restartClock: nat -> int, later: int)
    requires Backed(ttl, db, es, readings, 0) && NotAfter(readings, later) && UpTo(restartClock, later)
    requires forall i: nat :: i < |es| ==> !Shortens(Replay(ttl, es[..i], At(readings)), es[i])
    ensures db.log.Some? && ReadLog(db.log.value) == Ok(es)
    ensures Replay(ttl, es, restartClock).Live(later) == db.store.Live(later)
  {
    BackedReads(ttl, db, es, readings, 0);
    BackedIsRunLog(ttl, db, es, readings);
    if ttl == NEVER {
      NoClockWithoutTtl(es, At(readings), restartClock);
    } else {
      FaithfulIfNothingShortens(ttl, es, At(readings), |es|, restartClock, later);
      assert es[..|es|] == es;
    }
  }

  /** A server that stops compacts first. A restart from the compacted log shows, at every later
      reading, what the store behind the connection shows, if nothing in the run diverges. */
  lemma CompactionAfterConnection(ttl: Int64, db: Db, es: seq<Event>, readings: seq<int>, from: int,
                                  eventClock: nat -> int, rewriteClock: Bytes -> int,
                                  compacted: seq<Event>, restartClock: nat -> int, later: int)
    requires Backed(ttl, db, es, readings, 0) && NotAfter(readings, from)
    requires NothingDiverges(ttl, es, At(readings))
    requires TakenBetween(eventClock, rewriteClock, from, later)
    requires CompactsTo(es, eventClock, rewriteClock, compacted)
    ensures Replay(ttl, compacted, restartClock).Live(later) == db.store.Live(later)
  {
    BackedIsRunLog(ttl, db, es, readings);
    FaithfulIfNothingDiverges(ttl, es, At(readings));
    assert es[..|es|] == es;
  }

  /** A database used by connections alone has one TTL in its log, as long as the sums fit in 64 bits;
      so `OneTtlCompactsFaithfully` speaks of it. */
  lemma BackedIsOneTtl(ttl: Int64, db: Db, es: seq<Event>, readings: seq<int>)
    requires Backed(ttl, db, es, readings, 0) && ttl != NEVER
    requires forall i :: 0 <= i < |readings| ==> -TWO_63 <= readings[i] + ttl < TWO_63
    ensures RunLog(ttl, es, At(readings)) && OneTtl(ttl, es, At(readings))
  {
    BackedIsRunLog(ttl, db, es, readings);
    forall i: nat | i < |es| && es[i].CreateEvent?
      ensures es[i].timestamp == At(readings)(i) + ttl
    {
      assert InRun(ttl, es, readings, i);
      StampIsSum(ttl, readings[i]);
    }
  }

  // ----- With a log and without -----

  /** The same but for the log: one world has one, the other has none. */
  predicate LogAside(v: World, w: World) {
    Look(v) == Look(w) && v.db.log.None? && w.db.log.Some?
  }

  lemma SameCommit(v: Db, w: Db, e: Event, now: int)
    requires v.store == w.store && v.log.None? && w.log.Some? && Fits(e)
    ensures var a, b := Committing(v, e, now), Committing(w, e, now);
            a.result == b.result && a.db.store == b.db.store && a.db.log.None? && b.db.log.Some?
  {
    PersistenceIsTransparent(v.store, w.log.value, e, now);
  }

  lemma {:induction false} SameDeletion(v: Db, w: Db, keys: seq<Bytes>)
    requires v.store == w.store && v.log.None? && w.log.Some? && AllShort(keys)
    ensures var a, b := DeleteAll(v, keys), DeleteAll(w, keys);
            a.count == b.count && a.db.store == b.db.store && a.db.log.None? && b.db.log.Some?
  {
    hide Committing;
    if keys != [] {
      var n := |keys| - 1;
      SameDeletion(v, w, keys[..n]);
      ArgumentsFit(DeleteEvent(NEVER, keys[n]));
      SameCommit(DeleteAll(v, keys[..n]).db, DeleteAll(w, keys[..n]).db, DeleteEvent(NEVER, keys[n]), 0);
    }
  }

  lemma SameCommand(x: Surroundings, v: World, w: World, arguments: seq<Bytes>)
    requires LogAside(v, w) && Encodable(arguments)
    ensures var a, b := RadishServer(x).dispatch(v, arguments), RadishServer(x).dispatch(w, arguments);
            a.reply == b.reply && a.close == b.close && LogAside(a.world, b.world)
  {
    hide Committing, DeleteAll, Text, Uppercase, GreetingValues;
    var name, now := Name(arguments), x.clock(v.turn);
    if name == DEL && |arguments| >= 2 {
      SameDeletion(v.db, w.db, arguments[1..]);
    } else if name == FLUSHDB {
      ArgumentsFit(ClearEvent(NEVER));
      SameCommit(v.db, w.db, ClearEvent(NEVER), 0);
    } else if (name == SET || name == RENAME) && |arguments| == 3 {
      var e := if name == SET then CreateEvent(Stamp(v.db.store.ttl, now), arguments[1], arguments[2])
               else RenameEvent(NEVER, arguments[1], arguments[2]);
      ArgumentsFit(e);
      SameCommit(v.db, w.db, e, now);
    }
  }

  /** Persistence is transparent to clients. The same bytes, read and written in the same steps, make a
      server without a log dispatch, answer and store what a server with one does, at every moment. */
  lemma ClientsCannotTell(x: Surroundings, v: World, w: World, steps: seq<Step>)
    requires LogAside(v, w) && CanRun(RadishServer(x), Start(v), steps)
    ensures CanRun(RadishServer(x), Start(w), steps)
    ensures var s, t := Run(RadishServer(x), Start(v), steps), Run(RadishServer(x), Start(w), steps);
            t == s.(world := t.world) && LogAside(s.world, t.world)
  {
    hide RadishServer, LogAside, Run;
    var d := RadishServer(x);
    var rel := (v: World, w: World) => LogAside(v, w);
    forall v, w, arguments | rel(v, w) && Encodable(arguments)
      ensures var a, b := d.dispatch(v, arguments), d.dispatch(w, arguments);
              a.reply == b.reply && a.close == b.close && rel(a.world, b.world)
    {
      SameCommand(x, v, w, arguments);
    }
    RunsSame(d, rel, v, w, steps);
  }

  // ----- Protocol versions -----

  predicate AsksForResp3(arguments: seq<Bytes>) {
    Name(arguments) == HELLO && |arguments| == 2 && arguments[1] == [51]
  }

  /** The version stays RESP2, and so do the replies, as long as RESP3 has not been asked for. */
  ghost predicate StillResp2(w: World, commands: seq<seq<Bytes>>, replies: seq<Reply>) {
    (forall i :: 0 <= i < |commands| ==> !AsksForResp3(commands[i])) ==>
      w.version == Resp2 && forall i :: 0 <= i < |replies| ==> Speaks(replies[i], Resp2)
  }

  lemma CommandStaysResp2(x: Surroundings, w: World, commands: seq<seq<Bytes>>, replies: seq<Reply>,
                          arguments: seq<Bytes>)
    requires StillResp2(w, commands, replies) && Encodable(arguments)
    requires Speaks(x.answer(Look(w), arguments), w.version)
    ensures var o := RadishServer(x).dispatch(w, arguments);
            StillResp2(o.world, commands + [arguments], replies + [o.reply])
  {
    hide RadishServer;
    CommandSpeaks(x, w, arguments);
    var longer := commands + [arguments];
    if forall i :: 0 <= i < |longer| ==> !AsksForResp3(longer[i]) {
      assert !AsksForResp3(longer[|commands|]);
      assert forall i :: 0 <= i < |commands| ==> commands[i] == longer[i];
    }
  }

  /** A client that never asks for RESP3 is never answered in it: over every run no reply to a command
      begins with a type RESP2 does not have. */
  lemma OnlyResp2(x: Surroundings, w: World, steps: seq<Step>)
    requires w.version == Resp2 && CanRun(RadishServer(x), Start(w), steps)
    requires forall seen, arguments :: Speaks(x.answer(seen, arguments), seen.version)
    requires var s := Run(RadishServer(x), Start(w), steps);
             forall i :: 0 <= i < |s.commands| ==> !AsksForResp3(s.commands[i])
    ensures var s := Run(RadishServer(x), Start(w), steps);
            |s.commands| <= |s.replies| && forall i :: 0 <= i < |s.commands| ==> Speaks(s.replies[i], Resp2)
  {
    hide RadishServer, Run, StillResp2;
    var d := RadishServer(x);
    var inv := (w: World, commands: seq<seq<Bytes>>, replies: seq<Reply>) => StillResp2(w, commands, replies);
    forall w, commands, replies, arguments | inv(w, commands, replies) && Encodable(arguments)
      ensures var o := d.dispatch(w, arguments);
              inv(o.world, commands + [arguments], replies + [o.reply])
    {
      CommandStaysResp2(x, w, commands, replies, arguments);
    }
    FirstIsResp2(w);
    RunKeeps(d, inv, w, steps);
    RepliesInResp2(Run(d, Start(w), steps));
  }

  lemma FirstIsResp2(w: World)
    requires w.version == Resp2
    ensures StillResp2(w, [], [])
  {}

  lemma RepliesInResp2(s: SessionState<World>)
    requires |s.commands| <= |s.replies| && StillResp2(s.world, s.commands, s.replies[..|s.commands|])
    requires forall i :: 0 <= i < |s.commands| ==> !AsksForResp3(s.commands[i])
    ensures forall i :: 0 <= i < |s.commands| ==> Speaks(s.replies[i], Resp2)
  {
    assert forall i :: 0 <= i < |s.commands| ==> s.replies[..|s.commands|][i] == s.replies[i];
  }
}
