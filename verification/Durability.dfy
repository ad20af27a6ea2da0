/** Every run of the database, byte by byte, with crashes and compactions anywhere. */
module Durability {
  import opened ByteStrings
  import opened LogCodec
  import opened Store
  import opened Compaction
  import opened Semantics
  import opened Database

  /** What is in progress: nothing, the append of a frame, or the writing of the temporary file. */
  datatype Phase =
    | Idle
    | Appending(event: Event, now: int, done: nat)
    | Rewriting(compacted: seq<Event>, done: nat)

  /** `main` and `tmp` are the files, `clock` the latest clock reading. `logged` are the events the
      log should hold: a compacted log and what was appended since. `history` are all mutations ever
      acknowledged, and those a restart found complete. */
  datatype Machine = Machine(store: StoreState, main: Bytes, tmp: Option<Bytes>, phase: Phase,
                             clock: int, logged: seq<Event>, history: seq<Event>)

  /** Readings are taken by the operations themselves; `until` is one not before any of them. */
  datatype Action =
    | Begin(event: Event, now: int)
    | WriteByte
    | Acknowledge
    | BeginCompact(eventClock: nat -> int, rewriteClock: Bytes -> int, compacted: seq<Event>, until: int)
    | WriteTmpByte
    | Replace
    | Abandon
    | Restart(restartClock: nat -> int, until: int)

  function Fresh(ttl: Int64, clock: int): Machine {
    Machine(EmptyStore(ttl), LogBytes([]), None, Idle, clock, [], [])
  }

  /** The events up to the first whose record is too large, where the rewriting throws. */
  function Writable(es: seq<Event>): seq<Event> {
    if es == [] || !Fits(es[0]) then [] else [es[0]] + Writable(es[1..])
  }

  lemma {:induction false} AllWritable(es: seq<Event>)
    requires AllFit(es)
    ensures Writable(es) == es
  {
    if es != [] {
      AllWritable(es[1..]);
    }
  }

  /** All a rewriting can put into the temporary file. */
  function TmpBytes(compacted: seq<Event>): Bytes {
    LogBytes(Writable(compacted))
  }

  /** No torn bytes behind the last complete frame. */
  predicate Clean(file: Bytes) {
    ReadLog(file).Ok? && file == LogBytes(ReadLog(file).value)
  }

  ghost predicate Enabled(m: Machine, a: Action) {
    match a
    case Begin(e, now) =>
      m.phase.Idle? && m.clock <= now && Fits(e) && Clean(m.main) && Apply(m.store, e, now).changed
    case WriteByte => m.phase.Appending? && m.phase.done < |Frame(m.phase.event)|
    case Acknowledge => m.phase.Appending? && m.phase.done == |Frame(m.phase.event)|
    case BeginCompact(eventClock, rewriteClock, compacted, until) =>
      && m.phase.Idle? && m.clock <= until && ReadLog(m.main).Ok?
      && CompactsTo(ReadLog(m.main).value, eventClock, rewriteClock, compacted)
      && (forall i :: eventClock(i) <= until) && (forall key :: rewriteClock(key) <= until)
    case WriteTmpByte => m.phase.Rewriting? && m.phase.done < |TmpBytes(m.phase.compacted)|
    case Replace =>
      && m.phase.Rewriting? && AllFit(m.phase.compacted) && m.tmp.Some?
      && m.phase.done == |TmpBytes(m.phase.compacted)|
    case Abandon => m.phase.Rewriting?
    case Restart(restartClock, until) => m.clock <= until && forall i :: restartClock(i) <= until
  }

  /** Whether the append in flight has reached the file with its last byte. */
  predicate InFlightComplete(m: Machine) {
    m.phase.Appending? && m.phase.done == |Frame(m.phase.event)|
  }

  function WithInFlight(m: Machine, es: seq<Event>): seq<Event> {
    if InFlightComplete(m) then es + [m.phase.event] else es
  }

  ghost function Next(m: Machine, a: Action): Machine
    requires Enabled(m, a)
  {
    match a
    case Begin(e, now) => m.(phase := Appending(e, now, 0), clock := now)
    case WriteByte =>
      m.(main := m.main + [Frame(m.phase.event)[m.phase.done]],
         phase := Appending(m.phase.event, m.phase.now, m.phase.done + 1))
    case Acknowledge =>
      m.(store := Apply(m.store, m.phase.event, m.phase.now).store, phase := Idle,
         logged := m.logged + [m.phase.event], history := m.history + [m.phase.event])
    case BeginCompact(_, _, compacted, until) =>
      m.(tmp := Some([]), phase := Rewriting(compacted, 0), clock := until)
    case WriteTmpByte =>
      m.(tmp := Some(TmpBytes(m.phase.compacted)[..m.phase.done + 1]),
         phase := Rewriting(m.phase.compacted, m.phase.done + 1))
    case Replace => m.(main := m.tmp.value, tmp := None, phase := Idle, logged := m.phase.compacted)
    case Abandon => m.(phase := Idle)
    case Restart(restartClock, until) =>
      match ReadLog(m.main)
      case Err(_) => m.(clock := until)
      case Ok(es) =>
        m.(store := Replay(m.store.ttl, es, restartClock), phase := Idle, clock := until,
           logged := WithInFlight(m, m.logged), history := WithInFlight(m, m.history))
  }

  ghost predicate CanRun(m: Machine, actions: seq<Action>)
    decreases |actions|
  {
    actions == [] || (Enabled(m, actions[0]) && CanRun(Next(m, actions[0]), actions[1..]))
  }

  ghost function Run(m: Machine, actions: seq<Action>): Machine
    requires CanRun(m, actions)
    decreases |actions|
  {
    if actions == [] then m else Run(Next(m, actions[0]), actions[1..])
  }

  /** The events the database issues, with neither a self-rename nor a RENAME that would let a
      shorter-lived key overwrite a longer-lived one. */
  predicate WellIssued(st: StoreState, e: Event, now: int) {
    match e
    case CreateEvent(timestamp, _, _) => timestamp as int == if st.HasTtl() then now + st.ttl else NEVER
    case RenameEvent(_, key, renameKey) => key != renameKey && !Shortens(st, e)
    case _ => true
  }

  /** All mutations of a run are such events. */
  ghost predicate WellIssuedRun(m: Machine, actions: seq<Action>)
    requires CanRun(m, actions)
    decreases |actions|
  {
    actions == [] ||
    ((actions[0].Begin? ==> WellIssued(m.store, actions[0].event, actions[0].now))
     && WellIssuedRun(Next(m, actions[0]), actions[1..]))
  }

  // ----- What a log means to a store -----

  /** The timestamp of a CREATE comes from a clock that reads `clock` at most, and from the TTL. */
  predicate Issued(ttl: Int64, e: Event, clock: int) {
    e.CreateEvent? ==> if ttl == NEVER then e.timestamp == NEVER else e.timestamp <= clock + ttl
  }

  predicate AllIssued(ttl: Int64, es: seq<Event>, clock: int) {
    forall i :: 0 <= i < |es| ==> Issued(ttl, es[i], clock)
  }

  predicate MapIssued(ttl: Int64, m: EventsMap, clock: int) {
    forall key :: key in m ==> Issued(ttl, m[key], clock)
  }

  /** The store shows, from `clock` on, what the log means. */
  ghost predicate Means(es: seq<Event>, st: StoreState, clock: int) {
    && LawfulLog(es) && SourcedLog(es) && AllIssued(st.ttl, es, clock)
    && AgreeFrom(st, Materialise(st.ttl, History(es)), clock)
  }

  lemma {:induction false} HistoryIssued(ttl: Int64, es: seq<Event>, clock: int)
    requires AllIssued(ttl, es, clock)
    ensures MapIssued(ttl, History(es), clock)
  {
    if es != [] {
      HistoryIssued(ttl, es[..|es| - 1], clock);
      HistoryOwnKeys(es[..|es| - 1]);
    }
  }

  lemma {:induction false} CompactMapIssued(ttl: Int64, es: seq<Event>, eventClock: nat -> int, clock: int)
    requires AllIssued(ttl, es, clock)
    ensures MapIssued(ttl, CompactMap(es, eventClock), clock)
  {
    if es != [] {
      CompactMapIssued(ttl, es[..|es| - 1], eventClock, clock);
      CompactMapOwnKeys(es[..|es| - 1], eventClock);
    }
  }

  lemma {:induction false} ListingIsLawful(es: seq<Event>, m: EventsMap)
    requires Lists(es, m)
    ensures LawfulLog(es) && SourcedLog(es)
  {
    if es != [] {
      var n := |es| - 1;
      ListsInit(es, m);
      ListingIsLawful(es[..n], m - {es[n].key});
      HistoryOfListing(es[..n], m - {es[n].key});
    }
  }

  lemma HistorySnoc(es: seq<Event>, e: Event)
    ensures History(es + [e]) == Execute(History(es), e)
    ensures LawfulLog(es + [e]) <==> LawfulLog(es) && Lawful(History(es), e)
    ensures SourcedLog(es + [e]) <==> SourcedLog(es) && (e.RenameEvent? ==> e.key in History(es))
  {
    assert (es + [e])[..|es|] == es;
  }

  /** What the database issues is lawful for any log that means what the store shows. */
  lemma IssuedIsLawful(es: seq<Event>, st: StoreState, clock: int, e: Event, now: int)
    requires Means(es, st, clock) && clock <= now
    requires WellIssued(st, e, now) && Apply(st, e, now).changed
    ensures Lawful(History(es), e) && (e.RenameEvent? ==> e.key in History(es))
  {
    HistoryOwnKeys(es);
    HistoryIssued(st.ttl, es, clock);
    var m := History(es);
    var other := Materialise(st.ttl, m);
    assert st.Live(now) == other.Live(now);
    if e.RenameEvent? {
      assert e.key in st.Live(now);
      assert e.key in other.Live(now);
      assert st.entries[e.key] == other.entries[e.key];
      if e.renameKey in m && e.renameKey in other.Live(now) {
        assert e.renameKey in st.Live(now);
      }
    }
  }

  lemma MeansStep(es: seq<Event>, st: StoreState, clock: int, e: Event, now: int)
    requires Means(es, st, clock) && clock <= now
    requires WellIssued(st, e, now) && Apply(st, e, now).changed
    ensures Means(es + [e], Apply(st, e, now).store, now)
  {
    IssuedIsLawful(es, st, clock, e, now);
    HistorySnoc(es, e);
    HistoryOwnKeys(es);
    forall later | now <= later
      ensures Apply(st, e, now).store.Live(later) == Materialise(st.ttl, History(es + [e])).Live(later)
    {
      LiveStep(st, History(es), e, now, later);
    }
  }

  lemma MeansCompacted(es: seq<Event>, st: StoreState, clock: int, eventClock: nat -> int,
                       rewriteClock: Bytes -> int, compacted: seq<Event>, until: int)
    requires Means(es, st, clock) && clock <= until
    requires CompactsTo(es, eventClock, rewriteClock, compacted)
    requires (forall i :: eventClock(i) <= until) && (forall key :: rewriteClock(key) <= until)
    ensures Means(compacted, st, until)
  {
    var m := CompactMap(es, eventClock);
    var kept := Kept(m, rewriteClock);
    HistoryOfListing(compacted, kept);
    ListingIsLawful(compacted, kept);
    CompactMapOwnKeys(es, eventClock);
    CompactMapIssued(st.ttl, es, eventClock, clock);
    forall later | until <= later
      ensures st.Live(later) == Materialise(st.ttl, kept).Live(later)
    {
      CompactMapIsHistory(st.ttl, es, eventClock, later);
      KeptIsAllLive(st.ttl, m, rewriteClock, later);
    }
  }

  lemma MeansReplayed(es: seq<Event>, st: StoreState, clock: int, restartClock: nat -> int, until: int)
    requires Means(es, st, clock) && clock <= until && forall i :: restartClock(i) <= until
    ensures Replay(st.ttl, es, restartClock).ttl == st.ttl
    ensures Means(es, Replay(st.ttl, es, restartClock), until)
    ensures AgreeFrom(st, Replay(st.ttl, es, restartClock), until)
  {
    ReplayTtl(st.ttl, es, restartClock);
    forall later | until <= later
      ensures Replay(st.ttl, es, restartClock).Live(later) == Materialise(st.ttl, History(es)).Live(later)
    {
      ReplayIsHistory(st.ttl, es, restartClock, later);
    }
  }

  // ----- The invariant -----

  /** A log of complete frames, and at most one torn frame behind them. */
  ghost predicate Holds(file: Bytes, es: seq<Event>) {
    exists tail :: TornTail(tail) && file == LogBytes(es) + tail
  }

  lemma HoldsExactly(es: seq<Event>)
    ensures Holds(LogBytes(es), es)
  {
    assert TornTail([]) && LogBytes(es) == LogBytes(es) + [];
  }

  /** The bytes on disk: the frames of `logged`, then what the phase has put behind them. */
  ghost predicate FilesOk(m: Machine) {
    && AllFit(m.logged)
    && match m.phase
       case Appending(e, _, done) =>
         Fits(e) && done <= |Frame(e)| && m.main == LogBytes(m.logged) + Frame(e)[..done]
       case Rewriting(compacted, done) =>
         Holds(m.main, m.logged)
         && done <= |TmpBytes(compacted)| && m.tmp == Some(TmpBytes(compacted)[..done])
       case Idle => Holds(m.main, m.logged)
  }

  /** The store and both logs tell the same story. */
  ghost predicate StoryOk(m: Machine) {
    && Means(m.logged, m.store, m.clock) && Means(m.history, m.store, m.clock)
    && (m.phase.Appending? ==>
          m.phase.now == m.clock && WellIssued(m.store, m.phase.event, m.phase.now)
          && Apply(m.store, m.phase.event, m.phase.now).changed)
    && (m.phase.Rewriting? ==> Means(m.phase.compacted, m.store, m.clock))
  }

  /** Whatever is in progress, the log file reads as the logged events, and the one in flight once
      its last byte is there. */
  lemma FileReads(m: Machine)
    requires FilesOk(m)
    ensures ReadLog(m.main) == Ok(WithInFlight(m, m.logged)) && AllFit(WithInFlight(m, m.logged))
  {
    BytesInFlightHold(m);
    var es := WithInFlight(m, m.logged);
    var tail :| TornTail(tail) && m.main == LogBytes(es) + tail;
    ReadLogComplete(es, tail);
  }

  lemma FreshOk(ttl: Int64, clock: int)
    ensures FilesOk(Fresh(ttl, clock)) && StoryOk(Fresh(ttl, clock))
  {
    HoldsExactly([]);
    assert Materialise(ttl, History([])) == EmptyStore(ttl);
  }

  lemma BytesInFlightHold(m: Machine)
    requires FilesOk(m)
    ensures Holds(m.main, WithInFlight(m, m.logged)) && AllFit(WithInFlight(m, m.logged))
  {
    if m.phase.Appending? {
      var e, done := m.phase.event, m.phase.done;
      if done == |Frame(e)| {
        assert Frame(e)[..done] == Frame(e);
        LogBytesSnoc(m.logged, e);
        HoldsExactly(m.logged + [e]);
      } else {
        StrictPrefixIsTorn(e, Frame(e)[..done]);
      }
    }
  }

  lemma WriteByteFiles(m: Machine)
    requires FilesOk(m) && Enabled(m, WriteByte)
    ensures FilesOk(Next(m, WriteByte))
  {
    hide Frame, LogBytes, Fits;
    var frame, done := Frame(m.phase.event), m.phase.done;
    assert frame[..done + 1] == frame[..done] + [frame[done]];
    Associate(LogBytes(m.logged), frame[..done], [frame[done]]);
  }

  lemma ReplaceFiles(m: Machine)
    requires FilesOk(m) && Enabled(m, Replace)
    ensures FilesOk(Next(m, Replace))
  {
    var log := TmpBytes(m.phase.compacted);
    assert log[..|log|] == log;
    AllWritable(m.phase.compacted);
    HoldsExactly(m.phase.compacted);
  }

  lemma BeginFiles(m: Machine, e: Event, now: int)
    requires FilesOk(m) && Enabled(m, Begin(e, now))
    ensures FilesOk(Next(m, Begin(e, now)))
  {
    FileReads(m);
    assert Frame(e)[..0] == [];
    assert LogBytes(m.logged) + [] == LogBytes(m.logged);
  }

  lemma NextFiles(m: Machine, a: Action)
    requires FilesOk(m) && Enabled(m, a)
    ensures FilesOk(Next(m, a))
  {
    hide LogBytes, Frame, Clean, CompactsTo, Apply;
    match a
    case Begin(e, now) => BeginFiles(m, e, now);
    case WriteByte => WriteByteFiles(m);
    case Acknowledge => BytesInFlightHold(m);
    case BeginCompact(_, _, _, _) =>
    case WriteTmpByte =>
    case Replace => ReplaceFiles(m);
    case Abandon =>
    case Restart(_, _) =>
      FileReads(m);
      BytesInFlightHold(m);
  }

  lemma MeansTransfer(es: seq<Event>, st: StoreState, clock: int, other: StoreState, until: int)
    requires Means(es, st, clock) && clock <= until && other.ttl == st.ttl && AgreeFrom(st, other, until)
    ensures Means(es, other, until)
  {}

  lemma AcknowledgeStory(m: Machine)
    requires StoryOk(m) && m.phase.Appending?
    ensures var st := Apply(m.store, m.phase.event, m.phase.now).store;
            && st.ttl == m.store.ttl
            && Means(m.logged + [m.phase.event], st, m.clock)
            && Means(m.history + [m.phase.event], st, m.clock)
  {
    MeansStep(m.logged, m.store, m.clock, m.phase.event, m.phase.now);
    MeansStep(m.history, m.store, m.clock, m.phase.event, m.phase.now);
  }

  lemma RestartStory(m: Machine, restartClock: nat -> int, until: int)
    requires StoryOk(m) && m.clock <= until && forall i :: restartClock(i) <= until
    ensures var st := Replay(m.store.ttl, WithInFlight(m, m.logged), restartClock);
            && st.ttl == m.store.ttl
            && Means(WithInFlight(m, m.logged), st, until) && Means(WithInFlight(m, m.history), st, until)
  {
    var before := m.store;
    if InFlightComplete(m) {
      AcknowledgeStory(m);
      before := Apply(m.store, m.phase.event, m.phase.now).store;
    }
    var es := WithInFlight(m, m.logged);
    MeansReplayed(es, before, m.clock, restartClock, until);
    MeansTransfer(WithInFlight(m, m.history), before, m.clock, Replay(m.store.ttl, es, restartClock), until);
  }

  lemma NextStory(m: Machine, a: Action)
    requires FilesOk(m) && StoryOk(m) && Enabled(m, a)
    requires a.Begin? ==> WellIssued(m.store, a.event, a.now)
    ensures StoryOk(Next(m, a)) && Next(m, a).store.ttl == m.store.ttl && m.clock <= Next(m, a).clock
  {
    FileReads(m);
    match a
    case Begin(e, now) =>
      MeansTransfer(m.logged, m.store, m.clock, m.store, now);
      MeansTransfer(m.history, m.store, m.clock, m.store, now);
    case WriteByte =>
    case Acknowledge =>
      AcknowledgeStory(m);
    case BeginCompact(eventClock, rewriteClock, compacted, until) =>
      MeansTransfer(m.logged, m.store, m.clock, m.store, until);
      MeansTransfer(m.history, m.store, m.clock, m.store, until);
      MeansCompacted(m.logged, m.store, m.clock, eventClock, rewriteClock, compacted, until);
    case WriteTmpByte =>
    case Replace =>
    case Abandon =>
    case Restart(restartClock, until) =>
      RestartStory(m, restartClock, until);
  }

  lemma {:induction false} RunFiles(m: Machine, actions: seq<Action>)
    requires FilesOk(m) && CanRun(m, actions)
    ensures FilesOk(Run(m, actions)) && Run(m, actions).store.ttl == m.store.ttl
    decreases |actions|
  {
    hide FilesOk;
    if actions != [] {
      NextFiles(m, actions[0]);
      NextTtl(m, actions[0]);
      RunFiles(Next(m, actions[0]), actions[1..]);
    }
  }

  lemma NextTtl(m: Machine, a: Action)
    requires Enabled(m, a)
    ensures Next(m, a).store.ttl == m.store.ttl
  {
    if a.Restart? && ReadLog(m.main).Ok? {
      ReplayTtl(m.store.ttl, ReadLog(m.main).value, a.restartClock);
    }
  }

  lemma {:induction false} RunStory(m: Machine, actions: seq<Action>)
    requires FilesOk(m) && StoryOk(m) && CanRun(m, actions) && WellIssuedRun(m, actions)
    ensures StoryOk(Run(m, actions))
    decreases |actions|
  {
    hide FilesOk, StoryOk, WellIssued;
    if actions != [] {
      NextFiles(m, actions[0]);
      NextStory(m, actions[0]);
      RunStory(Next(m, actions[0]), actions[1..]);
    }
  }

  // ----- Main results -----

  /** Crash safety. After any run, whatever mutations, compactions, crashes and restarts in any order
      and at any byte, the log file is readable, it holds exactly the logged events, and the one in
      flight once its last byte is there; and that is what a restart replays. What is left in the
      temporary file plays no part. */
  lemma CrashSafety(ttl: Int64, start: int, actions: seq<Action>, restartClock: nat -> int, until: int)
    requires CanRun(Fresh(ttl, start), actions)
    requires Enabled(Run(Fresh(ttl, start), actions), Restart(restartClock, until))
    ensures var m := Run(Fresh(ttl, start), actions);
            && ReadLog(m.main) == Ok(WithInFlight(m, m.logged))
            && Next(m, Restart(restartClock, until)).store == Replay(ttl, WithInFlight(m, m.logged), restartClock)
  {
    FreshOk(ttl, start);
    RunFiles(Fresh(ttl, start), actions);
    FileReads(Run(Fresh(ttl, start), actions));
  }

  lemma LoggedStep(m: Machine, a: Action)
    requires Enabled(m, a) && !a.Replace?
    ensures var next := Next(m, a);
            m.history <= next.history && next.logged == m.logged + next.history[|m.history|..]
  {
    hide Enabled, ReadLog, Frame, LogBytes, TmpBytes, Apply, Replay;
    var next := Next(m, a);
    if next.history == m.history {
      assert m.logged + m.history[|m.history|..] == m.logged;
    }
  }

  /** What is acknowledged, or found complete by a restart, goes behind what the log held before, as
      long as no compaction replaces it. */
  lemma {:induction false} LoggedSince(m: Machine, actions: seq<Action>)
    requires CanRun(m, actions)
    requires forall i :: 0 <= i < |actions| ==> !actions[i].Replace?
    ensures var n := Run(m, actions);
            m.history <= n.history && n.logged == m.logged + n.history[|m.history|..]
    decreases |actions|
  {
    hide Enabled, Next;
    if actions == [] {
      assert m.logged + m.history[|m.history|..] == m.logged;
    } else {
      assert !actions[0].Replace?;
      var next := Next(m, actions[0]);
      LoggedStep(m, actions[0]);
      LoggedSince(next, actions[1..]);
      var n := Run(m, actions);
      assert m.history <= next.history <= n.history;
      assert n.history[|m.history|..]
          == next.history[|m.history|..] + n.history[|next.history|..];
    }
  }

  /** From any state of any run on, and until a compaction replaces the log, the file holds what it
      held and then exactly the mutations acknowledged since, in their order, and the one in flight
      once its last byte is there. Just after a compaction, what it held is the compacted log. */
  lemma FileHoldsHistory(ttl: Int64, start: int, before: seq<Action>, after: seq<Action>)
    requires CanRun(Fresh(ttl, start), before) && CanRun(Run(Fresh(ttl, start), before), after)
    requires forall i :: 0 <= i < |after| ==> !after[i].Replace?
    ensures var m := Run(Fresh(ttl, start), before); var n := Run(m, after);
            && m.history <= n.history
            && ReadLog(n.main) == Ok(WithInFlight(n, m.logged + n.history[|m.history|..]))
  {
    hide Run, CanRun, FilesOk, StoryOk, ReadLog;
    FreshOk(ttl, start);
    RunFiles(Fresh(ttl, start), before);
    var m := Run(Fresh(ttl, start), before);
    RunFiles(m, after);
    LoggedSince(m, after);
    FileReads(Run(m, after));
  }

  /** In particular, without any compaction the log holds all mutations ever acknowledged. */
  lemma UncompactedFileHoldsAll(ttl: Int64, start: int, actions: seq<Action>)
    requires CanRun(Fresh(ttl, start), actions)
    requires forall i :: 0 <= i < |actions| ==> !actions[i].Replace?
    ensures var n := Run(Fresh(ttl, start), actions); ReadLog(n.main) == Ok(WithInFlight(n, n.history))
  {
    hide ReadLog;
    FileHoldsHistory(ttl, start, [], actions);
    var n := Run(Fresh(ttl, start), actions);
    assert [] + n.history[0..] == n.history;
  }

  /** Durability. In a run without self-renames and without a RENAME over a longer-lived key, a
      restart shows, at every later reading, what all acknowledged mutations (and a complete one in
      flight) mean, compacted or not, and the running store shows the same. */
  lemma Recovery(ttl: Int64, start: int, actions: seq<Action>, restartClock: nat -> int, later: int)
    requires CanRun(Fresh(ttl, start), actions) && WellIssuedRun(Fresh(ttl, start), actions)
    requires Enabled(Run(Fresh(ttl, start), actions), Restart(restartClock, later))
    ensures var m := Run(Fresh(ttl, start), actions);
            && Next(m, Restart(restartClock, later)).store.Live(later)
               == Materialise(ttl, History(WithInFlight(m, m.history))).Live(later)
            && m.store.Live(later) == Materialise(ttl, History(m.history)).Live(later)
  {
    FreshOk(ttl, start);
    RunFiles(Fresh(ttl, start), actions);
    RunStory(Fresh(ttl, start), actions);
    var m := Run(Fresh(ttl, start), actions);
    CrashSafety(ttl, start, actions, restartClock, later);
    RestartStory(m, restartClock, later);
  }

  /** Without a TTL the clock plays no part, and whenever nothing is in progress the store is the
      replay of its file, entry for entry. A self-rename does no harm until a compaction follows. */
  lemma StoreIsReplay(start: int, actions: seq<Action>, restartClock: nat -> int)
    requires CanRun(Fresh(NEVER, start), actions) && Run(Fresh(NEVER, start), actions).phase.Idle?
    requires WellIssuedRun(Fresh(NEVER, start), actions)
             || forall i :: 0 <= i < |actions| ==> !actions[i].Replace?
    ensures var m := Run(Fresh(NEVER, start), actions);
            ReadLog(m.main).Ok? && m.store == Replay(NEVER, ReadLog(m.main).value, restartClock)
  {
    hide Materialise, LogBytes, FilesOk, StoryOk, ReadLog, CanRun, Run, WellIssuedRun, Replay;
    FreshOk(NEVER, start);
    RunFiles(Fresh(NEVER, start), actions);
    var m := Run(Fresh(NEVER, start), actions);
    FileReads(m);
    if WellIssuedRun(Fresh(NEVER, start), actions) {
      RunStory(Fresh(NEVER, start), actions);
      StoryIsReplay(m, restartClock);
    } else {
      FreshIsReplay(start, restartClock);
      UncompactedIsReplay(Fresh(NEVER, start), actions, restartClock);
    }
  }

  lemma FreshIsReplay(start: int, clock: nat -> int)
    ensures Fresh(NEVER, start).store == Replay(NEVER, Fresh(NEVER, start).logged, clock)
  {}

  lemma StoryIsReplay(m: Machine, restartClock: nat -> int)
    requires StoryOk(m) && m.store.ttl == NEVER
    ensures m.store == Replay(NEVER, m.logged, restartClock)
  {
    hide Materialise, History, LogBytes;
    var replayed := Replay(NEVER, m.logged, restartClock);
    ReplayTtl(NEVER, m.logged, restartClock);
    NoClockWithoutTtl(m.logged, restartClock, _ => m.clock);
    MeansReplayed(m.logged, m.store, m.clock, _ => m.clock, m.clock);
    assert m.store.Live(m.clock) == m.store.entries;
    assert replayed.Live(m.clock) == replayed.entries;
  }

  lemma {:induction false} UncompactedIsReplay(m: Machine, actions: seq<Action>, clock: nat -> int)
    requires FilesOk(m) && CanRun(m, actions) && m.store == Replay(NEVER, m.logged, clock)
    requires forall i :: 0 <= i < |actions| ==> !actions[i].Replace?
    ensures Run(m, actions).store == Replay(NEVER, Run(m, actions).logged, clock)
    decreases |actions|
  {
    if actions != [] {
      assert !actions[0].Replace?;
      NextFiles(m, actions[0]);
      FileReads(m);
      ReplayTtl(NEVER, m.logged, clock);
      match actions[0] {
        case Acknowledge => ReplaySnoc(m.logged, m.phase.event, clock, m.phase.now);
        case Restart(restartClock, _) => NoClockWithoutTtl(WithInFlight(m, m.logged), restartClock, clock);
        case _ =>
      }
      UncompactedIsReplay(Next(m, actions[0]), actions[1..], clock);
    }
  }

  lemma ReplaySnoc(es: seq<Event>, e: Event, clock: nat -> int, now: int)
    ensures Replay(NEVER, es + [e], clock) == Apply(Replay(NEVER, es, clock), e, now).store
  {
    assert (es + [e])[..|es|] == es;
    ReplayTtl(NEVER, es, clock);
  }

  // ----- The database is such a machine -----

  /** The rest of an append after `done` bytes. */
  ghost function FinishAppend(e: Event, done: nat): seq<Action>
    requires done <= |Frame(e)|
    decreases |Frame(e)| - done
  {
    if done == |Frame(e)| then [Acknowledge] else [WriteByte] + FinishAppend(e, done + 1)
  }

  lemma {:induction false} FinishAppendRun(m: Machine)
    requires m.phase.Appending? && m.phase.done <= |Frame(m.phase.event)|
    ensures var e := m.phase.event; var actions := FinishAppend(e, m.phase.done);
            && CanRun(m, actions)
            && Run(m, actions) ==
               m.(store := Apply(m.store, e, m.phase.now).store, phase := Idle,
                  main := m.main + Frame(e)[m.phase.done..],
                  logged := m.logged + [e], history := m.history + [e])
    decreases |Frame(m.phase.event)| - m.phase.done
  {
    hide Frame, Fits, Apply, LogBytes, Clean;
    var frame, done := Frame(m.phase.event), m.phase.done;
    if done == |frame| {
      assert m.main + frame[done..] == m.main;
      assert [Acknowledge][1..] == [];
    } else {
      var next := Next(m, WriteByte);
      FinishAppendRun(next);
      assert next.main + frame[done + 1..] == m.main + frame[done..];
      assert FinishAppend(m.phase.event, done)[1..] == FinishAppend(m.phase.event, done + 1);
    }
  }

  /** One effective mutation of the database, taken as one step there, is a run of this machine:
      they end in the same store and the same file. */
  lemma CommitIsARun(m: Machine, e: Event, now: int)
    requires Enabled(m, Begin(e, now))
    ensures var actions := [Begin(e, now)] + FinishAppend(e, 0);
            && CanRun(m, actions)
            && Committing(Db(m.store, Some(m.main)), e, now)
               == Committed(Db(Run(m, actions).store, Some(Run(m, actions).main)), Ok(true))
            && Run(m, actions).logged == m.logged + [e] && Run(m, actions).phase.Idle?
  {
    var actions := [Begin(e, now)] + FinishAppend(e, 0);
    assert actions[1..] == FinishAppend(e, 0);
    FinishAppendRun(Next(m, Begin(e, now)));
    assert Frame(e)[0..] == Frame(e);
  }

  /** The rest of a rewriting after `done` bytes of the temporary file: it replaces the log, or throws
      at a record that is too large. */
  ghost function FinishRewrite(compacted: seq<Event>, done: nat): seq<Action>
    requires done <= |TmpBytes(compacted)|
    decreases |TmpBytes(compacted)| - done
  {
    if done == |TmpBytes(compacted)| then [if AllFit(compacted) then Replace else Abandon]
    else [WriteTmpByte] + FinishRewrite(compacted, done + 1)
  }

  lemma {:induction false} FinishRewriteRun(m: Machine)
    requires m.phase.Rewriting? && m.phase.done <= |TmpBytes(m.phase.compacted)|
    requires m.tmp == Some(TmpBytes(m.phase.compacted)[..m.phase.done])
    ensures var compacted := m.phase.compacted; var actions := FinishRewrite(compacted, m.phase.done);
            && CanRun(m, actions)
            && Run(m, actions) ==
               if AllFit(compacted)
               then m.(main := LogBytes(compacted), tmp := None, phase := Idle, logged := compacted)
               else m.(tmp := Some(TmpBytes(compacted)), phase := Idle)
    decreases |TmpBytes(m.phase.compacted)| - m.phase.done
  {
    hide TmpBytes, LogBytes, AllFit;
    var log, done := TmpBytes(m.phase.compacted), m.phase.done;
    if done == |log| {
      assert log[..done] == log;
      AllWrittenOut(m.phase.compacted);
      var last := if AllFit(m.phase.compacted) then Replace else Abandon;
      assert [last][1..] == [];
    } else {
      FinishRewriteRun(Next(m, WriteTmpByte));
      assert FinishRewrite(m.phase.compacted, done)[1..] == FinishRewrite(m.phase.compacted, done + 1);
    }
  }

  lemma AllWrittenOut(compacted: seq<Event>)
    ensures AllFit(compacted) ==> TmpBytes(compacted) == LogBytes(compacted)
  {
    if AllFit(compacted) {
      AllWritable(compacted);
    }
  }

  /** A compaction of the database is a run of this machine too. It leaves the store alone. If every
      survivor fits in a record, it leaves, whatever torn bytes the log ended in, a file to which
      appends may go again; if not, it throws, and the log is as it was. */
  lemma CompactIsARun(m: Machine, eventClock: nat -> int, rewriteClock: Bytes -> int,
                      compacted: seq<Event>, until: int)
    requires Enabled(m, BeginCompact(eventClock, rewriteClock, compacted, until))
    ensures var begin := BeginCompact(eventClock, rewriteClock, compacted, until);
            var actions := [begin] + FinishRewrite(compacted, 0);
            && CanRun(m, actions)
            && Run(m, actions).store == m.store && Run(m, actions).phase.Idle?
            && if AllFit(compacted) then
                 Run(m, actions).main == LogBytes(compacted) && Clean(Run(m, actions).main)
                 && Run(m, actions).logged == compacted && Run(m, actions).tmp == None
               else Run(m, actions).main == m.main && Run(m, actions).logged == m.logged
  {
    var begin := BeginCompact(eventClock, rewriteClock, compacted, until);
    var actions := [begin] + FinishRewrite(compacted, 0);
    assert actions[1..] == FinishRewrite(compacted, 0);
    assert TmpBytes(compacted)[..0] == [];
    FinishRewriteRun(Next(m, begin));
    if AllFit(compacted) {
      ReadLogComplete(compacted, []);
    }
    assert LogBytes(compacted) + [] == LogBytes(compacted);
  }
}
