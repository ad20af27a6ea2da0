/** Three readings of one log: the running store, a later replay, and compaction then replay. */
module Semantics {
  import opened ByteStrings
  import opened LogCodec
  import opened Store
  import opened Compaction

  /** A clock with the given readings, one an event. */
  function At(readings: seq<int>): nat -> int {
    (i: nat) => if i < |readings| then readings[i] else 0
  }

  /** A store after a log was applied to it; `clock(i)` is the reading taken at event `i`. */
  function ReplayFrom(st: StoreState, es: seq<Event>, clock: nat -> int): StoreState {
    if es == [] then st
    else
      var last := |es| - 1;
      Apply(ReplayFrom(st, es[..last], clock), es[last], clock(last)).store
  }

  /** Replaying a log at start-up. With the readings of the original operations this is the running
      store itself. */
  function Replay(ttl: Int64, es: seq<Event>, clock: nat -> int): StoreState {
    ReplayFrom(EmptyStore(ttl), es, clock)
  }

  /** The store an event map stands for. */
  function Materialise(ttl: Int64, m: EventsMap): StoreState {
    StoreState(ttl, map key | key in m ::
                 Entry(if m[key].CreateEvent? then m[key].payload else [],
                       if ttl != NEVER then m[key].timestamp else NEVER))
  }

  /** Same entries visible to clients from reading `now` on, for ever. */
  ghost predicate AgreeFrom(a: StoreState, b: StoreState, now: int) {
    forall later :: now <= later ==> a.Live(later) == b.Live(later)
  }

  /** No overwrite shortens the expiry of a key, and no key is renamed to itself. */
  predicate Lawful(m: EventsMap, e: Event) {
    match e
    case CreateEvent(timestamp, key, _) => key in m ==> m[key].timestamp <= timestamp
    case RenameEvent(_, key, renameKey) =>
      key in m ==> key != renameKey && (renameKey in m ==> m[renameKey].timestamp <= m[key].timestamp)
    case _ => true
  }

  predicate LawfulLog(es: seq<Event>) {
    es == [] || (LawfulLog(es[..|es| - 1]) && Lawful(History(es[..|es| - 1]), es[|es| - 1]))
  }

  /** Every RENAME finds its source. */
  predicate SourcedLog(es: seq<Event>) {
    es == [] ||
    (SourcedLog(es[..|es| - 1])
     && (es[|es| - 1].RenameEvent? ==> es[|es| - 1].key in History(es[..|es| - 1])))
  }

  /** The first `n` readings of a clock never run backwards. */
  ghost predicate Forward(clock: nat -> int, n: nat) {
    forall i: nat, j: nat :: i <= j < n ==> clock(i) <= clock(j)
  }

  /** A store without a TTL logs no expiry. */
  predicate OneConfiguration(ttl: Int64, es: seq<Event>) {
    ttl == NEVER ==> forall i :: 0 <= i < |es| && es[i].CreateEvent? ==> es[i].timestamp == NEVER
  }

  predicate NeverStamped(m: EventsMap) {
    forall key :: key in m ==> m[key].timestamp == NEVER
  }

  // ----- One event -----

  lemma LivePut(st: StoreState, key: Bytes, value: Bytes, timestamp: Int64, later: int)
    ensures st.Put(key, value, timestamp).Live(later) ==
            if !st.HasTtl() then st.Live(later)[key := Entry(value, NEVER)]
            else if later < timestamp then st.Live(later)[key := Entry(value, timestamp)]
            else st.Live(later) - {key}
  {}

  lemma LiveMove(st: StoreState, key: Bytes, renameKey: Bytes, later: int)
    requires key in st.entries && key != renameKey
    ensures st.Move(key, renameKey).Live(later) ==
            if key in st.Live(later) then (st.Live(later) - {key})[renameKey := st.Live(later)[key]]
            else st.Live(later) - {renameKey}
  {}

  lemma LiveRemove(st: StoreState, key: Bytes, later: int)
    ensures st.Remove(key).Live(later) == st.Live(later) - {key}
  {}

  /** A strategy is the store itself under a clock that stands before every timestamp. */
  lemma ExecuteIsApply(ttl: Int64, m: EventsMap, e: Event)
    requires OwnKeys(m) && (e.RenameEvent? && e.key in m ==> e.key != e.renameKey)
    ensures Materialise(ttl, Execute(m, e)) == Apply(Materialise(ttl, m), e, -TWO_63 - 1).store
  {
    var st := Materialise(ttl, m);
    match e
    case CreateEvent(_, _, _) =>
    case RenameEvent(_, key, renameKey) =>
      assert st.CanMove(key, -TWO_63 - 1) <==> key in m;
      if key in m {
        assert Materialise(ttl, Execute(m, e)).entries == st.Move(key, renameKey).entries;
      }
    case DeleteEvent(_, _) =>
    case ClearEvent(_) =>
  }

  /** A RENAME of `key` shows nothing new at `later` unless `key` is still visible then. */
  lemma LiveRename(st: StoreState, key: Bytes, renameKey: Bytes, timestamp: Int64, now: int, later: int)
    requires now <= later && key != renameKey
    requires key !in st.Live(later) ==> renameKey !in st.Live(later)
    ensures var a := st.Live(later);
            Apply(st, RenameEvent(timestamp, key, renameKey), now).store.Live(later) ==
            if key in a then (a - {key})[renameKey := a[key]] else a
  {
    if key in st.entries {
      LiveMove(st, key, renameKey, later);
    }
  }

  /** Whatever two states differ in, if they agree on what is visible at `later`, they still do
      after one lawful event that one applies with a clock reading and the other without. A RENAME
      must have no source in the one if it has none in the other. */
  lemma LiveStep(st: StoreState, m: EventsMap, e: Event, now: int, later: int)
    requires now <= later && OwnKeys(m) && Lawful(m, e)
    requires e.RenameEvent? && e.key !in m ==> !st.CanMove(e.key, now)
    requires st.Live(later) == Materialise(st.ttl, m).Live(later)
    ensures Apply(st, e, now).store.Live(later) == Materialise(st.ttl, Execute(m, e)).Live(later)
  {
    var other := Materialise(st.ttl, m);
    ExecuteIsApply(st.ttl, m, e);
    match e
    case CreateEvent(timestamp, key, payload) =>
      LivePut(st, key, payload, timestamp, later);
      LivePut(other, key, payload, timestamp, later);
    case RenameEvent(timestamp, key, renameKey) =>
      if key in m {
        assert key !in other.Live(later) ==> renameKey !in other.Live(later);
        LiveRename(st, key, renameKey, timestamp, now, later);
        LiveMove(other, key, renameKey, later);
      }
    case DeleteEvent(_, key) =>
      LiveRemove(st, key, later);
      LiveRemove(other, key, later);
    case ClearEvent(_) =>
  }

  /** Skipping an expired CREATE is as good as executing it, if nothing longer-lived is under it. */
  lemma SkipStep(ttl: Int64, kept: EventsMap, m: EventsMap, e: Event, now: int, later: int)
    requires ttl != NEVER && now <= later && e.CreateEvent? && PastExpiry(e, now) && Lawful(m, e)
    requires Materialise(ttl, kept).Live(later) == Materialise(ttl, m).Live(later)
    ensures Materialise(ttl, kept).Live(later) == Materialise(ttl, Execute(m, e)).Live(later)
  {
    assert e.key !in Materialise(ttl, m).Live(later);
  }

  lemma BeforeAllTime(st: StoreState, e: Event, now: int)
    requires now < -TWO_63
    ensures Apply(st, e, now) == Apply(st, e, -TWO_63 - 1)
  {}

  lemma CompactLiveStep(ttl: Int64, kept: EventsMap, m: EventsMap, e: Event, now: int, later: int)
    requires now <= later && OwnKeys(kept) && OwnKeys(m) && Lawful(m, e) && kept.Keys <= m.Keys
    requires ttl == NEVER && e.CreateEvent? ==> e.timestamp == NEVER
    requires Materialise(ttl, kept).Live(later) == Materialise(ttl, m).Live(later)
    ensures Materialise(ttl, CompactStep(kept, e, now)).Live(later)
            == Materialise(ttl, Execute(m, e)).Live(later)
    ensures CompactStep(kept, e, now).Keys <= Execute(m, e).Keys
  {
    if e.CreateEvent? && PastExpiry(e, now) {
      SkipStep(ttl, kept, m, e, now, later);
    } else {
      ExecuteIsApply(ttl, kept, e);
      var start := if later < -TWO_63 then later else -TWO_63 - 1;
      BeforeAllTime(Materialise(ttl, kept), e, start);
      LiveStep(Materialise(ttl, kept), m, e, start, later);
    }
  }

  // ----- Whole logs -----

  /** Under a clock that never runs backwards, a RENAME finds no source in the store when the log
      has none for it. */
  lemma {:induction false} ForwardReplay(ttl: Int64, es: seq<Event>, clock: nat -> int, later: int)
    requires LawfulLog(es) && Forward(clock, |es|) && (es != [] ==> clock(|es| - 1) <= later)
    ensures Replay(ttl, es, clock).Live(later) == Materialise(ttl, History(es)).Live(later)
  {
    ReplayTtl(ttl, es, clock);
    if es != [] {
      var n := |es| - 1;
      var st, m := Replay(ttl, es[..n], clock), History(es[..n]);
      ForwardReplay(ttl, es[..n], clock, clock(n));
      ForwardReplay(ttl, es[..n], clock, later);
      ReplayTtl(ttl, es[..n], clock);
      HistoryOwnKeys(es[..n]);
      assert es[n].RenameEvent? && es[n].key !in m ==> es[n].key !in st.Live(clock(n));
      LiveStep(st, m, es[n], clock(n), later);
    }
  }

  /** Under any clock at all, when every RENAME of the log has its source there. */
  lemma {:induction false} SourcedReplay(ttl: Int64, es: seq<Event>, clock: nat -> int, later: int)
    requires LawfulLog(es) && SourcedLog(es) && forall i: nat :: i < |es| ==> clock(i) <= later
    ensures Replay(ttl, es, clock).Live(later) == Materialise(ttl, History(es)).Live(later)
  {
    ReplayTtl(ttl, es, clock);
    if es != [] {
      var n := |es| - 1;
      SourcedReplay(ttl, es[..n], clock, later);
      ReplayTtl(ttl, es[..n], clock);
      HistoryOwnKeys(es[..n]);
      LiveStep(Replay(ttl, es[..n], clock), History(es[..n]), es[n], clock(n), later);
    }
  }

  /** Replay shows what the log means, at every reading not before those it used. */
  lemma ReplayIsHistory(ttl: Int64, es: seq<Event>, clock: nat -> int, later: int)
    requires LawfulLog(es) && (Forward(clock, |es|) || SourcedLog(es))
    requires forall i: nat :: i < |es| ==> clock(i) <= later
    ensures Replay(ttl, es, clock).ttl == ttl
    ensures Replay(ttl, es, clock).Live(later) == Materialise(ttl, History(es)).Live(later)
  {
    ReplayTtl(ttl, es, clock);
    if Forward(clock, |es|) {
      ForwardReplay(ttl, es, clock, later);
    } else {
      SourcedReplay(ttl, es, clock, later);
    }
  }

  lemma {:induction false} CompactMapIsHistory(ttl: Int64, es: seq<Event>, clock: nat -> int, later: int)
    requires LawfulLog(es) && OneConfiguration(ttl, es)
    requires forall i: nat :: i < |es| ==> clock(i) <= later
    ensures Materialise(ttl, CompactMap(es, clock)).Live(later) == Materialise(ttl, History(es)).Live(later)
    ensures CompactMap(es, clock).Keys <= History(es).Keys
  {
    if es != [] {
      var n := |es| - 1;
      CompactMapIsHistory(ttl, es[..n], clock, later);
      HistoryOwnKeys(es[..n]);
      CompactMapOwnKeys(es[..n], clock);
      CompactLiveStep(ttl, CompactMap(es[..n], clock), History(es[..n]), es[n], clock(n), later);
    }
  }

  lemma {:induction false} CompactMapStamps(es: seq<Event>, clock: nat -> int)
    requires OneConfiguration(NEVER, es)
    ensures NeverStamped(CompactMap(es, clock))
  {
    if es != [] {
      CompactMapStamps(es[..|es| - 1], clock);
      CompactMapOwnKeys(es[..|es| - 1], clock);
    }
  }

  lemma KeptIsAllLive(ttl: Int64, m: EventsMap, rewriteClock: Bytes -> int, later: int)
    requires ttl == NEVER ==> NeverStamped(m)
    requires forall key :: key in m ==> rewriteClock(key) <= later
    ensures Materialise(ttl, Kept(m, rewriteClock)).Live(later) == Materialise(ttl, m).Live(later)
  {}

  /** A listing replays to the same store whatever its order and whatever the clock says. */
  lemma {:induction false} ReplayOfListing(ttl: Int64, es: seq<Event>, m: EventsMap, clock: nat -> int)
    requires Lists(es, m)
    ensures Replay(ttl, es, clock) == Materialise(ttl, m)
  {
    if es == [] {
      ListsNothing(m);
    } else {
      var n := |es| - 1;
      ListsInit(es, m);
      ReplayOfListing(ttl, es[..n], m - {es[n].key}, clock);
      ListsOwnKeys(es[..n], m - {es[n].key});
      ExecuteIsApply(ttl, m - {es[n].key}, es[n]);
    }
  }

  /** The three semantics of one history. Whenever the clock was read during the original run,
      during compaction and during the replays, and if only it never ran backwards during the run
      and the replay or every RENAME has its source in the log, the entries visible later are the same after the
      run, after a replay of the log, and after compaction followed by a replay. */
  lemma ThreeSemantics(ttl: Int64, es: seq<Event>, runClock: nat -> int, replayClock: nat -> int,
                       compactClock: nat -> int, rewriteClock: Bytes -> int,
                       compacted: seq<Event>, compactedClock: nat -> int, later: int)
    requires LawfulLog(es) && OneConfiguration(ttl, es)
    requires (Forward(runClock, |es|) && Forward(replayClock, |es|)) || SourcedLog(es)
    requires CompactsTo(es, compactClock, rewriteClock, compacted)
    requires forall i: nat :: runClock(i) <= later && replayClock(i) <= later
                              && compactClock(i) <= later && compactedClock(i) <= later
    requires forall key :: rewriteClock(key) <= later
    ensures Replay(ttl, es, runClock).Live(later) == Replay(ttl, es, replayClock).Live(later)
    ensures Replay(ttl, es, runClock).Live(later) == Replay(ttl, compacted, compactedClock).Live(later)
  {
    ReplayIsHistory(ttl, es, runClock, later);
    ReplayIsHistory(ttl, es, replayClock, later);
    CompactMapIsHistory(ttl, es, compactClock, later);
    var m := CompactMap(es, compactClock);
    if ttl == NEVER {
      CompactMapStamps(es, compactClock);
    }
    KeptIsAllLive(ttl, m, rewriteClock, later);
    ReplayOfListing(ttl, compacted, Kept(m, rewriteClock), compactedClock);
  }

  // ----- Where the three part ways -----

  /** A RENAME over a key that would have outlived the one renamed. */
  predicate Shortens(st: StoreState, e: Event) {
    e.RenameEvent? && e.key in st.entries && e.renameKey in st.entries &&
    st.entries[e.key].expiry < st.entries[e.renameKey].expiry
  }

  /** The log of a run: readings in order, and every logged RENAME did move a key. */
  ghost predicate RunLog(ttl: Int64, es: seq<Event>, clock: nat -> int) {
    && Forward(clock, |es|)
    && (forall i: nat :: i < |es| && es[i].RenameEvent? ==>
          Replay(ttl, es[..i], clock).CanMove(es[i].key, clock(i)))
  }

  /** From any point of the run on, a restart shows what the running store shows, whatever readings
      its replay takes until then. */
  ghost predicate RestartsFaithfully(ttl: Int64, es: seq<Event>, clock: nat -> int) {
    forall n: nat, restartClock, later ::
      n <= |es| && (n > 0 ==> clock(n - 1) <= later) && UpTo(restartClock, later) ==>
        Replay(ttl, es[..n], clock).Live(later) == Replay(ttl, es[..n], restartClock).Live(later)
  }

  ghost predicate UpTo(clock: nat -> int, later: int) {
    forall i :: clock(i) <= later
  }

  lemma ReplayStep(ttl: Int64, es: seq<Event>, n: nat, clock: nat -> int)
    requires n < |es|
    ensures Replay(ttl, es[..n + 1], clock) == Apply(Replay(ttl, es[..n], clock), es[n], clock(n)).store
  {
    assert es[..n + 1][..n] == es[..n];
  }

  lemma {:induction false} ReplayTtl(ttl: Int64, es: seq<Event>, clock: nat -> int)
    ensures Replay(ttl, es, clock).ttl == ttl
  {
    if es != [] {
      ReplayTtl(ttl, es[..|es| - 1], clock);
    }
  }

  lemma {:induction false} NoClockWithoutTtl(es: seq<Event>, clock: nat -> int, other: nat -> int)
    ensures Replay(NEVER, es, clock) == Replay(NEVER, es, other)
  {
    if es != [] {
      NoClockWithoutTtl(es[..|es| - 1], clock, other);
      ReplayTtl(NEVER, es[..|es| - 1], clock);
    }
  }

  lemma {:induction false} SameReadings(ttl: Int64, es: seq<Event>, clock: nat -> int, other: nat -> int)
    requires forall i: nat :: i < |es| ==> clock(i) == other(i)
    ensures Replay(ttl, es, clock) == Replay(ttl, es, other)
  {
    if es != [] {
      SameReadings(ttl, es[..|es| - 1], clock, other);
    }
  }

  /** One event of a run, executed at `now` and replayed at `again`, on stores that look alike. */
  lemma RestartStep(run: StoreState, replayed: StoreState, e: Event, now: int, again: int, later: int)
    requires now <= later && again <= later && run.ttl == replayed.ttl && run.HasTtl()
    requires run.Live(later) == replayed.Live(later)
    requires e.RenameEvent? ==> run.CanMove(e.key, now) && !Shortens(run, e)
    ensures Apply(run, e, now).store.Live(later) == Apply(replayed, e, again).store.Live(later)
  {
    match e
    case CreateEvent(timestamp, key, payload) =>
      LivePut(run, key, payload, timestamp, later);
      LivePut(replayed, key, payload, timestamp, later);
    case RenameEvent(timestamp, key, renameKey) =>
      assert key !in run.Live(later) ==> renameKey !in run.Live(later);
      assert key in replayed.Live(later) ==> replayed.CanMove(key, again);
      if key == renameKey {
        assert run.Move(key, key) == run.Remove(key);
        LiveRemove(run, key, later);
        if replayed.CanMove(key, again) {
          assert replayed.Move(key, key) == replayed.Remove(key);
          LiveRemove(replayed, key, later);
        }
      } else {
        LiveRename(run, key, renameKey, timestamp, now, later);
        LiveRename(replayed, key, renameKey, timestamp, again, later);
      }
    case DeleteEvent(_, key) =>
      LiveRemove(run, key, later);
      LiveRemove(replayed, key, later);
    case ClearEvent(_) =>
  }

  lemma {:induction false} FaithfulIfNothingShortens(ttl: Int64, es: seq<Event>, clock: nat -> int, n: nat,
                                                    restartClock: nat -> int, later: int)
    requires ttl != NEVER && RunLog(ttl, es, clock) && n <= |es| && (n > 0 ==> clock(n - 1) <= later)
    requires forall i: nat :: i < |es| ==> !Shortens(Replay(ttl, es[..i], clock), es[i])
    requires UpTo(restartClock, later)
    ensures Replay(ttl, es[..n], clock).Live(later) == Replay(ttl, es[..n], restartClock).Live(later)
    decreases n
  {
    if n > 0 {
      var i := n - 1;
      FaithfulIfNothingShortens(ttl, es, clock, i, restartClock, later);
      ReplayStep(ttl, es, i, clock);
      ReplayStep(ttl, es, i, restartClock);
      ReplayTtl(ttl, es[..i], clock);
      ReplayTtl(ttl, es[..i], restartClock);
      RestartStep(Replay(ttl, es[..i], clock), Replay(ttl, es[..i], restartClock), es[i],
                  clock(i), restartClock(i), later);
    }
  }

  /** A shortening RENAME is undone by a restart at the moment its source expires: the RENAME is
      then refused, and the overwritten key is back. */
  lemma ShorteningShows(ttl: Int64, es: seq<Event>, clock: nat -> int, n: nat)
    requires ttl != NEVER && RunLog(ttl, es, clock) && n < |es|
    requires Shortens(Replay(ttl, es[..n], clock), es[n])
    ensures !RestartsFaithfully(ttl, es, clock)
  {
    var run := Replay(ttl, es[..n], clock);
    var e, later := es[n], run.entries[es[n].key].expiry;
    var restartClock := _ => later;
    var replayed := Replay(ttl, es[..n], restartClock);
    assert UpTo(restartClock, later);
    ReplayTtl(ttl, es[..n], clock);
    ReplayTtl(ttl, es[..n], restartClock);
    ReplayStep(ttl, es, n, clock);
    ReplayStep(ttl, es, n, restartClock);
    assert clock(n) <= later;
    if run.Live(later) == replayed.Live(later) {
      assert e.renameKey in run.Live(later) && e.key !in run.Live(later);
      assert !replayed.CanMove(e.key, later);
      assert e.renameKey in Replay(ttl, es[..n + 1], restartClock).Live(later);
      assert e.renameKey !in Replay(ttl, es[..n + 1], clock).Live(later);
    } else {
      assert n > 0 ==> clock(n - 1) <= later;
    }
  }

  /** A replayed RENAME tests the expiry of its source again. Over a whole run, restarts at every
      point and every later reading show what the run showed exactly when no RENAME of the run went
      over a key that would have outlived its source. */
  lemma RestartsFaithfullyExact(ttl: Int64, es: seq<Event>, clock: nat -> int)
    requires ttl != NEVER && RunLog(ttl, es, clock)
    ensures RestartsFaithfully(ttl, es, clock) <==>
            forall i: nat :: i < |es| ==> !Shortens(Replay(ttl, es[..i], clock), es[i])
  {
    if n: nat :| n < |es| && Shortens(Replay(ttl, es[..n], clock), es[n]) {
      ShorteningShows(ttl, es, clock, n);
    } else {
      forall n: nat, restartClock, later |
        n <= |es| && (n > 0 ==> clock(n - 1) <= later) && UpTo(restartClock, later)
        ensures Replay(ttl, es[..n], clock).Live(later) == Replay(ttl, es[..n], restartClock).Live(later)
      {
        FaithfulIfNothingShortens(ttl, es, clock, n, restartClock, later);
      }
    }
  }

  /** Compaction skips a CREATE that is past its expiry instead of letting it overwrite. That is
      invisible from then on exactly when the CREATE is not past its expiry or what it would have
      overwritten is not visible either. */
  lemma CompactSkipExact(ttl: Int64, m: EventsMap, e: Event, now: int)
    requires ttl != NEVER && OwnKeys(m) && e.CreateEvent?
    ensures AgreeFrom(Materialise(ttl, CompactStep(m, e, now)), Materialise(ttl, Execute(m, e)), now)
            <==> (!PastExpiry(e, now) || e.key !in m || m[e.key].timestamp <= now)
  {
    var a, b := Materialise(ttl, CompactStep(m, e, now)), Materialise(ttl, Execute(m, e));
    if PastExpiry(e, now) && e.key in m && m[e.key].timestamp > now {
      assert e.key in a.Live(now) && e.key !in b.Live(now);
    } else {
      forall later | now <= later
        ensures a.Live(later) == b.Live(later)
      {
        if PastExpiry(e, now) {
          assert e.key !in a.Live(later) && e.key !in b.Live(later);
        }
      }
    }
  }

  /** A RENAME of a visible key to itself deletes it from the store but not from the event map:
      the two agree exactly when the names differ. */
  lemma SelfRenameExact(ttl: Int64, m: EventsMap, key: Bytes, renameKey: Bytes, timestamp: Int64, now: int)
    requires OwnKeys(m) && Materialise(ttl, m).CanMove(key, now)
    ensures var e := RenameEvent(timestamp, key, renameKey);
            Apply(Materialise(ttl, m), e, now).store == Materialise(ttl, Execute(m, e))
            <==> key != renameKey
  {
    var st, e := Materialise(ttl, m), RenameEvent(timestamp, key, renameKey);
    if key == renameKey {
      assert key in Materialise(ttl, Execute(m, e)).entries && key !in st.Move(key, key).entries;
    } else {
      assert Materialise(ttl, Execute(m, e)).entries == st.Move(key, renameKey).entries;
    }
  }

  /** When compaction keeps an entry that is dead to the store: at exactly the reading of its expiry,
      or if it is stamped `NEVER`, by a store without a TTL. What is alive it always keeps. */
  lemma ExpiryBoundary(ttl: Int64, m: EventsMap, rewriteClock: Bytes -> int, key: Bytes)
    requires ttl != NEVER && key in m
    ensures var now := rewriteClock(key); var alive := key in Materialise(ttl, m).Live(now);
            && (alive ==> key in Kept(m, rewriteClock))
            && (key in Kept(m, rewriteClock) && !alive <==>
                m[key].timestamp == now || (m[key].timestamp == NEVER && NEVER < now))
  {}

  // ----- One fixed reading -----

  predicate NonDecreasingCreates(es: seq<Event>) {
    forall i, j :: 0 <= i < j < |es| && es[i].CreateEvent? && es[j].CreateEvent? ==>
      es[i].timestamp <= es[j].timestamp
  }

  lemma {:induction false} NothingSurvives(ttl: Int64, es: seq<Event>, clock: nat -> int, now: int)
    requires forall i :: 0 <= i < |es| && es[i].CreateEvent? ==> PastExpiry(es[i], now)
    requires forall i: nat :: clock(i) == now
    ensures CompactMap(es, clock) == map[]
  {
    if es != [] {
      NothingSurvives(ttl, es[..|es| - 1], clock, now);
    }
  }

  /** With the clock standing still at a reading no CREATE carries, compaction keeps exactly the
      unexpired part of what replay builds, even when renames overwrite longer-lived keys. */
  lemma {:induction false} CompactAtOneReading(ttl: Int64, es: seq<Event>, clock: nat -> int, now: int)
    requires ttl != NEVER && NonDecreasingCreates(es)
    requires forall i: nat :: clock(i) == now
    requires forall i :: 0 <= i < |es| && es[i].CreateEvent? ==>
               es[i].timestamp != now && es[i].timestamp != NEVER
    requires forall i :: 0 <= i < |es| && es[i].RenameEvent? ==> es[i].key != es[i].renameKey
    ensures Materialise(ttl, CompactMap(es, clock)).entries == Replay(ttl, es, clock).Live(now)
    ensures Replay(ttl, es, clock).ttl == ttl
  {
    if es != [] {
      var n := |es| - 1;
      CompactAtOneReading(ttl, es[..n], clock, now);
      CompactMapOwnKeys(es[..n], clock);
      if es[n].CreateEvent? && PastExpiry(es[n], now) {
        NothingSurvives(ttl, es[..n], clock, now);
      }
      CompactStepAtOneReading(CompactMap(es[..n], clock), Replay(ttl, es[..n], clock), es[n], now);
    }
  }

  lemma CompactStepAtOneReading(m: EventsMap, st: StoreState, e: Event, now: int)
    requires st.HasTtl() && OwnKeys(m)
    requires Materialise(st.ttl, m).entries == st.Live(now)
    requires e.CreateEvent? ==> e.timestamp != now && e.timestamp != NEVER
    requires e.RenameEvent? ==> e.key != e.renameKey
    requires e.CreateEvent? && PastExpiry(e, now) ==> m == map[]
    ensures Materialise(st.ttl, CompactStep(m, e, now)).entries == Apply(st, e, now).store.Live(now)
  {
    match e
    case CreateEvent(timestamp, key, payload) =>
      LivePut(st, key, payload, timestamp, now);
      if !PastExpiry(e, now) {
        ExecuteIsApply(st.ttl, m, e);
      }
    case RenameEvent(_, key, renameKey) =>
      assert key in m <==> key in st.Live(now);
      if key in m {
        LiveMove(st, key, renameKey, now);
        ExecuteIsApply(st.ttl, m, e);
      }
    case DeleteEvent(_, key) =>
      LiveRemove(st, key, now);
    case ClearEvent(_) =>
  }
}
