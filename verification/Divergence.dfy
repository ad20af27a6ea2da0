/** When compaction changes what a log shows: the exact condition over whole runs, and the logs that
    meet it. */
module Divergence {
  import opened ByteStrings
  import opened LogCodec
  import opened Store
  import opened Compaction
  import opened Semantics

  // ----- The condition -----

  /** The last reading at which compaction does not skip a CREATE. */
  function KeptUntil(e: Event): int {
    if e.timestamp == NEVER then TWO_63 else e.timestamp
  }

  function Longest(m: map<Bytes, int>, key: Bytes, until: int): int {
    if key in m && until < m[key] then m[key] else until
  }

  /** For each key, the last reading at which compaction still finds anything under it: the name
      takes over the longest-lived of the CREATEs that came to it, overwritten ones included. */
  function Lasting(es: seq<Event>): map<Bytes, int> {
    if es == [] then map[] else LastingStep(Lasting(es[..|es| - 1]), es[|es| - 1])
  }

  function LastingStep(m: map<Bytes, int>, e: Event): map<Bytes, int> {
    match e
    case CreateEvent(_, key, _) => m[key := Longest(m, key, KeptUntil(e))]
    case RenameEvent(_, key, renameKey) =>
      if key in m then m[renameKey := Longest(m, renameKey, m[key])] - {key} else m
    case DeleteEvent(_, key) => m - {key}
    case ClearEvent(_) => map[]
  }

  /** The overwritten entry is visible at a reading at which compaction no longer finds anything to
      overwrite it with. A key renamed to itself is such a case at once. */
  predicate Resurfaces(st: StoreState, lasting: map<Bytes, int>, e: Event, now: int) {
    match e
    case CreateEvent(_, key, _) =>
      st.HasTtl() && key in st.entries && KeptUntil(e) + 1 < st.entries[key].expiry
      && now < st.entries[key].expiry
    case RenameEvent(_, key, renameKey) =>
      key == renameKey ||
      (st.HasTtl() && key in lasting && renameKey in st.entries
       && lasting[key] + 1 < st.entries[renameKey].expiry)
    case _ => false
  }

  /** A store without a TTL ignores a real timestamp and compaction obeys it: the key is lost to the
      store, unless compaction never executes the CREATE and the value was there already. */
  predicate Vanishes(st: StoreState, e: Event, now: int) {
    !st.HasTtl() && e.CreateEvent? && e.timestamp != NEVER
    && !(e.timestamp < now && e.key in st.entries && st.entries[e.key].value == e.payload)
  }

  ghost predicate TakenBetween(eventClock: nat -> int, rewriteClock: Bytes -> int, from: int, later: int) {
    (forall i :: from <= eventClock(i) <= later) && (forall key :: from <= rewriteClock(key) <= later)
  }

  /** Compacting at any point of the run and replaying the result shows, from then on, what the
      running store shows, whatever readings compaction and replay take. (Of a log of long strings a
      compaction may be impossible to write; `CompactedLogFits` says when none is.) */
  ghost predicate CompactsFaithfully(ttl: Int64, es: seq<Event>, clock: nat -> int) {
    forall n: nat, from, later, eventClock, rewriteClock, compacted, restartClock ::
      n <= |es| && (n > 0 ==> clock(n - 1) <= from) && TakenBetween(eventClock, rewriteClock, from, later)
      && CompactsTo(es[..n], eventClock, rewriteClock, compacted) ==>
        Replay(ttl, compacted, restartClock).Live(later) == Replay(ttl, es[..n], clock).Live(later)
  }

  // ----- If -----

  /** Store and event map look alike at `later`, the map holds what lasts until then, and without a
      TTL nothing in it ever expires. */
  predicate Alike(st: StoreState, lasting: map<Bytes, int>, kept: EventsMap, later: int) {
    && OwnKeys(kept) && lasting.Keys == st.entries.Keys && (!st.HasTtl() ==> NeverStamped(kept))
    && st.Live(later) == Materialise(st.ttl, kept).Live(later)
    && forall key :: key in lasting && later <= lasting[key] ==> key in kept
  }

  lemma AlikeCreate(st: StoreState, lasting: map<Bytes, int>, kept: EventsMap, e: Event,
                    now: int, taken: int, later: int)
    requires Alike(st, lasting, kept, later) && now <= taken <= later && e.CreateEvent?
    requires !Resurfaces(st, lasting, e, now) && !Vanishes(st, e, now)
    ensures Alike(Apply(st, e, now).store, LastingStep(lasting, e), CompactStep(kept, e, taken), later)
  {
    LivePut(st, e.key, e.payload, e.timestamp, later);
    if !st.HasTtl() && e.timestamp != NEVER {
      assert st.entries[e.key] == st.Live(later)[e.key];
      assert st.Put(e.key, e.payload, e.timestamp).Live(later) == st.Live(later);
    } else if PastExpiry(e, taken) {
      assert e.key !in st.Live(later);
    } else {
      ExecuteIsApply(st.ttl, kept, e);
      LivePut(Materialise(st.ttl, kept), e.key, e.payload, e.timestamp, later);
    }
  }

  lemma AlikeRename(st: StoreState, lasting: map<Bytes, int>, kept: EventsMap, e: Event,
                    now: int, later: int)
    requires Alike(st, lasting, kept, later) && e.RenameEvent? && st.CanMove(e.key, now)
    requires !Resurfaces(st, lasting, e, now)
    ensures Alike(Apply(st, e, now).store, LastingStep(lasting, e), Execute(kept, e), later)
  {
    LiveMove(st, e.key, e.renameKey, later);
    if e.key in kept {
      ExecuteIsApply(st.ttl, kept, e);
      LiveMove(Materialise(st.ttl, kept), e.key, e.renameKey, later);
    } else {
      assert lasting[e.key] < later;
      assert e.key !in st.Live(later) && e.renameKey !in st.Live(later);
    }
  }

  lemma AlikeStep(st: StoreState, lasting: map<Bytes, int>, kept: EventsMap, e: Event,
                  now: int, taken: int, later: int)
    requires Alike(st, lasting, kept, later) && now <= taken <= later
    requires e.RenameEvent? ==> st.CanMove(e.key, now)
    requires !Resurfaces(st, lasting, e, now) && !Vanishes(st, e, now)
    ensures Alike(Apply(st, e, now).store, LastingStep(lasting, e), CompactStep(kept, e, taken), later)
  {
    match e
    case CreateEvent(_, _, _) => AlikeCreate(st, lasting, kept, e, now, taken, later);
    case RenameEvent(_, _, _) => AlikeRename(st, lasting, kept, e, now, later);
    case DeleteEvent(_, key) =>
      LiveRemove(st, key, later);
      ExecuteIsApply(st.ttl, kept, e);
      LiveRemove(Materialise(st.ttl, kept), key, later);
    case ClearEvent(_) =>
  }

  lemma Prefixes(es: seq<Event>, n: nat, clock: nat -> int)
    requires n < |es|
    ensures CompactMap(es[..n + 1], clock) == CompactStep(CompactMap(es[..n], clock), es[n], clock(n))
    ensures Lasting(es[..n + 1]) == LastingStep(Lasting(es[..n]), es[n])
  {
    assert es[..n + 1][..n] == es[..n];
  }

  /** In the whole run nothing overwritten resurfaces and nothing stored vanishes. */
  ghost predicate NothingDiverges(ttl: Int64, es: seq<Event>, clock: nat -> int) {
    forall i: nat :: i < |es| ==>
      !Resurfaces(Replay(ttl, es[..i], clock), Lasting(es[..i]), es[i], clock(i))
      && !Vanishes(Replay(ttl, es[..i], clock), es[i], clock(i))
  }

  lemma {:induction false} AlikeAlong(ttl: Int64, es: seq<Event>, clock: nat -> int, n: nat,
                                     eventClock: nat -> int, later: int)
    requires RunLog(ttl, es, clock) && NothingDiverges(ttl, es, clock)
    requires n <= |es| && forall i: nat :: i < n ==> clock(i) <= eventClock(i) <= later
    ensures Replay(ttl, es[..n], clock).ttl == ttl
    ensures Alike(Replay(ttl, es[..n], clock), Lasting(es[..n]), CompactMap(es[..n], eventClock), later)
    decreases n
  {
    hide Alike, Resurfaces, Vanishes;
    if n == 0 {
      AlikeAtStart(ttl, later);
    } else {
      var i := n - 1;
      AlikeAlong(ttl, es, clock, i, eventClock, later);
      ReplayStep(ttl, es, i, clock);
      Prefixes(es, i, eventClock);
      AlikeStep(Replay(ttl, es[..i], clock), Lasting(es[..i]), CompactMap(es[..i], eventClock), es[i],
                clock(i), eventClock(i), later);
      ReplayTtl(ttl, es[..n], clock);
    }
  }

  lemma AlikeAtStart(ttl: Int64, later: int)
    ensures Alike(EmptyStore(ttl), map[], map[], later)
  {}

  lemma FaithfulIfNothingDiverges(ttl: Int64, es: seq<Event>, clock: nat -> int)
    requires RunLog(ttl, es, clock) && NothingDiverges(ttl, es, clock)
    ensures CompactsFaithfully(ttl, es, clock)
  {
    forall n: nat, from, later, eventClock, rewriteClock, compacted, restartClock |
      n <= |es| && (n > 0 ==> clock(n - 1) <= from) && TakenBetween(eventClock, rewriteClock, from, later)
      && CompactsTo(es[..n], eventClock, rewriteClock, compacted)
      ensures Replay(ttl, compacted, restartClock).Live(later) == Replay(ttl, es[..n], clock).Live(later)
    {
      AlikeAlong(ttl, es, clock, n, eventClock, later);
      KeptIsAllLive(ttl, CompactMap(es[..n], eventClock), rewriteClock, later);
      ReplayOfListing(ttl, compacted, Kept(CompactMap(es[..n], eventClock), rewriteClock), restartClock);
    }
  }

  // ----- Only if -----

  /** Every event map can be written out. */
  lemma {:induction false} Listed(m: EventsMap) returns (es: seq<Event>)
    requires OwnKeys(m)
    ensures Lists(es, m)
    decreases |m|
  {
    if m == map[] {
      es := [];
    } else {
      var key :| key in m;
      es := Listed(m - {key});
      ListsSnoc(es, m - {key}, m[key]);
      es := es + [m[key]];
      assert (m - {key})[key := m[key]] == m;
    }
  }

  /** What compaction keeps at one reading. */
  function KeptAt(es: seq<Event>, now: int): EventsMap {
    Kept(CompactMap(es, _ => now), _ => now)
  }

  /** A run is not faithful if what compaction keeps at some point shows something else. */
  lemma Unfaithful(ttl: Int64, es: seq<Event>, clock: nat -> int, n: nat, from: int,
                   eventClock: nat -> int, rewriteClock: Bytes -> int, later: int)
    requires n <= |es| && (n > 0 ==> clock(n - 1) <= from)
    requires TakenBetween(eventClock, rewriteClock, from, later)
    requires Replay(ttl, es[..n], clock).Live(later)
             != Materialise(ttl, Kept(CompactMap(es[..n], eventClock), rewriteClock)).Live(later)
    ensures !CompactsFaithfully(ttl, es, clock)
  {
    CompactMapOwnKeys(es[..n], eventClock);
    var kept := Kept(CompactMap(es[..n], eventClock), rewriteClock);
    var compacted := Listed(kept);
    assert CompactsTo(es[..n], eventClock, rewriteClock, compacted);
    ReplayOfListing(ttl, compacted, kept, eventClock);
  }

  lemma UnfaithfulAt(ttl: Int64, es: seq<Event>, clock: nat -> int, n: nat, now: int)
    requires n <= |es| && (n > 0 ==> clock(n - 1) <= now)
    requires Replay(ttl, es[..n], clock).Live(now) != Materialise(ttl, KeptAt(es[..n], now)).Live(now)
    ensures !CompactsFaithfully(ttl, es, clock)
  {
    Unfaithful(ttl, es, clock, n, now, _ => now, _ => now, now);
  }

  lemma SelfRenameShows(ttl: Int64, es: seq<Event>, clock: nat -> int, n: nat)
    requires RunLog(ttl, es, clock) && n < |es| && es[n].RenameEvent? && es[n].key == es[n].renameKey
    ensures !CompactsFaithfully(ttl, es, clock)
  {
    var now, key := clock(n), es[n].key;
    ReplayStep(ttl, es, n, clock);
    Prefixes(es, n, _ => now);
    CompactMapOwnKeys(es[..n], _ => now);
    hide Replay, CompactMap, CompactsFaithfully;
    assert key in Replay(ttl, es[..n], clock).Live(now);
    if Replay(ttl, es[..n], clock).Live(now) == Materialise(ttl, KeptAt(es[..n], now)).Live(now) {
      assert CompactMap(es[..n + 1], _ => now) == CompactMap(es[..n], _ => now);
      assert key !in Replay(ttl, es[..n + 1], clock).Live(now);
      UnfaithfulAt(ttl, es, clock, n + 1, now);
    } else {
      UnfaithfulAt(ttl, es, clock, n, now);
    }
  }

  /** Not past its expiry when it was applied, the record is executed at that very expiry, and dropped
      one later. */
  lemma VanishedLateShows(es: seq<Event>, clock: nat -> int, n: nat)
    requires RunLog(NEVER, es, clock) && n < |es| && es[n].CreateEvent?
    requires es[n].timestamp != NEVER && clock(n) <= es[n].timestamp
    ensures !CompactsFaithfully(NEVER, es, clock)
  {
    var key, timestamp: int := es[n].key, es[n].timestamp;
    var eventClock: nat -> int, rewriteClock: Bytes -> int := _ => timestamp, _ => timestamp + 1;
    ReplayStep(NEVER, es, n, clock);
    ReplayTtl(NEVER, es[..n], clock);
    Prefixes(es, n, eventClock);
    hide Replay, CompactMap, CompactsFaithfully;
    assert key !in Kept(CompactMap(es[..n + 1], eventClock), rewriteClock);
    assert key in Replay(NEVER, es[..n + 1], clock).Live(timestamp + 1);
    Unfaithful(NEVER, es, clock, n + 1, timestamp, eventClock, rewriteClock, timestamp + 1);
  }

  /** Past its expiry when it was applied, it is never executed by compaction. */
  lemma VanishedEarlyShows(es: seq<Event>, clock: nat -> int, n: nat)
    requires RunLog(NEVER, es, clock) && n < |es| && es[n].timestamp < clock(n)
    requires Vanishes(Replay(NEVER, es[..n], clock), es[n], clock(n))
    ensures !CompactsFaithfully(NEVER, es, clock)
  {
    var now, key, st := clock(n), es[n].key, Replay(NEVER, es[..n], clock);
    ReplayStep(NEVER, es, n, clock);
    ReplayTtl(NEVER, es[..n], clock);
    Prefixes(es, n, _ => now);
    hide Replay, CompactMap, CompactsFaithfully, RunLog;
    assert CompactMap(es[..n + 1], _ => now) == CompactMap(es[..n], _ => now);
    VanishedChanges(st, es[n], now);
    if st.Live(now) == Materialise(NEVER, KeptAt(es[..n], now)).Live(now) {
      UnfaithfulAt(NEVER, es, clock, n + 1, now);
    } else {
      UnfaithfulAt(NEVER, es, clock, n, now);
    }
  }

  lemma VanishedChanges(st: StoreState, e: Event, now: int)
    requires Vanishes(st, e, now) && e.timestamp < now
    ensures Apply(st, e, now).store.Live(now) != st.Live(now)
  {
    LivePut(st, e.key, e.payload, e.timestamp, now);
    assert Apply(st, e, now).store.Live(now)[e.key] == Entry(e.payload, NEVER);
  }

  predicate NoSelfRename(es: seq<Event>) {
    forall i :: 0 <= i < |es| && es[i].RenameEvent? ==> es[i].key != es[i].renameKey
  }

  /** Each key of the store is found by compaction at least until it expires. */
  predicate Covers(lasting: map<Bytes, int>, st: StoreState) {
    lasting.Keys == st.entries.Keys && forall key :: key in lasting ==> st.entries[key].expiry <= lasting[key]
  }

  lemma CoversStep(lasting: map<Bytes, int>, st: StoreState, e: Event, now: int)
    requires Covers(lasting, st) && st.HasTtl() && (e.RenameEvent? ==> st.CanMove(e.key, now))
    ensures Covers(LastingStep(lasting, e), Apply(st, e, now).store)
  {}

  lemma {:induction false} LastingCovers(ttl: Int64, es: seq<Event>, clock: nat -> int, n: nat)
    requires ttl != NEVER && RunLog(ttl, es, clock) && n <= |es|
    ensures Replay(ttl, es[..n], clock).ttl == ttl
    ensures Covers(Lasting(es[..n]), Replay(ttl, es[..n], clock))
    decreases n
  {
    hide Covers;
    ReplayTtl(ttl, es[..n], clock);
    if n == 0 {
      NothingToCover(ttl);
    } else {
      LastingCovers(ttl, es, clock, n - 1);
      ReplayStep(ttl, es, n - 1, clock);
      Prefixes(es, n - 1, clock);
      CoversStep(Lasting(es[..n - 1]), Replay(ttl, es[..n - 1], clock), es[n - 1], clock(n - 1));
    }
  }

  lemma NothingToCover(ttl: Int64)
    ensures Covers(map[], EmptyStore(ttl))
  {}

  /** What compaction finds at a reading lasts until then. */
  lemma {:induction false} FoundLasts(es: seq<Event>, eventClock: nat -> int, now: int)
    requires NoSelfRename(es) && now <= TWO_63 && forall i :: eventClock(i) == now
    ensures AllLast(CompactMap(es, eventClock), Lasting(es), now)
  {
    if es != [] {
      var n := |es| - 1;
      FoundLasts(es[..n], eventClock, now);
    }
  }

  predicate AllLast(m: EventsMap, lasting: map<Bytes, int>, now: int) {
    forall key :: key in m ==> key in lasting && now <= lasting[key]
  }

  lemma KeptAtIsAllLive(ttl: Int64, es: seq<Event>, now: int)
    requires ttl != NEVER
    ensures Materialise(ttl, KeptAt(es, now)).Live(now) == Materialise(ttl, CompactMap(es, _ => now)).Live(now)
  {
    KeptIsAllLive(ttl, CompactMap(es, _ => now), _ => now, now);
  }

  lemma ResurfacedCreateShows(ttl: Int64, es: seq<Event>, clock: nat -> int, n: nat)
    requires ttl != NEVER && RunLog(ttl, es, clock) && n < |es| && es[n].CreateEvent?
    requires Resurfaces(Replay(ttl, es[..n], clock), Lasting(es[..n]), es[n], clock(n))
    ensures !CompactsFaithfully(ttl, es, clock)
  {
    ReplayTtl(ttl, es[..n], clock);
    var st, key := Replay(ttl, es[..n], clock), es[n].key;
    var now := st.entries[key].expiry - 1;
    ReplayStep(ttl, es, n, clock);
    Prefixes(es, n, _ => now);
    assert key in st.Live(now);
    KeptAtIsAllLive(ttl, es[..n], now);
    KeptAtIsAllLive(ttl, es[..n + 1], now);
    if st.Live(now) == Materialise(ttl, CompactMap(es[..n], _ => now)).Live(now) {
      assert key in Materialise(ttl, CompactMap(es[..n + 1], _ => now)).Live(now);
      assert key !in Replay(ttl, es[..n + 1], clock).Live(now);
      UnfaithfulAt(ttl, es, clock, n + 1, now);
    } else {
      UnfaithfulAt(ttl, es, clock, n, now);
    }
  }

  lemma ResurfacedRenameShows(ttl: Int64, es: seq<Event>, clock: nat -> int, n: nat)
    requires ttl != NEVER && RunLog(ttl, es, clock) && n < |es| && es[n].RenameEvent? && NoSelfRename(es)
    requires Resurfaces(Replay(ttl, es[..n], clock), Lasting(es[..n]), es[n], clock(n))
    ensures !CompactsFaithfully(ttl, es, clock)
  {
    LastingCovers(ttl, es, clock, n);
    var st, key, renameKey := Replay(ttl, es[..n], clock), es[n].key, es[n].renameKey;
    var now := st.entries[renameKey].expiry - 1;
    FoundLasts(es[..n], _ => now, now);
    ReplayStep(ttl, es, n, clock);
    Prefixes(es, n, _ => now);
    assert renameKey in st.Live(now);
    assert key !in CompactMap(es[..n], _ => now);
    KeptAtIsAllLive(ttl, es[..n], now);
    KeptAtIsAllLive(ttl, es[..n + 1], now);
    if st.Live(now) == Materialise(ttl, CompactMap(es[..n], _ => now)).Live(now) {
      assert renameKey in Materialise(ttl, CompactMap(es[..n + 1], _ => now)).Live(now);
      assert renameKey !in Replay(ttl, es[..n + 1], clock).Live(now);
      UnfaithfulAt(ttl, es, clock, n + 1, now);
    } else {
      UnfaithfulAt(ttl, es, clock, n, now);
    }
  }

  lemma DivergingShows(ttl: Int64, es: seq<Event>, clock: nat -> int, n: nat)
    requires RunLog(ttl, es, clock) && n < |es| && NoSelfRename(es)
    requires Resurfaces(Replay(ttl, es[..n], clock), Lasting(es[..n]), es[n], clock(n))
             || Vanishes(Replay(ttl, es[..n], clock), es[n], clock(n))
    ensures !CompactsFaithfully(ttl, es, clock)
  {
    hide CompactsFaithfully, RunLog, Replay, Lasting;
    ReplayTtl(ttl, es[..n], clock);
    if Vanishes(Replay(ttl, es[..n], clock), es[n], clock(n)) {
      if es[n].timestamp < clock(n) {
        VanishedEarlyShows(es, clock, n);
      } else {
        VanishedLateShows(es, clock, n);
      }
    } else if es[n].CreateEvent? {
      ResurfacedCreateShows(ttl, es, clock, n);
    } else {
      ResurfacedRenameShows(ttl, es, clock, n);
    }
  }

  /** Compaction, exactly, whatever TTLs the log was written under. Over a whole run, compacting at
      every point and at every later reading shows what the run shows if and only if no key was
      renamed to itself, no overwritten entry outlives, by more than one, everything that compaction
      can still find to overwrite it with, and, in a store without a TTL, no key was stored from a
      record with an expiry. */
  lemma CompactsFaithfullyExact(ttl: Int64, es: seq<Event>, clock: nat -> int)
    requires RunLog(ttl, es, clock)
    ensures CompactsFaithfully(ttl, es, clock) <==> NothingDiverges(ttl, es, clock)
  {
    hide CompactsFaithfully, RunLog, Resurfaces, Vanishes, Replay, Lasting;
    if NothingDiverges(ttl, es, clock) {
      FaithfulIfNothingDiverges(ttl, es, clock);
    } else if i :| 0 <= i < |es| && es[i].RenameEvent? && es[i].key == es[i].renameKey {
      SelfRenameShows(ttl, es, clock, i);
    } else {
      var n: nat :| n < |es| && (Resurfaces(Replay(ttl, es[..n], clock), Lasting(es[..n]), es[n], clock(n))
                                 || Vanishes(Replay(ttl, es[..n], clock), es[n], clock(n)));
      DivergingShows(ttl, es, clock, n);
    }
  }

  /** One configuration a log: for a store without a TTL, and a log whose records had not expired when
      they were applied, compaction is faithful if and only if none of them has an expiry at all and
      no key was renamed to itself. */
  lemma MixedConfigurations(es: seq<Event>, clock: nat -> int)
    requires RunLog(NEVER, es, clock)
    requires forall i: nat :: i < |es| && es[i].CreateEvent? && es[i].timestamp != NEVER ==>
               clock(i) <= es[i].timestamp
    ensures CompactsFaithfully(NEVER, es, clock) <==> OneConfiguration(NEVER, es) && NoSelfRename(es)
  {
    hide CompactsFaithfully;
    forall i: nat | i < |es|
      ensures Replay(NEVER, es[..i], clock).ttl == NEVER
    {
      ReplayTtl(NEVER, es[..i], clock);
    }
    CompactsFaithfullyExact(NEVER, es, clock);
    if i :| 0 <= i < |es| && es[i].CreateEvent? && es[i].timestamp != NEVER {
      assert Vanishes(Replay(NEVER, es[..i], clock), es[i], clock(i));
    } else if i :| 0 <= i < |es| && es[i].RenameEvent? && es[i].key == es[i].renameKey {
      assert Resurfaces(Replay(NEVER, es[..i], clock), Lasting(es[..i]), es[i], clock(i));
    }
  }

  // ----- Under one TTL -----

  /** Every CREATE of the run carries its own reading plus the one TTL. */
  ghost predicate OneTtl(ttl: Int64, es: seq<Event>, clock: nat -> int) {
    forall i: nat :: i < |es| && es[i].CreateEvent? ==> es[i].timestamp == clock(i) + ttl
  }

  lemma {:induction false} NothingOutlivesTheNext(ttl: Int64, es: seq<Event>, clock: nat -> int, n: nat, now: int)
    requires ttl != NEVER && RunLog(ttl, es, clock) && OneTtl(ttl, es, clock) && n <= |es|
    requires n > 0 ==> clock(n - 1) <= now
    ensures var st := Replay(ttl, es[..n], clock);
            forall key :: key in st.entries ==> st.entries[key].expiry <= now + ttl
    decreases n
  {
    if n > 0 {
      NothingOutlivesTheNext(ttl, es, clock, n - 1, clock(n - 1));
      ReplayTtl(ttl, es[..n - 1], clock);
      ReplayStep(ttl, es, n - 1, clock);
    }
  }

  /** With one TTL only RENAME has to be watched, and it is enough that no key is renamed to itself
      or over an entry that outlives it by more than one. */
  lemma OneTtlCompactsFaithfully(ttl: Int64, es: seq<Event>, clock: nat -> int)
    requires ttl != NEVER && RunLog(ttl, es, clock) && OneTtl(ttl, es, clock) && NoSelfRename(es)
    requires forall i: nat :: i < |es| && es[i].RenameEvent? ==>
               var entries := Replay(ttl, es[..i], clock).entries;
               es[i].renameKey in entries && es[i].key in entries ==>
                 entries[es[i].renameKey].expiry <= entries[es[i].key].expiry + 1
    ensures CompactsFaithfully(ttl, es, clock)
  {
    hide CompactsFaithfully;
    forall i: nat | i < |es|
      ensures !Resurfaces(Replay(ttl, es[..i], clock), Lasting(es[..i]), es[i], clock(i))
      ensures !Vanishes(Replay(ttl, es[..i], clock), es[i], clock(i))
    {
      LastingCovers(ttl, es, clock, i);
      if es[i].CreateEvent? {
        NothingOutlivesTheNext(ttl, es, clock, i, clock(i));
      }
    }
    CompactsFaithfullyExact(ttl, es, clock);
  }

  // ----- Logs that meet the condition -----

  const A: Bytes := [97]
  const B: Bytes := [98]
  const C: Bytes := [99]

  lemma One(ttl: Int64, e: Event, clock: nat -> int)
    ensures Replay(ttl, [e], clock) == Apply(EmptyStore(ttl), e, clock(0)).store
    ensures Lasting([e]) == LastingStep(map[], e)
  {
    assert [e][..0] == [];
    assert Replay(ttl, [e][..0], clock) == EmptyStore(ttl);
  }

  lemma OneMore(ttl: Int64, es: seq<Event>, e: Event, clock: nat -> int)
    ensures Replay(ttl, es + [e], clock) == Apply(Replay(ttl, es, clock), e, clock(|es|)).store
    ensures Lasting(es + [e]) == LastingStep(Lasting(es), e)
  {
    assert (es + [e])[..|es|] == es;
  }

  /** A key renamed to itself, under one TTL: deleted by the store, brought back by compaction. */
  lemma SelfRenamedKeyReturns(v: Bytes)
    ensures var es, clock := [CreateEvent(10, A, v), RenameEvent(NEVER, A, A)], At([0, 1]);
            RunLog(10, es, clock) && OneTtl(10, es, clock) && !CompactsFaithfully(10, es, clock)
  {
    var create, rename, clock := CreateEvent(10, A, v), RenameEvent(NEVER, A, A), At([0, 1]);
    var es := [create, rename];
    One(10, create, clock);
    assert es[..0] == [] && es[..1] == [create];
    assert RunLog(10, es, clock);
    SelfRenameShows(10, es, clock, 1);
  }

  /** A key renamed over one that lives longer. */
  function Overwriting(v: Bytes, w: Bytes): seq<Event> {
    [CreateEvent(10, A, v), CreateEvent(15, B, w), RenameEvent(NEVER, A, B)]
  }

  lemma OverwritingIsRun(v: Bytes, w: Bytes)
    ensures var es, clock := Overwriting(v, w), At([0, 5, 6]); var st := Replay(10, es[..2], clock);
            && RunLog(10, es, clock) && OneTtl(10, es, clock)
            && st.entries == map[A := Entry(v, 10), B := Entry(w, 15)] && st.ttl == 10
            && Lasting(es[..2]) == map[A := 10, B := 15]
  {
    var es, clock := Overwriting(v, w), At([0, 5, 6]);
    One(10, es[0], clock);
    OneMore(10, [es[0]], es[1], clock);
    assert es[..0] == [] && es[..1] == [es[0]] && es[..2] == [es[0]] + [es[1]];
  }

  /** Under one TTL, compaction brings the overwritten key back once the renamed one has expired. */
  lemma OverwrittenKeyReturns(v: Bytes, w: Bytes)
    ensures var es, clock := Overwriting(v, w), At([0, 5, 6]);
            RunLog(10, es, clock) && OneTtl(10, es, clock) && !CompactsFaithfully(10, es, clock)
  {
    hide Replay, Lasting, CompactsFaithfully;
    OverwritingIsRun(v, w);
    ResurfacedRenameShows(10, Overwriting(v, w), At([0, 5, 6]), 2);
  }

  /** And so does a restart. */
  lemma RestartBringsKeyBack(v: Bytes, w: Bytes)
    ensures var es, clock := Overwriting(v, w), At([0, 5, 6]);
            RunLog(10, es, clock) && OneTtl(10, es, clock) && !RestartsFaithfully(10, es, clock)
  {
    hide Replay, RestartsFaithfully;
    OverwritingIsRun(v, w);
    ShorteningShows(10, Overwriting(v, w), At([0, 5, 6]), 2);
  }

  /** A key overwritten after a restart with a shorter TTL: compaction brings the old value back once
      the new one has expired. With one TTL no CREATE does that. */
  lemma OldValueReturns(v: Bytes, w: Bytes)
    ensures var es, clock := [CreateEvent(100, A, v), CreateEvent(6, A, w)], At([0, 1]);
            RunLog(5, es, clock) && !CompactsFaithfully(5, es, clock)
            && es[0].timestamp == clock(0) + 100 && es[1].timestamp == clock(1) + 5
  {
    var clock := At([0, 1]);
    var first, second := CreateEvent(100, A, v), CreateEvent(6, A, w);
    var es := [first, second];
    One(5, first, clock);
    assert es[..0] == [] && es[..1] == [first];
    assert RunLog(5, es, clock);
    ResurfacedCreateShows(5, es, clock, 1);
  }

  /** A key written under a TTL and read back by a store without one: compaction drops it, although to
      that store it never expires. */
  lemma TimestampedKeyVanishes(v: Bytes)
    ensures var es, clock := [CreateEvent(10, A, v)], At([0]);
            RunLog(NEVER, es, clock) && OneTtl(10, es, clock) && !CompactsFaithfully(NEVER, es, clock)
  {
    hide CompactsFaithfully;
    var es, clock := [CreateEvent(10, A, v)], At([0]);
    assert !OneConfiguration(NEVER, es) by {
      assert es[0].CreateEvent? && es[0].timestamp != NEVER;
    }
    MixedConfigurations(es, clock);
  }

  /** Three keys created one reading apart; the second is overwritten by the first. */
  function Chain(v: Bytes): seq<Event> {
    [CreateEvent(10, A, v), CreateEvent(11, B, v), CreateEvent(12, C, v), RenameEvent(NEVER, A, B)]
  }

  lemma ChainStates(v: Bytes, clock: nat -> int)
    requires clock == At([0, 1, 2, 3, 3])
    ensures Replay(10, Chain(v)[..0], clock).entries == map[]
    ensures Replay(10, Chain(v)[..1], clock).entries == map[A := Entry(v, 10)]
    ensures Replay(10, Chain(v)[..2], clock).entries == map[A := Entry(v, 10), B := Entry(v, 11)]
    ensures Replay(10, Chain(v)[..3], clock).entries
            == map[A := Entry(v, 10), B := Entry(v, 11), C := Entry(v, 12)]
    ensures Replay(10, Chain(v)[..4], clock) == StoreState(10, map[B := Entry(v, 10), C := Entry(v, 12)])
    ensures Lasting(Chain(v)[..3]) == map[A := 10, B := 11, C := 12]
    ensures Lasting(Chain(v)[..4]) == map[B := 11, C := 12]
  {
    var es := Chain(v);
    assert es[..0] == [] && es[..1] == [es[0]] && es[..2] == [es[0]] + [es[1]];
    assert es[..3] == es[..2] + [es[2]] && es[..4] == es[..3] + [es[3]];
    One(10, es[0], clock);
    OneMore(10, es[..1], es[1], clock);
    OneMore(10, es[..2], es[2], clock);
    OneMore(10, es[..3], es[3], clock);
  }

  /** Why the condition looks at what compaction finds and not at the entry alone: the second RENAME
      goes over an entry that outlives its own by two, and no compaction ever shows it, because the
      key overwritten in between lasts one longer. */
  lemma OutlivedByTwoAndHidden(v: Bytes)
    ensures var es, clock := Chain(v) + [RenameEvent(NEVER, B, C)], At([0, 1, 2, 3, 3]);
            var entries := Replay(10, es[..4], clock).entries;
            && RunLog(10, es, clock) && OneTtl(10, es, clock) && CompactsFaithfully(10, es, clock)
            && B in entries && C in entries && entries[C].expiry == entries[B].expiry + 2
  {
    hide CompactsFaithfully, Replay, Lasting;
    var es, clock := Chain(v) + [RenameEvent(NEVER, B, C)], At([0, 1, 2, 3, 3]);
    ChainStates(v, clock);
    forall i: nat | i <= 4
      ensures es[..i] == Chain(v)[..i] && Replay(10, es[..i], clock).ttl == 10
    {
      ReplayTtl(10, es[..i], clock);
    }
    assert NothingDiverges(10, es, clock) by {
      assert es[3].key != es[3].renameKey && es[4].key != es[4].renameKey;
    }
    CompactsFaithfullyExact(10, es, clock);
  }

  /** Compaction can fail: an entry that just fits in its record is renamed to a longer key, every
      event of the log fits, and what survives does not. */
  lemma SurvivorOutgrowsRecord(payload: Bytes, timestamp: Int64, clock: nat -> int, rewriteClock: Bytes -> int)
    requires |payload| == MAX_RECORD - 18
    requires clock(0) <= timestamp && rewriteClock(A + B) <= timestamp
    ensures var es := [CreateEvent(timestamp, A, payload), RenameEvent(NEVER, A, A + B)];
            var kept := Kept(CompactMap(es, clock), rewriteClock);
            AllFit(es) && A + B in kept && !Fits(kept[A + B])
  {
    var create := CreateEvent(timestamp, A, payload);
    var es := [create, RenameEvent(NEVER, A, A + B)];
    assert es[..1] == [create] && [create][..0] == [];
    RecordSize(es[0]);
    RecordSize(es[1]);
    assert CompactMap([create], clock) == map[A := create];
  }
}
