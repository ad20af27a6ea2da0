/** What compaction keeps of a log: the event map, its listing, and the size of the result. */
module Compaction {
  import opened ByteStrings
  import opened LogCodec
  import opened Store

  type EventsMap = map<Bytes, Event>

  function SetKey(e: Event, key: Bytes): Event {
    match e
    case CreateEvent(timestamp, _, payload) => CreateEvent(timestamp, key, payload)
    case RenameEvent(timestamp, _, renameKey) => RenameEvent(timestamp, key, renameKey)
    case DeleteEvent(timestamp, _) => DeleteEvent(timestamp, key)
    case ClearEvent(_) => e
  }

  /** The four strategies. A renamed entry takes its new key along. */
  function Execute(m: EventsMap, e: Event): EventsMap {
    match e
    case CreateEvent(_, key, _) => m[key := e]
    case RenameEvent(_, key, renameKey) =>
      if key in m then (m - {key})[renameKey := SetKey(m[key], renameKey)] else m
    case DeleteEvent(_, key) => m - {key}
    case ClearEvent(_) => map[]
  }

  /** The test compaction makes twice: a real timestamp strictly before the clock. */
  predicate PastExpiry(e: Event, now: int) {
    e.timestamp != NEVER && e.timestamp < now
  }

  function CompactStep(m: EventsMap, e: Event, now: int): EventsMap {
    if e.CreateEvent? && PastExpiry(e, now) then m else Execute(m, e)
  }

  /** The event map after the whole log, where `clock(i)` is the reading taken at event `i`. */
  function CompactMap(es: seq<Event>, clock: nat -> int): EventsMap {
    if es == [] then map[]
    else
      var last := |es| - 1;
      CompactStep(CompactMap(es[..last], clock), es[last], clock(last))
  }

  /** The meaning of a log without any clock: nothing ever expires. */
  function History(es: seq<Event>): EventsMap {
    if es == [] then map[] else Execute(History(es[..|es| - 1]), es[|es| - 1])
  }

  /** The entries that survive the rewriting, where `clock(key)` is the reading taken at `key`. */
  function Kept(m: EventsMap, clock: Bytes -> int): EventsMap {
    map key | key in m && !PastExpiry(m[key], clock(key)) :: m[key]
  }

  /** Every entry is a CREATE stored under its own key. */
  predicate OwnKeys(m: EventsMap) {
    forall key :: key in m ==> m[key].CreateEvent? && m[key].key == key
  }

  /** `es` is `m` written out in some order: one CREATE a key. */
  ghost predicate Lists(es: seq<Event>, m: EventsMap) {
    && (forall i :: 0 <= i < |es| ==> es[i].CreateEvent? && es[i].key in m && m[es[i].key] == es[i])
    && (forall i, j :: 0 <= i < j < |es| ==> es[i].key != es[j].key)
    && (forall key :: key in m ==> exists i :: 0 <= i < |es| && es[i].key == key)
  }

  /** `compacted` is a log that compaction may put in the place of `es`. */
  ghost predicate CompactsTo(es: seq<Event>, clock: nat -> int, rewriteClock: Bytes -> int,
                             compacted: seq<Event>) {
    Lists(compacted, Kept(CompactMap(es, clock), rewriteClock))
  }

  lemma {:induction false} CompactMapOwnKeys(es: seq<Event>, clock: nat -> int)
    ensures OwnKeys(CompactMap(es, clock))
  {
    if es != [] {
      CompactMapOwnKeys(es[..|es| - 1], clock);
    }
  }

  /** What a strategy does, key by key: as the store does, except that no clock is looked at, that a
      kept entry carries its name, and that a key renamed to itself stays. */
  lemma ExecuteMeans(m: EventsMap, e: Event, other: Bytes)
    requires OwnKeys(m)
    ensures var after := Execute(m, e);
            && (!e.ClearEvent? && other != e.key && (e.RenameEvent? ==> other != e.renameKey) ==>
                  (other in after <==> other in m) && (other in m ==> after[other] == m[other]))
            && match e
               case CreateEvent(_, key, _) => key in after && after[key] == e
               case RenameEvent(_, key, renameKey) =>
                 && (key !in m || key == renameKey ==> after == m)
                 && (key in m && key != renameKey ==>
                       key !in after && renameKey in after
                       && after[renameKey] == CreateEvent(m[key].timestamp, renameKey, m[key].payload))
               case DeleteEvent(_, key) => key !in after
               case ClearEvent(_) => after == map[]
  {}

  lemma {:induction false} HistoryOwnKeys(es: seq<Event>)
    ensures OwnKeys(History(es))
  {
    if es != [] {
      HistoryOwnKeys(es[..|es| - 1]);
    }
  }

  // ----- Listings -----

  /** Dropping the last line of a listing is dropping its key from the map. */
  lemma ListsInit(es: seq<Event>, m: EventsMap)
    requires Lists(es, m) && es != []
    ensures var last := es[|es| - 1];
            Lists(es[..|es| - 1], m - {last.key}) && (m - {last.key})[last.key := last] == m
  {
    var n := |es| - 1;
    forall key | key in m - {es[n].key}
      ensures exists i :: 0 <= i < n && es[..n][i].key == key
    {
      var i :| 0 <= i < |es| && es[i].key == key;
      assert es[..n][i].key == key;
    }
  }

  lemma ListsSnoc(es: seq<Event>, m: EventsMap, e: Event)
    requires Lists(es, m) && e.CreateEvent? && e.key !in m
    ensures Lists(es + [e], m[e.key := e])
  {
    var longer, larger := es + [e], m[e.key := e];
    forall key | key in larger
      ensures exists i :: 0 <= i < |longer| && longer[i].key == key
    {
      if key == e.key {
        assert longer[|es|].key == key;
      } else {
        var i :| 0 <= i < |es| && es[i].key == key;
        assert longer[i].key == key;
      }
    }
  }

  lemma ListsOwnKeys(es: seq<Event>, m: EventsMap)
    requires Lists(es, m)
    ensures OwnKeys(m)
  {}

  lemma ListsNothing(m: EventsMap)
    requires Lists([], m)
    ensures m == map[]
  {}

  /** No clock and no order matters to a listing: its meaning is the map. */
  lemma {:induction false} HistoryOfListing(es: seq<Event>, m: EventsMap)
    requires Lists(es, m)
    ensures History(es) == m
  {
    if es == [] {
      ListsNothing(m);
    } else {
      ListsInit(es, m);
      HistoryOfListing(es[..|es| - 1], m - {es[|es| - 1].key});
    }
  }

  /** Two listings of one map are the same records in two orders. */
  lemma {:induction false} ListingsArePermutations(xs: seq<Event>, ys: seq<Event>, m: EventsMap)
    requires Lists(xs, m) && Lists(ys, m)
    ensures multiset(xs) == multiset(ys)
  {
    forall e
      ensures multiset(xs)[e] == multiset(ys)[e]
    {
      ListingCount(xs, m, e);
      ListingCount(ys, m, e);
    }
  }

  lemma {:induction false} ListingCount(es: seq<Event>, m: EventsMap, e: Event)
    requires Lists(es, m)
    ensures multiset(es)[e] == if e.CreateEvent? && e.key in m && m[e.key] == e then 1 else 0
  {
    if es == [] {
      ListsNothing(m);
    } else {
      var n := |es| - 1;
      ListsInit(es, m);
      ListingCount(es[..n], m - {es[n].key}, e);
      assert es == es[..n] + [es[n]];
    }
  }

  lemma {:induction false} CompactMapOfKept(es: seq<Event>, clock: nat -> int, now: int)
    requires forall i :: 0 <= i < |es| ==> es[i].CreateEvent? && !PastExpiry(es[i], now)
    requires forall i :: clock(i) == now
    ensures CompactMap(es, clock) == History(es)
  {
    if es != [] {
      CompactMapOfKept(es[..|es| - 1], clock, now);
    }
  }

  /** A compacted log is canonical, and compacting it again at the same reading keeps exactly the
      same records. */
  lemma CompactAgain(es: seq<Event>, now: int, once: seq<Event>, twice: seq<Event>)
    requires CompactsTo(es, _ => now, _ => now, once) && CompactsTo(once, _ => now, _ => now, twice)
    ensures multiset(twice) == multiset(once)
  {
    var m := Kept(CompactMap(es, _ => now), _ => now);
    HistoryOfListing(once, m);
    CompactMapOfKept(once, _ => now, now);
    assert CompactMap(once, _ => now) == m;
    assert Kept(m, _ => now) == m;
    ListingsArePermutations(once, twice, m);
  }

  // ----- Size -----

  /** The bytes a listing of `m` takes. */
  ghost function Weight(m: EventsMap): nat
    decreases |m|
  {
    if m == map[] then 0
    else
      var key :| key in m;
      |Frame(m[key])| + Weight(m - {key})
  }

  lemma {:induction false} WeightWithout(m: EventsMap, key: Bytes)
    requires key in m
    ensures Weight(m) == |Frame(m[key])| + Weight(m - {key})
    decreases |m|
  {
    hide Frame;
    var first :| first in m && Weight(m) == |Frame(m[first])| + Weight(m - {first});
    if key != first {
      WeightWithout(m - {first}, key);
      WeightWithout(m - {key}, first);
      assert m - {first} - {key} == m - {key} - {first};
    }
  }

  /** Removing keys does not add weight. */
  lemma WeightDrop(m: EventsMap, key: Bytes)
    ensures Weight(m - {key}) <= Weight(m)
  {
    if key in m {
      WeightWithout(m, key);
    } else {
      assert m - {key} == m;
    }
  }

  lemma WeightPut(m: EventsMap, key: Bytes, e: Event)
    ensures Weight(m[key := e]) <= Weight(m) + |Frame(e)|
  {
    WeightWithout(m[key := e], key);
    assert m[key := e] - {key} == m - {key};
    WeightDrop(m, key);
  }

  lemma {:induction false} WeightOfPart(m: EventsMap, part: EventsMap)
    requires forall key :: key in part ==> key in m && part[key] == m[key]
    ensures Weight(part) <= Weight(m)
    decreases |m|
  {
    if part != map[] {
      var key :| key in part;
      WeightWithout(part, key);
      WeightWithout(m, key);
      WeightOfPart(m - {key}, part - {key});
    }
  }

  lemma FramesLength(es: seq<Event>)
    requires es != []
    ensures |Frames(es)| == |Frames(es[..|es| - 1])| + |Frame(es[|es| - 1])|
  {
    hide Frame;
    var n := |es| - 1;
    assert es == es[..n] + [es[n]];
    FramesAppend(es[..n], [es[n]]);
    assert Frames([es[n]]) == Frame(es[n]) + Frames([]);
  }

  lemma {:induction false} WeightOfListing(es: seq<Event>, m: EventsMap)
    requires Lists(es, m)
    ensures |Frames(es)| == Weight(m)
  {
    if es == [] {
      ListsNothing(m);
    } else {
      var n := |es| - 1;
      ListsInit(es, m);
      WeightOfListing(es[..n], m - {es[n].key});
      WeightWithout(m, es[n].key);
      FramesLength(es);
    }
  }

  /** A step of compaction adds at most the bytes of the record it consumes: the longer key of a
      renamed entry is paid for by the RENAME record that names it. */
  lemma WeightStep(m: EventsMap, e: Event)
    requires OwnKeys(m)
    ensures Weight(Execute(m, e)) <= Weight(m) + |Frame(e)|
  {
    match e
    case CreateEvent(_, key, _) => WeightPut(m, key, e);
    case RenameEvent(_, key, renameKey) =>
      if key in m {
        var moved := SetKey(m[key], renameKey);
        WeightWithout(m, key);
        WeightPut(m - {key}, renameKey, moved);
        assert |Frame(moved)| <= |Frame(m[key])| + |Frame(e)|;
      }
    case DeleteEvent(_, key) => WeightDrop(m, key);
    case ClearEvent(_) =>
  }

  lemma {:induction false} WeightOfCompactMap(es: seq<Event>, clock: nat -> int)
    ensures Weight(CompactMap(es, clock)) <= |Frames(es)|
  {
    if es != [] {
      var n := |es| - 1;
      WeightOfCompactMap(es[..n], clock);
      CompactMapOwnKeys(es[..n], clock);
      WeightStep(CompactMap(es[..n], clock), es[n]);
      FramesLength(es);
    }
  }

  /** Compaction never makes the log longer. */
  lemma CompactionNeverGrows(es: seq<Event>, clock: nat -> int, rewriteClock: Bytes -> int,
                             compacted: seq<Event>)
    requires CompactsTo(es, clock, rewriteClock, compacted)
    ensures |LogBytes(compacted)| <= |LogBytes(es)|
  {
    var m := CompactMap(es, clock);
    WeightOfListing(compacted, Kept(m, rewriteClock));
    WeightOfPart(m, Kept(m, rewriteClock));
    WeightOfCompactMap(es, clock);
  }

  // ----- Records that stay small enough -----

  /** Every string of an event has at most `bound` bytes. */
  predicate Bounded(e: Event, bound: nat) {
    match e
    case CreateEvent(_, key, payload) => |key| <= bound && |payload| <= bound
    case RenameEvent(_, key, renameKey) => |key| <= bound && |renameKey| <= bound
    case DeleteEvent(_, key) => |key| <= bound
    case ClearEvent(_) => true
  }

  predicate AllBounded(m: EventsMap, bound: nat) {
    forall key :: key in m ==> Bounded(m[key], bound)
  }

  /** Renaming can make an entry outgrow a record, and compaction then fails as a whole. With every
      string of the log at most `bound` bytes long, and two of them fitting in a record, it cannot. */
  lemma {:induction false} BoundedEntriesFit(es: seq<Event>, clock: nat -> int, bound: nat)
    requires forall i :: 0 <= i < |es| ==> Bounded(es[i], bound)
    requires 17 + 2 * bound <= MAX_RECORD
    ensures AllBounded(CompactMap(es, clock), bound)
    ensures forall key :: key in CompactMap(es, clock) ==> Fits(CompactMap(es, clock)[key])
  {
    CompactMapOwnKeys(es, clock);
    if es != [] {
      var n := |es| - 1;
      BoundedEntriesFit(es[..n], clock, bound);
      CompactMapOwnKeys(es[..n], clock);
      assert Bounded(es[n], bound);
      assert AllBounded(CompactMap(es, clock), bound);
    }
    forall key | key in CompactMap(es, clock)
      ensures Fits(CompactMap(es, clock)[key])
    {
      assert Bounded(CompactMap(es, clock)[key], bound);
    }
  }

  /** So every compaction of such a log can be written. */
  lemma CompactedLogFits(es: seq<Event>, clock: nat -> int, rewriteClock: Bytes -> int,
                         compacted: seq<Event>, bound: nat)
    requires forall i :: 0 <= i < |es| ==> Bounded(es[i], bound)
    requires 17 + 2 * bound <= MAX_RECORD && CompactsTo(es, clock, rewriteClock, compacted)
    ensures AllFit(compacted)
  {
    BoundedEntriesFit(es, clock, bound);
    forall i | 0 <= i < |compacted|
      ensures Fits(compacted[i])
    {
      assert compacted[i].key in Kept(CompactMap(es, clock), rewriteClock);
    }
  }
}
