/** The in-memory store: two coupled maps behind one map of entries. */
module Store {
  import opened ByteStrings
  import opened LogCodec

  /** The TTL of a store whose keys live forever, and the expiry recorded for such keys. */
  const NEVER: Int64 := -1

  datatype Entry = Entry(value: Bytes, expiry: Int64)

  /** What a store holds. Without a TTL every expiry is `NEVER`. */
  datatype StoreState = StoreState(ttl: Int64, entries: map<Bytes, Entry>) {

    predicate HasTtl() {
      ttl != NEVER
    }

    predicate Expired(key: Bytes, now: int) {
      HasTtl() && key in entries && now >= entries[key].expiry
    }

    /** The entries a client can see at clock reading `now`. */
    function Live(now: int): map<Bytes, Entry> {
      map key | key in entries && !Expired(key, now) :: entries[key]
    }

    function Put(key: Bytes, value: Bytes, timestamp: Int64): StoreState {
      this.(entries := entries[key := Entry(value, if HasTtl() then timestamp else NEVER)])
    }

    predicate CanMove(oldKey: Bytes, now: int) {
      oldKey in entries && !Expired(oldKey, now)
    }

    /** The source assigns the new key first and erases the old one afterwards. */
    function Move(oldKey: Bytes, newKey: Bytes): StoreState
      requires oldKey in entries
    {
      this.(entries := entries[newKey := entries[oldKey]] - {oldKey})
    }

    function Remove(key: Bytes): StoreState {
      this.(entries := entries - {key})
    }
  }

  function EmptyStore(ttl: Int64): StoreState {
    StoreState(ttl, map[])
  }

  /** A store after an event, and whether the event changed anything. */
  datatype Applied = Applied(store: StoreState, changed: bool)

  function Apply(st: StoreState, e: Event, now: int): Applied {
    match e
    case CreateEvent(timestamp, key, payload) => Applied(st.Put(key, payload, timestamp), true)
    case RenameEvent(_, key, renameKey) =>
      if st.CanMove(key, now) then Applied(st.Move(key, renameKey), true) else Applied(st, false)
    case DeleteEvent(_, key) => Applied(st.Remove(key), key in st.entries)
    case ClearEvent(_) =>
      if st.entries == map[] then Applied(st, false) else Applied(st.(entries := map[]), true)
  }

  /** The expiry of a key created at `now`: a signed 64-bit sum. */
  function Stamp(ttl: Int64, now: int): Int64 {
    if ttl == NEVER then NEVER else (now + ttl + TWO_63) % TWO_64 - TWO_63
  }

  /** In 64 bits the stamp is the reading plus the TTL. */
  lemma StampIsSum(ttl: Int64, now: int)
    requires ttl != NEVER ==> -TWO_63 <= now + ttl < TWO_63
    ensures Stamp(ttl, now) == if ttl == NEVER then NEVER else now + ttl
  {}

  /** What is visible: every stored key without a TTL, with one those whose expiry is still to come. */
  lemma LiveMeans(st: StoreState, key: Bytes, later: int)
    ensures key in st.Live(later) <==>
            key in st.entries && (st.ttl == NEVER || later < st.entries[key].expiry)
    ensures key in st.Live(later) ==> st.Live(later)[key] == st.entries[key]
  {}

  /** The keys an event speaks of. */
  function Touched(st: StoreState, e: Event): set<Bytes> {
    match e
    case CreateEvent(_, key, _) => {key}
    case RenameEvent(_, key, renameKey) => {key, renameKey}
    case DeleteEvent(_, key) => {key}
    case ClearEvent(_) => st.entries.Keys
  }

  /** What an event does, key by key. No key it does not speak of is touched. A CREATE always stores
      its value; a RENAME of a visible key moves value and expiry, or deletes the key if it is renamed
      to itself, and any other changes nothing; a DELETE removes what is stored; a CLEAR everything.
      `changed` says whether the store is another or a key was stored anew. */
  lemma ApplyMeans(st: StoreState, e: Event, now: int, other: Bytes)
    ensures var applied := Apply(st, e, now); var after := applied.store;
            && after.ttl == st.ttl && (applied.changed <==> e.CreateEvent? || after != st)
            && (other !in Touched(st, e) ==>
                  (other in after.entries <==> other in st.entries)
                  && (other in st.entries ==> after.entries[other] == st.entries[other]))
            && match e
               case CreateEvent(timestamp, key, payload) =>
                 key in after.entries && after.entries[key].value == payload
                 && (st.ttl != NEVER ==> after.entries[key].expiry == timestamp)
               case RenameEvent(_, key, renameKey) =>
                 if key in st.Live(now) then
                   key !in after.entries && (renameKey in after.entries <==> key != renameKey)
                   && (key != renameKey ==> after.entries[renameKey] == st.entries[key])
                 else after == st
               case DeleteEvent(_, key) => key !in after.entries
               case ClearEvent(_) => after.entries == map[]
  {
    match e
    case DeleteEvent(_, key) =>
      if key !in st.entries {
        assert st.entries - {key} == st.entries;
      }
    case RenameEvent(_, key, renameKey) =>
      if key in st.Live(now) {
        assert key !in Apply(st, e, now).store.entries;
      }
    case _ =>
  }

  class RadishStore {
    var ttl: Int64
    var data: map<Bytes, Bytes>
    var ttlData: map<Bytes, Int64>

    /** With a TTL the two maps have the same keys; without one no expiry is recorded. */
    ghost predicate Valid()
      reads this
    {
      if ttl == NEVER then ttlData == map[] else ttlData.Keys == data.Keys
    }

    ghost function State(): StoreState
      reads this
    {
      StoreState(ttl, map key | key in data ::
                   Entry(data[key], if key in ttlData then ttlData[key] else NEVER))
    }

    constructor (ttl: Int64)
      ensures Valid() && State() == EmptyStore(ttl)
    {
      this.ttl := ttl;
      data, ttlData := map[], map[];
    }

    constructor Copy(other: RadishStore)
      requires other.Valid()
      ensures Valid() && State() == other.State()
    {
      ttl, data, ttlData := other.ttl, other.data, other.ttlData;
    }

    predicate HasTimeToLive()
      reads this
    {
      ttl != NEVER
    }

    predicate IsExpired(key: Bytes, now: int)
      requires Valid()
      reads this
      ensures IsExpired(key, now) <==> State().Expired(key, now)
    {
      HasTimeToLive() && key in ttlData && now >= ttlData[key]
    }

    function Get(key: Bytes, now: int): (value: Option<Bytes>)
      requires Valid()
      reads this
      ensures value == if key in State().Live(now) then Some(State().Live(now)[key].value) else None
    {
      if key in data && !IsExpired(key, now) then Some(data[key]) else None
    }

    predicate Exists(key: Bytes, now: int)
      requires Valid()
      reads this
      ensures Exists(key, now) <==> key in State().Live(now)
    {
      !IsExpired(key, now) && key in data
    }

    /** The expiry of a key created now. In the source a sum that overflows is undefined. */
    function NewExpiryTimestamp(now: int): (timestamp: Int64)
      requires ttl != NEVER ==> -TWO_63 <= now + ttl < TWO_63
      reads this
      ensures timestamp == Stamp(ttl, now) == if ttl == NEVER then NEVER else now + ttl
    {
      if HasTimeToLive() then now + ttl else NEVER
    }

    method Create(key: Bytes, value: Bytes, timestamp: Int64)
      requires Valid()
      modifies this
      ensures Valid() && State() == old(State()).Put(key, value, timestamp)
    {
      data := data[key := value];
      if HasTimeToLive() {
        ttlData := ttlData[key := timestamp];
      }
    }

    method Rename(oldKey: Bytes, newKey: Bytes, now: int) returns (renamed: bool)
      requires Valid()
      modifies this
      ensures Valid() && renamed == old(State()).CanMove(oldKey, now)
      ensures State() == if renamed then old(State()).Move(oldKey, newKey) else old(State())
    {
      if oldKey !in data || IsExpired(oldKey, now) {
        return false;
      }
      data := data[newKey := data[oldKey]];
      data := data - {oldKey};
      if oldKey in ttlData {
        ttlData := ttlData[newKey := ttlData[oldKey]];
        ttlData := ttlData - {oldKey};
      } else {
        ttlData := ttlData - {newKey};
      }
      renamed := true;
    }

    method Delete(key: Bytes) returns (deleted: bool)
      requires Valid()
      modifies this
      ensures Valid() && deleted == (key in old(State()).entries)
      ensures State() == old(State()).Remove(key)
    {
      deleted := key in data;
      ttlData := ttlData - {key};
      data := data - {key};
    }

    method Clear() returns (cleared: bool)
      requires Valid()
      modifies this
      ensures Valid() && cleared == (old(State()).entries != map[])
      ensures State() == EmptyStore(old(ttl))
    {
      if data == map[] {
        return false;
      }
      ghost var key :| key in data;
      assert key in State().entries;
      data, ttlData := map[], map[];
      cleared := true;
    }

    /** The live keys, once each, in the order the hash map happens to give. The clock moves while
        the keys are visited: `clock(key)` is the reading taken at `key`. */
    method Scan(clock: Bytes -> int) returns (keys: seq<Bytes>)
      requires Valid()
      ensures forall key :: key in keys <==> key in State().entries && !State().Expired(key, clock(key))
      ensures forall i, j :: 0 <= i < j < |keys| ==> keys[i] != keys[j]
    {
      keys := [];
      var todo := data.Keys;
      while todo != {}
        invariant todo <= data.Keys
        invariant forall key :: key in keys <==>
                    key in data && key !in todo && !State().Expired(key, clock(key))
        invariant forall i, j :: 0 <= i < j < |keys| ==> keys[i] != keys[j]
        decreases todo
      {
        var key :| key in todo;
        todo := todo - {key};
        if !IsExpired(key, clock(key)) {
          keys := keys + [key];
        }
      }
    }

    /** The number of live keys, again under a moving clock. */
    method Size(clock: Bytes -> int) returns (n: nat)
      requires Valid()
      ensures n == |set key | key in State().entries && !State().Expired(key, clock(key))|
    {
      n := 0;
      var todo := data.Keys;
      ghost var counted: set<Bytes> := {};
      while todo != {}
        invariant todo <= data.Keys && n == |counted|
        invariant counted == set key | key in data && key !in todo && !State().Expired(key, clock(key))
        decreases todo
      {
        var key :| key in todo;
        todo := todo - {key};
        if !IsExpired(key, clock(key)) {
          counted := counted + {key};
          n := n + 1;
        }
      }
      assert counted == set key | key in State().entries && !State().Expired(key, clock(key));
    }

    /** Exchanges the contents of two stores, as the commit of a staged store does. */
    method Swap(other: RadishStore)
      requires Valid() && other.Valid()
      modifies this, other
      ensures Valid() && other.Valid()
      ensures State() == old(other.State()) && other.State() == old(State())
    {
      ttl, other.ttl := other.ttl, ttl;
      data, other.data := other.data, data;
      ttlData, other.ttlData := other.ttlData, ttlData;
    }

    method ApplyEvent(e: Event, now: int) returns (changed: bool)
      requires Valid()
      modifies this
      ensures Valid()
      ensures Applied(State(), changed) == Apply(old(State()), e, now)
    {
      match e
      case CreateEvent(timestamp, key, payload) =>
        Create(key, payload, timestamp);
        changed := true;
      case RenameEvent(_, key, renameKey) =>
        changed := Rename(key, renameKey, now);
      case DeleteEvent(_, key) =>
        changed := Delete(key);
      case ClearEvent(_) =>
        changed := Clear();
    }
  }
}
