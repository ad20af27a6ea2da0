/** The database: mutations are staged on a copy, logged, and only then swapped in. */
module Database {
  import opened ByteStrings
  import opened LogCodec
  import opened Store
  import opened Compaction
  import opened Semantics
  import opened LogFile

  /** A database as a value: its store and, unless persistence is disabled, its log file. */
  datatype Db = Db(store: StoreState, log: Option<Bytes>)

  datatype Committed = Committed(db: Db, result: Result<bool>)

  /** A mutation that changes nothing, or cannot be logged, leaves store and file as they were. */
  function Committing(db: Db, e: Event, now: int): Committed {
    var applied := Apply(db.store, e, now);
    if !applied.changed then Committed(db, Ok(false))
    else
      match db.log
      case None => Committed(Db(applied.store, None), Ok(true))
      case Some(file) =>
        if Fits(e) then Committed(Db(applied.store, Some(file + Frame(e))), Ok(true))
        else Committed(db, Err(RecordTooLarge))
  }

  class RadishDB {
    const store: RadishStore
    const log: LogWriter?

    ghost function Footprint(): set<object> {
      {store} + (if log == null then {} else {log.disk})
    }

    ghost predicate Valid()
      reads Footprint()
    {
      store.Valid() && (log != null ==> log.disk.main.Some?)
    }

    ghost function Model(): Db
      reads Footprint()
    {
      Db(store.State(), if log == null then None else log.disk.main)
    }

    constructor Attach(store: RadishStore, log: LogWriter?)
      ensures this.store == store && this.log == log
    {
      this.store, this.log := store, log;
    }

    /** Start-up: without persistence an empty store, with it the replay of whatever is on disk. */
    static method Open(ttl: Int64, disk: Disk, persistent: bool, clock: nat -> int)
      returns (r: Result<RadishDB>)
      modifies disk
      ensures r.Ok? ==> r.value.Valid() && fresh(r.value.Footprint() - {disk})
      ensures !persistent ==> r.Ok? && r.value.Model() == Db(EmptyStore(ttl), None) && unchanged(disk)
      ensures persistent && old(disk.main).None? ==>
                r.Ok? && r.value.Model() == Db(EmptyStore(ttl), Some(LogBytes([])))
      ensures persistent && old(disk.main).Some? ==>
                disk.main == old(disk.main) &&
                match ReadLog(disk.main.value)
                case Err(_) => r.Err?
                case Ok(es) => r.Ok? && r.value.Model() == Db(Replay(ttl, es, clock), disk.main)
    {
      var store := new RadishStore(ttl);
      if !persistent {
        var volatile := new RadishDB.Attach(store, null);
        return Ok(volatile);
      }
      ghost var before := disk.main;
      var log := LogWriter.Open(disk);
      if log.Err? {
        return Err(log.error);
      }
      if before.None? {
        EmptyLogReads();
      }
      var replayed := log.value.Replay(store, clock);
      if replayed.Err? {
        return Err(replayed.error);
      }
      var db := new RadishDB.Attach(store, log.value);
      r := Ok(db);
    }

    method Commit(e: Event, now: int) returns (r: Result<bool>)
      requires Valid()
      modifies Footprint()
      ensures Valid()
      ensures Committed(Model(), r) == Committing(old(Model()), e, now)
    {
      var stagedStore := new RadishStore.Copy(store);
      var applied := stagedStore.ApplyEvent(e, now);
      if !applied {
        return Ok(false);
      }
      if log != null {
        var appended := log.Append(e);
        if appended.Err? {
          return Err(RecordTooLarge);
        }
      }
      store.Swap(stagedStore);
      r := Ok(true);
    }

    /** The clock is read once, for the expiry that is both logged and stored. */
    method Create(key: Bytes, value: Bytes, now: int) returns (r: Result<bool>)
      requires Valid()
      requires store.ttl != NEVER ==> -TWO_63 <= now + store.ttl < TWO_63
      modifies Footprint()
      ensures Valid()
      ensures var e := CreateEvent(Stamp(old(store.ttl), now), key, value);
              Committed(Model(), r) == Committing(old(Model()), e, now)
    {
      r := Commit(CreateEvent(store.NewExpiryTimestamp(now), key, value), now);
    }

    method Rename(oldKey: Bytes, newKey: Bytes, now: int) returns (r: Result<bool>)
      requires Valid()
      modifies Footprint()
      ensures Valid()
      ensures Committed(Model(), r) == Committing(old(Model()), RenameEvent(NEVER, oldKey, newKey), now)
    {
      r := Commit(RenameEvent(NEVER, oldKey, newKey), now);
    }

    /** No clock is read: an expired key counts as deleted. */
    method Delete(key: Bytes) returns (r: Result<bool>)
      requires Valid()
      modifies Footprint()
      ensures Valid()
      ensures Committed(Model(), r) == Committing(old(Model()), DeleteEvent(NEVER, key), 0)
    {
      r := Commit(DeleteEvent(NEVER, key), 0);
    }

    method Clear() returns (r: Result<bool>)
      requires Valid()
      modifies Footprint()
      ensures Valid()
      ensures Committed(Model(), r) == Committing(old(Model()), ClearEvent(NEVER), 0)
    {
      r := Commit(ClearEvent(NEVER), 0);
    }

    method Compact(clock: nat -> int, rewriteClock: Bytes -> int)
      returns (r: Result<()>, ghost compacted: seq<Event>)
      requires Valid()
      modifies Footprint()
      ensures Valid() && store.State() == old(store.State())
      ensures log == null ==> r.Ok? && Model() == old(Model())
      ensures log != null && r.Err? ==> Model() == old(Model())
      ensures log != null ==>
                match ReadLog(old(log.disk.main.value))
                case Err(_) => r.Err?
                case Ok(es) =>
                  var kept := Kept(CompactMap(es, clock), rewriteClock);
                  r.Ok? <==> forall key :: key in kept ==> Fits(kept[key])
      ensures log != null && r.Ok? ==>
                AllFit(compacted) && Model().log == Some(LogBytes(compacted)) &&
                var before := ReadLog(old(log.disk.main.value));
                before.Ok? && CompactsTo(before.value, clock, rewriteClock, compacted)
    {
      r, compacted := Ok(()), [];
      if log != null {
        r, compacted := log.Compact(clock, rewriteClock);
      }
    }
  }

  lemma EmptyLogReads()
    ensures ReadLog(LogBytes([])) == Ok([])
  {
    ReadLogComplete([], []);
    assert LogBytes([]) + [] == LogBytes([]);
  }

  /** All or nothing, told from what a restart would read: an effective mutation adds itself, and
      only itself, to the events of a clean log; any other leaves store and file untouched. */
  lemma CommitIsAllOrNothing(db: Db, es: seq<Event>, e: Event, now: int)
    requires AllFit(es) && db.log == Some(LogBytes(es))
    ensures var c := Committing(db, e, now); var applied := Apply(db.store, e, now);
            if applied.changed && Fits(e) then
              c.result == Ok(true) && c.db.store == applied.store
              && c.db.log == Some(LogBytes(es + [e])) && ReadLog(c.db.log.value) == Ok(es + [e])
            else c.db == db && c.result != Ok(true)
  {
    if Fits(e) {
      TornTailRecovery(es, e, []);
      LogBytesSnoc(es, e);
    }
  }

  /** Persistence is transparent: with a log or without one, a mutation that fits in a record has the
      same result and leaves the same store, which is what the mutation makes of it. */
  lemma PersistenceIsTransparent(st: StoreState, log: Bytes, e: Event, now: int)
    requires Fits(e)
    ensures var volatile, logged := Committing(Db(st, None), e, now), Committing(Db(st, Some(log)), e, now);
            && volatile.result == logged.result == Ok(Apply(st, e, now).changed)
            && volatile.db.store == logged.db.store == Apply(st, e, now).store
            && volatile.db.log == None && logged.db.log.Some?
  {
    ApplyMeans(st, e, now, []);
  }

  /** A database after a list of mutations; `clock(i)` is the reading taken at mutation `i`. */
  function CommittingAll(db: Db, es: seq<Event>, clock: nat -> int): Db {
    if es == [] then db
    else
      var n := |es| - 1;
      Committing(CommittingAll(db, es[..n], clock), es[n], clock(n)).db
  }

  /** So a whole run of mutations leaves, with a log or without one, the store it would leave if each
      of them were simply applied. */
  lemma {:induction false} RunsAreTransparent(ttl: Int64, log: Option<Bytes>, es: seq<Event>, clock: nat -> int)
    requires AllFit(es)
    ensures var db := CommittingAll(Db(EmptyStore(ttl), log), es, clock);
            db.store == Replay(ttl, es, clock) && (db.log.Some? <==> log.Some?)
  {
    hide Fits, Committing, Apply;
    if es != [] {
      var n := |es| - 1;
      RunsAreTransparent(ttl, log, es[..n], clock);
      var db := CommittingAll(Db(EmptyStore(ttl), log), es[..n], clock);
      PersistenceIsTransparent(db.store, if db.log.Some? then db.log.value else [], es[n], clock(n));
    }
  }

  /** A key lives exactly as long as its TTL: created at `now` it is visible, with its value, until
      `now` plus the TTL and not any more from then on, or for ever without a TTL. No other key is
      touched. Only a record that is too large for the log is refused. */
  lemma CreatedLivesItsTtl(db: Db, key: Bytes, value: Bytes, now: int, later: int)
    requires db.store.ttl != NEVER ==> -TWO_63 <= now + db.store.ttl < TWO_63
    ensures var ttl, e := db.store.ttl, CreateEvent(Stamp(db.store.ttl, now), key, value);
            var c := Committing(db, e, now); var before, after := db.store.Live(later), c.db.store.Live(later);
            && (c.result == Ok(true) <==> db.log.None? || Fits(e)) && (c.result != Ok(true) ==> c.db == db)
            && (c.result == Ok(true) ==>
                  && (key in after <==> ttl == NEVER || later < now + ttl)
                  && (key in after ==> after[key].value == value)
                  && after - {key} == before - {key})
  {
    StampIsSum(db.store.ttl, now);
    LivePut(db.store, key, value, Stamp(db.store.ttl, now), later);
  }
}
