/** The log on disk: initialisation, append, replay, compaction. */
module LogFile {
  import opened ByteStrings
  import opened LogCodec
  import opened LogReader
  import opened Store
  import opened Compaction
  import opened CompactStrategy
  import opened Semantics

  /** The two files of a database: the log, and the one compaction writes before replacing it. */
  class Disk {
    var main: Option<Bytes>
    var tmp: Option<Bytes>

    constructor (main: Option<Bytes>, tmp: Option<Bytes>)
      ensures this.main == main && this.tmp == tmp
    {
      this.main, this.tmp := main, tmp;
    }
  }

  function Contents(file: Option<Bytes>): Bytes {
    match file
    case None => []
    case Some(bytes) => bytes
  }

  /** What of `m` has been written when the keys in `todo` are still to be visited. */
  ghost function Visited(m: EventsMap, todo: set<Bytes>, clock: Bytes -> int): EventsMap {
    map key | key in m && key !in todo && !PastExpiry(m[key], clock(key)) :: m[key]
  }

  /** A file of complete frames that list `m`. */
  ghost predicate Written(file: Bytes, es: seq<Event>, m: EventsMap) {
    file == LogBytes(es) && AllFit(es) && Lists(es, m)
  }

  lemma WrittenStep(file: Bytes, es: seq<Event>, m: EventsMap, e: Event)
    requires Written(file, es, m) && e.CreateEvent? && e.key !in m
    ensures Fits(e) ==> Written(file + Frame(e), es + [e], m[e.key := e])
  {
    LogBytesSnoc(es, e);
    ListsSnoc(es, m, e);
  }

  lemma VisitedStep(m: EventsMap, todo: set<Bytes>, key: Bytes, clock: Bytes -> int)
    requires key in todo && key in m
    ensures Visited(m, todo - {key}, clock) ==
            if PastExpiry(m[key], clock(key)) then Visited(m, todo, clock)
            else Visited(m, todo, clock)[key := m[key]]
  {}

  lemma ListedFit(es: seq<Event>, m: EventsMap)
    requires Lists(es, m) && AllFit(es)
    ensures forall key :: key in m ==> Fits(m[key])
  {
    forall key | key in m
      ensures Fits(m[key])
    {
      var i :| 0 <= i < |es| && es[i].key == key;
      assert Fits(es[i]);
    }
  }

  class LogWriter {
    const disk: Disk

    constructor Attach(disk: Disk)
      ensures this.disk == disk
    {
      this.disk := disk;
    }

    /** Opens a log, creating an empty one if there is none. An existing file must begin with the
        header; nothing more of it is looked at here. */
    static method Open(disk: Disk) returns (r: Result<LogWriter>)
      modifies disk
      ensures r.Ok? <==> old(disk.main).None? || HEADER <= old(disk.main).value
      ensures r.Ok? ==> r.value.disk == disk
      ensures disk.main == if old(disk.main).None? then Some(LogBytes([])) else old(disk.main)
      ensures disk.tmp == old(disk.tmp)
    {
      if disk.main.None? {
        var file := WriteHeader();
        disk.main := Some(file.rest);
      } else if !(HEADER <= disk.main.value) {
        return Err(BadHeader);
      }
      var writer := new LogWriter.Attach(disk);
      r := Ok(writer);
    }

    /** One more frame at the end of the file, or a refusal and an unchanged file. */
    method Append(e: Event) returns (r: Result<()>)
      modifies disk
      ensures r.Ok? <==> Fits(e)
      ensures disk.main == Some(if Fits(e) then Contents(old(disk.main)) + Frame(e)
                                else Contents(old(disk.main)))
      ensures disk.tmp == old(disk.tmp)
    {
      var file := new ByteStream(Contents(disk.main));
      r := WriteRecord(e, file);
      disk.main := Some(file.rest);
    }

    method Replay(store: RadishStore, clock: nat -> int) returns (r: Result<()>)
      requires store.Valid()
      modifies store
      ensures store.Valid() && (r.Ok? <==> ReadFile(disk.main).Ok?)
      ensures match ReadFile(disk.main)
              case Ok(es) => store.State() == ReplayFrom(old(store.State()), es, clock)
              case Err(_) => store.State() == old(store.State())
    {
      var events := GetEvents(disk.main);
      if events.Err? {
        return Err(events.error);
      }
      var es := events.value;
      for i := 0 to |es|
        invariant store.Valid()
        invariant store.State() == ReplayFrom(old(store.State()), es[..i], clock)
      {
        assert es[..i + 1][..i] == es[..i];
        var _ := store.ApplyEvent(es[i], clock(i));
      }
      assert es[..|es|] == es;
      r := Ok(());
    }

    /** Replaces the log by its compaction, or leaves it alone: that an entry renamed to a longer
        key no longer fits in a record makes compaction fail as a whole. */
    method Compact(clock: nat -> int, rewriteClock: Bytes -> int)
      returns (r: Result<()>, ghost compacted: seq<Event>)
      modifies disk
      ensures match ReadFile(old(disk.main))
              case Err(_) => r.Err?
              case Ok(es) =>
                var kept := Kept(CompactMap(es, clock), rewriteClock);
                r.Ok? <==> forall key :: key in kept ==> Fits(kept[key])
      ensures r.Ok? ==> AllFit(compacted) && disk.main == Some(LogBytes(compacted)) && disk.tmp == None
                        && CompactsTo(ReadFile(old(disk.main)).value, clock, rewriteClock, compacted)
      ensures r.Err? ==> disk.main == old(disk.main)
    {
      compacted := [];
      var events := GetEvents(disk.main);
      if events.Err? {
        return Err(events.error), [];
      }
      var es := events.value;
      var table := new EventTable();
      for i := 0 to |es|
        modifies table
        invariant table.entries == CompactMap(es[..i], clock)
      {
        assert es[..i + 1][..i] == es[..i];
        if !(es[i].CreateEvent? && PastExpiry(es[i], clock(i))) {
          table.ExecuteStrategy(es[i]);
        }
      }
      assert es[..|es|] == es;
      CompactMapOwnKeys(es, clock);
      r, compacted := RewriteHistory(table.entries, rewriteClock);
    }

    static method WriteHeader() returns (file: ByteStream)
      ensures fresh(file) && file.rest == LogBytes([])
    {
      file := new ByteStream([]);
      file.Put(HEADER);
    }

    /** Writes the temporary file record by record, in whatever order the hash map yields its
        entries, and puts it in the place of the log. */
    method RewriteHistory(m: EventsMap, clock: Bytes -> int)
      returns (r: Result<()>, ghost written: seq<Event>)
      requires OwnKeys(m)
      modifies disk
      ensures r.Ok? <==> forall key :: key in Kept(m, clock) ==> Fits(m[key])
      ensures r.Ok? ==> AllFit(written) && Lists(written, Kept(m, clock))
                        && disk.main == Some(LogBytes(written)) && disk.tmp == None
      ensures r.Err? ==> disk.main == old(disk.main)
    {
      written := [];
      var file := WriteHeader();
      disk.tmp := Some(file.rest);
      var todo := m.Keys;
      while todo != {}
        invariant todo <= m.Keys
        invariant disk.main == old(disk.main) && Written(file.rest, written, Visited(m, todo, clock))
        decreases todo
      {
        var key :| key in todo;
        ghost var before := Visited(m, todo, clock);
        VisitedStep(m, todo, key, clock);
        todo := todo - {key};
        if PastExpiry(m[key], clock(key)) {
          continue;
        }
        WrittenStep(file.rest, written, before, m[key]);
        r := WriteRecord(m[key], file);
        disk.tmp := Some(file.rest);
        if r.Err? {
          assert key in Kept(m, clock);
          return;
        }
        written := written + [m[key]];
      }
      assert Visited(m, {}, clock) == Kept(m, clock);
      ListedFit(written, Kept(m, clock));
      disk.main, disk.tmp := Some(file.rest), None;
      r := Ok(());
    }
  }
}
