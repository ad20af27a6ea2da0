/** The compaction strategies, each changing the event table it is handed. */
module CompactStrategy {
  import opened LogCodec
  import opened Compaction

  class EventTable {
    var entries: EventsMap

    constructor ()
      ensures entries == map[]
    {
      entries := map[];
    }

    method ExecuteCreate(e: Event)
      requires e.CreateEvent?
      modifies this
      ensures entries == Execute(old(entries), e)
    {
      entries := entries[e.key := e];
    }

    /** The entry is copied before it is erased, and inserted again under its new name. */
    method ExecuteRename(e: Event)
      requires e.RenameEvent?
      modifies this
      ensures entries == Execute(old(entries), e)
    {
      if e.key in entries {
        var entry := entries[e.key];
        entries := entries - {e.key};
        var renamedEntry := SetKey(entry, e.renameKey);
        entries := entries[e.renameKey := renamedEntry];
      }
    }

    method ExecuteDelete(e: Event)
      requires e.DeleteEvent?
      modifies this
      ensures entries == Execute(old(entries), e)
    {
      entries := entries - {e.key};
    }

    method ExecuteClear(e: Event)
      requires e.ClearEvent?
      modifies this
      ensures entries == Execute(old(entries), e)
    {
      entries := map[];
    }

    method ExecuteStrategy(e: Event)
      modifies this
      ensures entries == Execute(old(entries), e)
    {
      match e
      case CreateEvent(_, _, _) => ExecuteCreate(e);
      case RenameEvent(_, _, _) => ExecuteRename(e);
      case DeleteEvent(_, _) => ExecuteDelete(e);
      case ClearEvent(_) => ExecuteClear(e);
    }
  }
}
