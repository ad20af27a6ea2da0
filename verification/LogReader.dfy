/** The step-by-step reading and writing of events and of the log file. */
module LogReader {
  import opened ByteStrings
  import opened LogCodec

  /** A binary stream: bytes are read off its front and written behind its end. */
  class ByteStream {
    var rest: Bytes

    constructor (bytes: Bytes)
      ensures rest == bytes
    {
      rest := bytes;
    }

    method Put(bytes: Bytes)
      modifies this
      ensures rest == old(rest) + bytes
    {
      rest := rest + bytes;
    }

    /** A short read takes what there is and fails. */
    method Take(n: nat) returns (r: Result<Bytes>)
      modifies this
      ensures r == if n <= |old(rest)| then Ok(old(rest)[..n]) else Err(BadRecord)
      ensures rest == if n <= |old(rest)| then old(rest)[n..] else []
    {
      if n <= |rest| {
        r, rest := Ok(rest[..n]), rest[n..];
      } else {
        r, rest := Err(BadRecord), [];
      }
    }

    method PutString(s: Bytes) returns (r: Result<()>)
      modifies this
      ensures r == if |s| < TWO_32 then Ok(()) else Err(StringTooLarge)
      ensures rest == if |s| < TWO_32 then old(rest) + Blob(s) else old(rest)
    {
      if |s| >= TWO_32 {
        return Err(StringTooLarge);
      }
      Put(LittleEndian(|s|, 4));
      Put(s);
      r := Ok(());
    }

    method TakeString() returns (r: Result<Bytes>)
      modifies this
      ensures match ReadBlob(old(rest))
              case Ok(p) => r == Ok(p.value) && rest == p.rest
              case Err(x) => r == Err(x)
    {
      var length := Take(4);
      if length.Err? {
        return Err(length.error);
      }
      ghost var all, n := old(rest), FromLittleEndian(length.value);
      assert n <= |all| - 4 ==> all[4..][..n] == all[4..4 + n] && all[4..][n..] == all[4 + n..];
      r := Take(FromLittleEndian(length.value));
    }
  }

  /** Writes the fields of `e` its operation calls for, in order. */
  method Serialize(e: Event, file: ByteStream) returns (r: Result<()>)
    modifies file
    ensures r.Ok? ==> file.rest == old(file.rest) + Record(e)
    ensures Fits(e) ==> r.Ok?
    ensures r.Err? ==> |Record(e)| >= TWO_32
  {
    ghost var start, head := file.rest, [Tag(e)] + Int64Bytes(e.timestamp);
    file.Put([Tag(e)]);
    file.Put(Int64Bytes(e.timestamp));
    Associate(start, [Tag(e)], Int64Bytes(e.timestamp));
    if e.ClearEvent? {
      assert Record(e) == head;
      return Ok(());
    }
    r := file.PutString(e.key);
    if r.Err? {
      return;
    }
    Associate(start, head, Blob(e.key));
    assert file.rest == start + (head + Blob(e.key));
    if e.RenameEvent? {
      r := file.PutString(e.renameKey);
      Associate(start, head + Blob(e.key), Blob(e.renameKey));
      Associate(head, Blob(e.key), Blob(e.renameKey));
    }
    if e.CreateEvent? {
      r := file.PutString(e.payload);
      Associate(start, head + Blob(e.key), Blob(e.payload));
      Associate(head, Blob(e.key), Blob(e.payload));
    }
  }

  method Deserialize(file: ByteStream) returns (r: Result<Event>)
    modifies file
    ensures match ReadEvent(old(file.rest))
            case Ok(p) => r == Ok(p.value) && file.rest == p.rest
            case Err(x) => r == Err(x)
  {
    var tag := file.Take(1);
    if tag.Err? || tag.value[0] > CLEAR_TAG {
      return Err(BadRecord);
    }
    var stamp := file.Take(8);
    if stamp.Err? {
      return Err(BadRecord);
    }
    var timestamp := Int64FromBytes(stamp.value);
    assert old(file.rest)[1..][..8] == old(file.rest)[1..9];
    assert old(file.rest)[1..][8..] == old(file.rest)[9..];
    if tag.value[0] == CLEAR_TAG {
      return Ok(ClearEvent(timestamp));
    }
    var key := file.TakeString();
    if key.Err? {
      return Err(key.error);
    }
    if tag.value[0] == DELETE_TAG {
      return Ok(DeleteEvent(timestamp, key.value));
    }
    var second := file.TakeString();
    if second.Err? {
      return Err(second.error);
    }
    if tag.value[0] == RENAME_TAG {
      return Ok(RenameEvent(timestamp, key.value, second.value));
    }
    r := Ok(CreateEvent(timestamp, key.value, second.value));
  }

  /** The frame of `e`, or the refusal that keeps the reader's record bound true of every file. */
  method WriteRecord(e: Event, file: ByteStream) returns (r: Result<()>)
    modifies file
    ensures r.Ok? <==> Fits(e)
    ensures file.rest == if Fits(e) then old(file.rest) + Frame(e) else old(file.rest)
  {
    var record := new ByteStream([]);
    r := Serialize(e, record);
    if r.Err? {
      return;
    }
    var bytes := record.rest;
    assert bytes == Record(e);
    if bytes == [] || |bytes| > MAX_RECORD {
      return Err(RecordTooLarge);
    }
    Associate(file.rest, LittleEndian(|bytes|, 4), bytes);
    file.Put(LittleEndian(|bytes|, 4));
    file.Put(bytes);
  }

  /** The events of a log file; a file that does not exist has none. */
  function ReadFile(file: Option<Bytes>): Result<seq<Event>> {
    match file
    case None => Ok([])
    case Some(bytes) => ReadLog(bytes)
  }

  /** One complete record: an event, and no trailing byte. */
  method ParseRecord(record: Bytes) returns (r: Result<Event>)
    ensures r == ReadRecord(record)
  {
    var recordStream := new ByteStream(record);
    r := Deserialize(recordStream);
    if r.Ok? && recordStream.rest != [] {
      r := Err(BadRecord);
    }
  }

  /** The reader's loop, frame by frame. */
  method GetEvents(file: Option<Bytes>) returns (r: Result<seq<Event>>)
    ensures r == ReadFile(file)
  {
    if file.None? {
      return Ok([]);
    }
    var stream := new ByteStream(file.value);
    var header := stream.Take(8);
    if header.Err? || header.value != HEADER {
      return Err(BadHeader);
    }
    var events: seq<Event> := [];
    ghost var all := ReadFrames(stream.rest);
    assert Prepend([], all) == all by {
      PrependTwice([], ClearEvent(-1), all);
    }
    while true
      invariant all == Prepend(events, ReadFrames(stream.rest))
      decreases |stream.rest|
    {
      ghost var before := stream.rest;
      PrependTwice(events, ClearEvent(-1), Ok([]));
      var length := stream.Take(4);
      if length.Err? {
        return Ok(events);
      }
      var size := FromLittleEndian(length.value);
      if size == 0 || size > MAX_RECORD {
        return Err(BadRecordLength);
      }
      var record := stream.Take(size);
      if record.Err? {
        return Ok(events);
      }
      assert record.value == before[4..4 + size] && stream.rest == before[4 + size..];
      var event := ParseRecord(record.value);
      if event.Err? {
        return Err(event.error);
      }
      PrependTwice(events, event.value, ReadFrames(stream.rest));
      events := events + [event.value];
    }
  }
}
