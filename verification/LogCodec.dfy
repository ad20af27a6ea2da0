/** The binary layout of the append-only file: events, frames, header. */
module LogCodec {
  import opened ByteStrings

  /** One logged mutation, with the fields its operation writes. */
  datatype Event =
    | CreateEvent(timestamp: Int64, key: Bytes, payload: Bytes)
    | RenameEvent(timestamp: Int64, key: Bytes, renameKey: Bytes)
    | DeleteEvent(timestamp: Int64, key: Bytes)
    | ClearEvent(timestamp: Int64)

  const HEADER: Bytes := [82, 65, 68, 73, 83, 72, 0, 1]
  const MAX_RECORD: nat := 64 * 1024 * 1024

  const CREATE_TAG: byte := 0
  const RENAME_TAG: byte := 1
  const DELETE_TAG: byte := 2
  const CLEAR_TAG: byte := 3

  function Tag(e: Event): byte {
    match e
    case CreateEvent(_, _, _) => CREATE_TAG
    case RenameEvent(_, _, _) => RENAME_TAG
    case DeleteEvent(_, _) => DELETE_TAG
    case ClearEvent(_) => CLEAR_TAG
  }

  /** A string as its 32-bit length and its bytes. */
  function Blob(s: Bytes): (b: Bytes)
    ensures |b| == 4 + |s|
  {
    LittleEndian(|s|, 4) + s
  }

  function Body(e: Event): Bytes {
    match e
    case CreateEvent(_, key, payload) => Blob(key) + Blob(payload)
    case RenameEvent(_, key, renameKey) => Blob(key) + Blob(renameKey)
    case DeleteEvent(_, key) => Blob(key)
    case ClearEvent(_) => []
  }

  function Record(e: Event): Bytes {
    [Tag(e)] + Int64Bytes(e.timestamp) + Body(e)
  }

  predicate Fits(e: Event) {
    |Record(e)| <= MAX_RECORD
  }

  function Frame(e: Event): Bytes {
    LittleEndian(|Record(e)|, 4) + Record(e)
  }

  function Frames(es: seq<Event>): Bytes {
    if es == [] then [] else Frame(es[0]) + Frames(es[1..])
  }

  function LogBytes(es: seq<Event>): Bytes {
    HEADER + Frames(es)
  }

  predicate AllFit(es: seq<Event>) {
    forall i :: 0 <= i < |es| ==> Fits(es[i])
  }

  /** The bytes each operation takes in a record. */
  lemma RecordSize(e: Event)
    ensures |Record(e)| ==
            match e
            case CreateEvent(_, key, payload) => 17 + |key| + |payload|
            case RenameEvent(_, key, renameKey) => 17 + |key| + |renameKey|
            case DeleteEvent(_, key) => 13 + |key|
            case ClearEvent(_) => 9
    ensures |Frame(e)| == 4 + |Record(e)|
  {}

  /** Where everything stands: the header, the length of the record in front of it, the number of the
      operation, the timestamp in two's complement, and each string behind its length. */
  lemma Layout(e: Event, es: seq<Event>)
    ensures LogBytes(es)[..8] == [82, 65, 68, 73, 83, 72, 0, 1]
    ensures Frame(e)[..4] == LittleEndian(|Record(e)|, 4) && Frame(e)[4..] == Record(e)
    ensures Record(e)[0] == (match e
                             case CreateEvent(_, _, _) => 0
                             case RenameEvent(_, _, _) => 1
                             case DeleteEvent(_, _) => 2
                             case ClearEvent(_) => 3)
    ensures Record(e)[1..9] == LittleEndian(if e.timestamp < 0 then e.timestamp + TWO_64 else e.timestamp, 8)
    ensures Record(e)[9..] == match e
                              case CreateEvent(_, key, payload) =>
                                LittleEndian(|key|, 4) + key + (LittleEndian(|payload|, 4) + payload)
                              case RenameEvent(_, key, renameKey) =>
                                LittleEndian(|key|, 4) + key + (LittleEndian(|renameKey|, 4) + renameKey)
                              case DeleteEvent(_, key) => LittleEndian(|key|, 4) + key
                              case ClearEvent(_) => []
  {}

  // ----- Reading -----

  /** A value read off the front of a stream, and what is left of the stream. */
  datatype Parsed<+T> = Parsed(value: T, rest: Bytes)

  function ReadBlob(b: Bytes): Result<Parsed<Bytes>> {
    if |b| < 4 then Err(BadRecord)
    else
      var n := FromLittleEndian(b[..4]);
      if |b| - 4 < n then Err(BadRecord) else Ok(Parsed(b[4..4 + n], b[4 + n..]))
  }

  function ReadBody(tag: byte, timestamp: Int64, b: Bytes): Result<Parsed<Event>> {
    if tag == CLEAR_TAG then Ok(Parsed(ClearEvent(timestamp), b))
    else
      match ReadBlob(b)
      case Err(x) => Err(x)
      case Ok(Parsed(key, b1)) =>
        if tag == DELETE_TAG then Ok(Parsed(DeleteEvent(timestamp, key), b1))
        else
          match ReadBlob(b1)
          case Err(x) => Err(x)
          case Ok(Parsed(second, b2)) =>
            Ok(Parsed(if tag == RENAME_TAG then RenameEvent(timestamp, key, second)
                      else CreateEvent(timestamp, key, second), b2))
  }

  function ReadEvent(b: Bytes): Result<Parsed<Event>> {
    if |b| < 1 || b[0] > CLEAR_TAG || |b| < 9 then Err(BadRecord)
    else ReadBody(b[0], Int64FromBytes(b[1..9]), b[9..])
  }

  /** A record holds one event and nothing after it. */
  function ReadRecord(b: Bytes): Result<Event> {
    match ReadEvent(b)
    case Err(x) => Err(x)
    case Ok(Parsed(e, rest)) => if rest == [] then Ok(e) else Err(BadRecord)
  }

  function Prepend(es: seq<Event>, r: Result<seq<Event>>): Result<seq<Event>> {
    match r
    case Err(x) => Err(x)
    case Ok(more) => Ok(es + more)
  }

  lemma PrependTwice(es: seq<Event>, e: Event, r: Result<seq<Event>>)
    ensures Prepend(es, Prepend([e], r)) == Prepend(es + [e], r)
    ensures Prepend([], r) == r
    ensures Prepend(es, Ok([])) == Ok(es)
  {
    if r.Ok? {
      assert es + ([e] + r.value) == es + [e] + r.value;
      assert [] + r.value == r.value;
    }
    assert es + [] == es;
  }

  /** What the reading loop makes of everything behind the header. */
  function ReadFrames(b: Bytes): Result<seq<Event>> {
    if |b| < 4 then Ok([])
    else
      var n := FromLittleEndian(b[..4]);
      if n == 0 || n > MAX_RECORD then Err(BadRecordLength)
      else if |b| - 4 < n then Ok([])
      else
        match ReadRecord(b[4..4 + n])
        case Err(x) => Err(x)
        case Ok(e) => Prepend([e], ReadFrames(b[4 + n..]))
  }

  function ReadLog(file: Bytes): Result<seq<Event>> {
    if HEADER <= file then ReadFrames(file[|HEADER|..]) else Err(BadHeader)
  }

  /** An incomplete last frame: part of a length, or a legal length and too few bytes behind it. */
  predicate TornTail(p: Bytes) {
    |p| < 4 ||
    (1 <= FromLittleEndian(p[..4]) <= MAX_RECORD && |p| - 4 < FromLittleEndian(p[..4]))
  }

  // ----- One record -----

  lemma ReadBlobOfBlob(s: Bytes, rest: Bytes)
    requires |s| < TWO_32
    ensures ReadBlob(Blob(s) + rest) == Ok(Parsed(s, rest))
  {
    RadixValues();
    DecodeEncode(|s|, 4);
    var b := Blob(s) + rest;
    assert b[..4] == LittleEndian(|s|, 4);
    assert b[4..4 + |s|] == s;
    assert b[4 + |s|..] == rest;
  }

  lemma BlobOfReadBlob(b: Bytes)
    requires ReadBlob(b).Ok?
    ensures b == Blob(ReadBlob(b).value.value) + ReadBlob(b).value.rest
  {
    EncodeDecode(b[..4]);
    assert b == b[..4] + b[4..];
  }

  /** Every event that fits in a record is read back from its own bytes. */
  lemma ReadRecordOfRecord(e: Event)
    requires Fits(e)
    ensures ReadRecord(Record(e)) == Ok(e)
  {
    var b := Record(e);
    Int64RoundTrip(e.timestamp);
    assert b[1..9] == Int64Bytes(e.timestamp);
    assert b[9..] == Body(e);
    match e
    case CreateEvent(_, key, payload) =>
      ReadBlobOfBlob(key, Blob(payload));
      ReadBlobOfBlob(payload, []);
      assert Blob(payload) + [] == Blob(payload);
    case RenameEvent(_, key, renameKey) =>
      ReadBlobOfBlob(key, Blob(renameKey));
      ReadBlobOfBlob(renameKey, []);
      assert Blob(renameKey) + [] == Blob(renameKey);
    case DeleteEvent(_, key) =>
      ReadBlobOfBlob(key, []);
      assert Blob(key) + [] == Blob(key);
    case ClearEvent(_) =>
  }

  lemma BodyOfReadBody(tag: byte, timestamp: Int64, b: Bytes)
    requires tag <= CLEAR_TAG
    requires ReadBody(tag, timestamp, b).Ok?
    ensures var p := ReadBody(tag, timestamp, b).value;
            Tag(p.value) == tag && p.value.timestamp == timestamp && b == Body(p.value) + p.rest
  {
    if tag != CLEAR_TAG {
      BlobOfReadBlob(b);
      var first := ReadBlob(b).value;
      if tag != DELETE_TAG {
        BlobOfReadBlob(first.rest);
        var second := ReadBlob(first.rest).value;
        assert b == Blob(first.value) + Blob(second.value) + second.rest;
      }
    }
  }

  /** Only its own bytes are read as an event: no second spelling is accepted. */
  lemma RecordOfReadRecord(b: Bytes)
    requires ReadRecord(b).Ok?
    ensures Record(ReadRecord(b).value) == b
  {
    var timestamp := Int64FromBytes(b[1..9]);
    BodyOfReadBody(b[0], timestamp, b[9..]);
    Int64Canonical(b[1..9]);
    var e := ReadRecord(b).value;
    assert Body(e) + [] == Body(e);
    assert b == [b[0]] + b[1..9] + b[9..];
  }

  // ----- The whole file -----

  lemma FrameParts(e: Event, rest: Bytes)
    requires Fits(e)
    ensures var b := Frame(e) + rest; var n := |Record(e)|;
            |b| >= 4 + n && FromLittleEndian(b[..4]) == n && 1 <= n <= MAX_RECORD
            && b[4..4 + n] == Record(e) && b[4 + n..] == rest
  {
    RadixValues();
    DecodeEncode(|Record(e)|, 4);
    assert (Frame(e) + rest)[..4] == LittleEndian(|Record(e)|, 4);
  }

  lemma ReadOneFrame(e: Event, rest: Bytes)
    requires Fits(e)
    ensures ReadFrames(Frame(e) + rest) == Prepend([e], ReadFrames(rest))
  {
    FrameParts(e, rest);
    ReadRecordOfRecord(e);
  }

  lemma {:induction false} ReadFramesOfFrames(es: seq<Event>, tail: Bytes)
    requires AllFit(es) && TornTail(tail)
    ensures ReadFrames(Frames(es) + tail) == Ok(es)
  {
    if es == [] {
      assert Frames(es) + tail == tail;
    } else {
      var rest := Frames(es[1..]) + tail;
      assert Frames(es) + tail == Frame(es[0]) + rest;
      ReadOneFrame(es[0], rest);
      ReadFramesOfFrames(es[1..], tail);
      assert [es[0]] + es[1..] == es;
    }
  }

  /** What the reading loop has seen once it is past a complete first frame. */
  lemma FirstRecord(b: Bytes, es: seq<Event>) returns (n: nat)
    requires ReadFrames(b) == Ok(es) && !TornTail(b)
    ensures 4 <= 4 + n <= |b| && n == FromLittleEndian(b[..4]) && 1 <= n <= MAX_RECORD
    ensures |es| > 0 && ReadRecord(b[4..4 + n]) == Ok(es[0])
    ensures ReadFrames(b[4 + n..]) == Ok(es[1..])
  {
    n := FromLittleEndian(b[..4]);
    var more := ReadFrames(b[4 + n..]);
    assert more.Ok? && es[1..] == more.value;
  }

  lemma ThreeParts(b: Bytes, n: nat)
    requires 4 + n <= |b|
    ensures b == b[..4] + b[4..4 + n] + b[4 + n..]
  {}

  /** A complete first frame that reads as an event is that event's frame. */
  lemma SplitFirstFrame(b: Bytes, es: seq<Event>) returns (rest: Bytes)
    requires ReadFrames(b) == Ok(es) && !TornTail(b)
    ensures |es| > 0 && Fits(es[0]) && b == Frame(es[0]) + rest && |rest| < |b|
    ensures ReadFrames(rest) == Ok(es[1..])
  {
    var n := FirstRecord(b, es);
    RecordOfReadRecord(b[4..4 + n]);
    EncodeDecode(b[..4]);
    ThreeParts(b, n);
    rest := b[4 + n..];
  }

  lemma JoinFirstFrame(es: seq<Event>, rest: Bytes, tail: Bytes)
    requires |es| > 0 && rest == Frames(es[1..]) + tail
    ensures Frame(es[0]) + rest == Frames(es) + tail
  {}

  lemma TornReadsNothing(p: Bytes)
    requires TornTail(p)
    ensures ReadFrames(p) == Ok([])
  {}

  lemma {:induction false} FramesOfReadFrames(b: Bytes, es: seq<Event>) returns (tail: Bytes)
    requires ReadFrames(b) == Ok(es)
    ensures AllFit(es) && b == Frames(es) + tail && TornTail(tail)
    decreases |b|
  {
    hide Frame, TornTail, ReadFrames;
    if TornTail(b) {
      TornReadsNothing(b);
      tail := b;
    } else {
      var rest := SplitFirstFrame(b, es);
      tail := FramesOfReadFrames(rest, es[1..]);
      JoinFirstFrame(es, rest, tail);
      assert forall i :: 1 <= i < |es| ==> es[i] == es[1..][i - 1];
    }
  }

  lemma Split(a: Bytes, t: Bytes)
    ensures a <= a + t && (a + t)[|a|..] == t
  {}

  /** Cutting `a + b` off a file is cutting off `a`, then `b`. */
  lemma CutTwice(a: Bytes, b: Bytes, file: Bytes)
    ensures a + b <= file <==> a <= file && b <= file[|a|..]
    ensures a + b <= file ==> file[|a + b|..] == file[|a|..][|b|..]
  {
    if a <= file && b <= file[|a|..] {
      assert file == a + file[|a|..];
    }
    if a + b <= file {
      assert file[..|a|] == (a + b)[..|a|] == a;
      assert file[|a|..][..|b|] == file[..|a + b|][|a|..] == b;
    }
  }

  lemma Rejoin(a: Bytes, b: Bytes)
    requires a <= b
    ensures b == a + b[|a|..]
  {}

  lemma ReadFramesSound(b: Bytes, es: seq<Event>)
    requires ReadFrames(b) == Ok(es)
    ensures AllFit(es) && Frames(es) <= b && TornTail(b[|Frames(es)|..])
  {
    var tail := FramesOfReadFrames(b, es);
    Split(Frames(es), tail);
  }

  lemma ReadFramesComplete(b: Bytes, es: seq<Event>)
    requires AllFit(es) && Frames(es) <= b && TornTail(b[|Frames(es)|..])
    ensures ReadFrames(b) == Ok(es)
  {
    Rejoin(Frames(es), b);
    ReadFramesOfFrames(es, b[|Frames(es)|..]);
  }

  /** The log format, exactly: a file reads as `es` just when it is the header, the frames of
      `es`, all of legal size, and at most one incomplete frame. */
  lemma ReadLogExact(file: Bytes, es: seq<Event>)
    ensures ReadLog(file) == Ok(es) <==>
            AllFit(es) && LogBytes(es) <= file && TornTail(file[|LogBytes(es)|..])
  {
    CutTwice(HEADER, Frames(es), file);
    if ReadLog(file) == Ok(es) {
      ReadFramesSound(file[|HEADER|..], es);
    }
    if AllFit(es) && LogBytes(es) <= file && TornTail(file[|LogBytes(es)|..]) {
      ReadFramesComplete(file[|HEADER|..], es);
    }
  }

  lemma ReadLogComplete(es: seq<Event>, tail: Bytes)
    requires AllFit(es) && TornTail(tail)
    ensures ReadLog(LogBytes(es) + tail) == Ok(es)
  {
    Split(LogBytes(es), tail);
    ReadLogExact(LogBytes(es) + tail, es);
  }

  /** Every strict prefix of a legal frame, down to no byte at all, is an ignored torn tail. */
  lemma StrictPrefixIsTorn(e: Event, p: Bytes)
    requires Fits(e) && p < Frame(e)
    ensures TornTail(p)
  {
    FrameParts(e, []);
    assert Frame(e) + [] == Frame(e);
    if |p| >= 4 {
      assert p[..4] == Frame(e)[..4];
    }
  }

  lemma {:induction false} FramesAppend(xs: seq<Event>, ys: seq<Event>)
    ensures Frames(xs + ys) == Frames(xs) + Frames(ys)
  {
    if xs == [] {
      assert xs + ys == ys;
    } else {
      assert (xs + ys)[1..] == xs[1..] + ys;
      FramesAppend(xs[1..], ys);
    }
  }

  lemma LogBytesSnoc(es: seq<Event>, e: Event)
    ensures LogBytes(es + [e]) == LogBytes(es) + Frame(e)
  {
    FramesAppend(es, [e]);
    assert Frames([e]) == Frame(e) + Frames([]) == Frame(e);
    Associate(HEADER, Frames(es), Frame(e));
  }

  /** Torn-tail recovery: complete frames and a part of the next one read as the complete ones. */
  lemma TornTailRecovery(es: seq<Event>, e: Event, p: Bytes)
    requires AllFit(es) && Fits(e) && p < Frame(e)
    ensures ReadLog(LogBytes(es) + p) == Ok(es)
    ensures ReadLog(LogBytes(es) + Frame(e)) == Ok(es + [e])
  {
    StrictPrefixIsTorn(e, p);
    ReadLogComplete(es, p);
    LogBytesSnoc(es, e);
    ReadLogComplete(es + [e], []);
    assert LogBytes(es + [e]) + [] == LogBytes(es + [e]);
  }

  /** What a further append behind a torn tail is worth: the new event is read back after the old
      ones exactly when the torn bytes followed by the new frame begin with that very frame, and
      leave a torn tail again. Without torn bytes that is always so. */
  lemma AppendBehindTornTail(es: seq<Event>, tail: Bytes, e: Event)
    requires AllFit(es) && TornTail(tail) && Fits(e)
    ensures ReadLog(LogBytes(es) + tail + Frame(e)) == Ok(es + [e]) <==>
            Frame(e) <= tail + Frame(e) && TornTail((tail + Frame(e))[|Frame(e)|..])
    ensures tail == [] ==> ReadLog(LogBytes(es) + tail + Frame(e)) == Ok(es + [e])
  {
    var log, next := LogBytes(es), tail + Frame(e);
    Associate(log, tail, Frame(e));
    LogBytesSnoc(es, e);
    ReadLogExact(log + next, es + [e]);
    CutTwice(log, Frame(e), log + next);
    Split(log, next);
    if tail == [] {
      assert next == Frame(e);
    }
  }

  /** Complete frames stand for themselves: what lies behind them is read as if it stood alone. So
      an append behind torn bytes leaves the log readable exactly when the torn bytes and the new
      frame are readable together. */
  lemma {:induction false} ReadBehindFrames(es: seq<Event>, b: Bytes)
    requires AllFit(es)
    ensures ReadFrames(Frames(es) + b) == Prepend(es, ReadFrames(b))
  {
    hide Frame, ReadFrames, Prepend;
    if es == [] {
      assert Frames(es) + b == b;
      PrependTwice([], ClearEvent(0), ReadFrames(b));
    } else {
      var rest := Frames(es[1..]) + b;
      assert Frames(es) + b == Frame(es[0]) + rest;
      ReadOneFrame(es[0], rest);
      ReadBehindFrames(es[1..], b);
      PrependFirst(es, ReadFrames(b));
    }
  }

  lemma PrependFirst(es: seq<Event>, r: Result<seq<Event>>)
    requires es != []
    ensures Prepend([es[0]], Prepend(es[1..], r)) == Prepend(es, r)
  {
    if r.Ok? {
      assert [es[0]] + (es[1..] + r.value) == es + r.value;
    }
  }

  lemma ReadLogBehind(es: seq<Event>, b: Bytes)
    requires AllFit(es)
    ensures ReadLog(LogBytes(es) + b) == Prepend(es, ReadFrames(b))
  {
    ReadBehindFrames(es, b);
    Associate(HEADER, Frames(es), b);
    Split(HEADER, Frames(es) + b);
  }

  lemma ClearFrame()
    ensures Frame(ClearEvent(-1))[..4] == [9, 0, 0, 0] && |Frame(ClearEvent(-1))| == 13
    ensures Fits(ClearEvent(-1))
  {
    FrameParts(ClearEvent(-1), []);
    assert Frame(ClearEvent(-1))[..4] == LittleEndian(9, 4) == [9, 0, 0, 0];
  }

  /** An acknowledged append can be lost: behind the single torn byte 5, the frame of a CLEAR
      becomes the beginning of a longer frame that never ends. */
  lemma AppendBehindTornTailIsLost(es: seq<Event>)
    requires AllFit(es)
    ensures TornTail([5]) && ReadLog(LogBytes(es) + [5] + Frame(ClearEvent(-1))) == Ok(es)
  {
    ClearFrame();
    var p: Bytes := [5] + Frame(ClearEvent(-1));
    assert p[..4] == [5, 9, 0, 0];
    assert FromLittleEndian([5, 9, 0, 0]) == 2309 by {
      assert FromLittleEndian([0 as byte, 0]) == 0;
    }
    Associate(LogBytes(es), [5], Frame(ClearEvent(-1)));
    ReadLogComplete(es, p);
  }

  /** Worse, it can make the whole log unreadable, the events before it included: behind the torn
      bytes 9, 0, 0, the frame of a CLEAR announces a record of more than 64 MiB. */
  lemma AppendBehindTornTailIsFatal(es: seq<Event>)
    requires AllFit(es)
    ensures TornTail([9, 0, 0])
    ensures ReadLog(LogBytes(es) + [9, 0, 0] + Frame(ClearEvent(-1))) == Err(BadRecordLength)
  {
    ClearFrame();
    var p: Bytes := [9, 0, 0] + Frame(ClearEvent(-1));
    assert p[..4] == [9, 0, 0, 9];
    assert FromLittleEndian([9, 0, 0, 9]) > MAX_RECORD by {
      assert FromLittleEndian([0, 9]) == 2304;
    }
    Associate(LogBytes(es), [9, 0, 0], Frame(ClearEvent(-1)));
    ReadLogBehind(es, p);
  }
}
