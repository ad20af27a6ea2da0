/** Any value a server may send, nested or not, and what the client makes of it. */
module RespValues {
  import opened ByteStrings
  import opened RespCodec
  import opened RespReplies
  import opened RespClient

  /** A line; the bytes of a bulk string; a null of the older protocol; or an array or map of values. */
  datatype Value =
    | Line(head: byte, text: Bytes)
    | Data(bytes: Bytes)
    | Null(head: byte, number: Int64)
    | Aggregate(head: byte, values: seq<Value>)

  /** Values that can be sent: a text stands on one line, a map has a value for each key. */
  predicate Sound(v: Value) {
    match v
    case Line(head, text) => head in {PLUS, MINUS, COLON, UNDERSCORE, HASH} && OneLine(text)
    case Data(bytes) => |bytes| < TWO_63
    case Null(head, number) => head in {DOLLAR, STAR, PERCENT} && number < 0
    case Aggregate(head, values) =>
      && head in {STAR, PERCENT} && |values| < TWO_63 && (head == PERCENT ==> |values| % 2 == 0)
      && AllSound(values)
  }

  predicate AllSound(values: seq<Value>) {
    values == [] || (Sound(values[0]) && AllSound(values[1..]))
  }

  function EncodeValue(v: Value): Bytes {
    match v
    case Line(head, text) => [head] + text + CRLF
    case Data(bytes) => EncodeBulk(bytes)
    case Null(head, number) => [head] + SignedDecimal(number) + CRLF
    case Aggregate(head, values) =>
      [head] + Decimal(if head == PERCENT then |values| / 2 else |values|) + CRLF + EncodeValues(values)
  }

  function EncodeValues(values: seq<Value>): Bytes {
    if values == [] then [] else EncodeValue(values[0]) + EncodeValues(values[1..])
  }

  /** How many levels lie below a value. */
  function Height(v: Value): nat {
    if v.Aggregate? then Heights(v.values) else 0
  }

  /** One more than the highest of them, or nothing. */
  function Heights(values: seq<Value>): nat {
    if values == [] then 0
    else
      var first, others := Height(values[0]) + 1, Heights(values[1..]);
      if first < others then others else first
  }

  /** No error stands anywhere in it. */
  predicate Succeeds(v: Value) {
    match v
    case Line(head, _) => head != MINUS
    case Aggregate(_, values) => AllSucceed(values)
    case _ => true
  }

  predicate AllSucceed(values: seq<Value>) {
    values == [] || (Succeeds(values[0]) && AllSucceed(values[1..]))
  }

  lemma ReadNull(head: byte, number: Int64, rest: Bytes, depth: nat)
    requires head in {DOLLAR, STAR, PERCENT} && number < 0 && depth <= MAX_DEPTH
    ensures ReadResponse([head] + SignedDecimal(number) + CRLF + rest, depth) == Ok(Taken(true, rest))
  {
    hide SignedDecimal, ReadLine;
    SignedIsOneLine(head, number);
    ReadFramed([head] + SignedDecimal(number), rest, depth);
    ParseLongOfSigned(number);
  }

  lemma ReadLineValue(head: byte, text: Bytes, rest: Bytes, depth: nat)
    requires head in {PLUS, MINUS, COLON, UNDERSCORE, HASH} && OneLine(text) && depth <= MAX_DEPTH
    ensures ReadResponse([head] + text + CRLF + rest, depth) == Ok(Taken(head != MINUS, rest))
  {
    ReadFramed([head] + text, rest, depth);
  }

  lemma TooDeep(s: Bytes, depth: nat)
    requires depth > MAX_DEPTH
    ensures ReadResponse(s, depth) == Err(BadReply)
  {}

  /** The reader, exactly: whatever value is sent, nested no deeper than the limit, one call takes it
      off the stream, all of it and nothing else, and reports success just when no error stands
      anywhere in it. Nested deeper it is refused. */
  lemma {:induction false} ReadValue(v: Value, rest: Bytes, depth: nat)
    requires Sound(v)
    ensures ReadResponse(EncodeValue(v) + rest, depth) ==
            if depth + Height(v) <= MAX_DEPTH then Ok(Taken(Succeeds(v), rest)) else Err(BadReply)
    decreases v
  {
    hide ReadResponse, EncodeBulk, ReadElements, Decimal, SignedDecimal;
    if depth > MAX_DEPTH {
      TooDeep(EncodeValue(v) + rest, depth);
    } else {
      match v
      case Line(head, text) => ReadLineValue(head, text, rest, depth);
      case Data(bytes) => ReadBulkReply(bytes, rest, depth);
      case Null(head, number) => ReadNull(head, number, rest, depth);
      case Aggregate(head, values) =>
        var count := if head == PERCENT then |values| / 2 else |values|;
        Associate([head] + Decimal(count) + CRLF, EncodeValues(values), rest);
        ReadCounted(head, count, EncodeValues(values) + rest, depth);
        ReadValues(values, rest, depth + 1, true);
    }
  }

  lemma {:induction false} ReadValues(values: seq<Value>, rest: Bytes, depth: nat, success: bool)
    requires AllSound(values)
    ensures ReadElements(EncodeValues(values) + rest, |values|, depth, success) ==
            if values == [] || depth - 1 + Heights(values) <= MAX_DEPTH
            then Ok(Taken(success && AllSucceed(values), rest)) else Err(BadReply)
    decreases values
  {
    hide ReadResponse;
    if values == [] {
      assert EncodeValues(values) + rest == rest;
    } else {
      var tail := EncodeValues(values[1..]) + rest;
      assert EncodeValues(values) + rest == EncodeValue(values[0]) + tail;
      ReadValue(values[0], tail, depth);
      ReadValues(values[1..], rest, depth, Succeeds(values[0]) && success);
    }
  }
}
