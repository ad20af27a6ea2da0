/** The client side of a connection: reading one reply at a time. */
module RespClient {
  import opened ByteStrings
  import opened RespCodec
  import opened RespReplies

  const MAX_DEPTH: nat := 32

  // ----- std::stoll -----

  predicate IsSpace(b: byte) {
    b == SPACE || 9 <= b <= 13
  }

  function SkipSpaces(s: Bytes): Bytes {
    if s != [] && IsSpace(s[0]) then SkipSpaces(s[1..]) else s
  }

  function LeadingDigits(s: Bytes): (d: Bytes)
    ensures d <= s && AllDigits(d)
  {
    if s != [] && IsDigit(s[0]) then [s[0]] + LeadingDigits(s[1..]) else []
  }

  /** Leading spaces, a sign and at least one digit; what follows the digits is ignored. */
  function ParseLong(s: Bytes): Option<Int64> {
    var t := SkipSpaces(s);
    var negative := t != [] && t[0] == MINUS;
    var digits := LeadingDigits(if negative || (t != [] && t[0] == PLUS) then t[1..] else t);
    if digits == [] then None
    else
      var n: int := if negative then -(DecimalValue(digits) as int) else DecimalValue(digits);
      if -TWO_63 <= n < TWO_63 then Some(n) else None
  }

  lemma {:induction false} LeadingDigitsOfDigits(s: Bytes)
    requires AllDigits(s)
    ensures LeadingDigits(s) == s
  {
    if s != [] {
      LeadingDigitsOfDigits(s[1..]);
    }
  }

  /** Digits, and a minus before digits, are read without looking for spaces or a plus. */
  lemma ParseLongOfDigits(digits: Bytes)
    requires AllDigits(digits) && digits != [] && DecimalValue(digits) <= TWO_63
    ensures DecimalValue(digits) < TWO_63 ==> ParseLong(digits) == Some(DecimalValue(digits))
    ensures ParseLong([MINUS] + digits) == Some(-(DecimalValue(digits) as int))
  {
    hide DecimalValue, LeadingDigits;
    LeadingDigitsOfDigits(digits);
    var s := [MINUS] + digits;
    assert s[1..] == digits;
    NoSpaces(s);
    NoSpaces(digits);
    assert digits[0] != MINUS && digits[0] != PLUS;
    hide SkipSpaces;
  }

  lemma NoSpaces(s: Bytes)
    requires s != [] && !IsSpace(s[0])
    ensures SkipSpaces(s) == s
  {}

  lemma ParseLongOfSigned(v: Int64)
    ensures ParseLong(SignedDecimal(v)) == Some(v)
  {
    var n: int := if v < 0 then -(v as int) else v;
    DecimalRoundTrip(n);
    ParseLongOfDigits(Decimal(n));
  }

  /** What else is read as a number: spaces before it, a plus, and anything that is no digit behind it. */
  lemma {:induction false} ParseLongIsLenient(spaces: Bytes, plus: bool, digits: Bytes, junk: Bytes)
    requires (forall i :: 0 <= i < |spaces| ==> IsSpace(spaces[i])) && (junk == [] || !IsDigit(junk[0]))
    requires AllDigits(digits) && digits != [] && DecimalValue(digits) < TWO_63
    ensures ParseLong(spaces + ((if plus then [PLUS] else []) + (digits + junk))) == Some(DecimalValue(digits))
  {
    hide DecimalValue;
    var number := (if plus then [PLUS] else []) + (digits + junk);
    SkipsSpaces(spaces, number);
    LeadingDigitsBefore(digits, junk);
    if plus {
      assert number[1..] == digits + junk;
    } else {
      assert number == digits + junk && number[0] == digits[0];
    }
  }

  lemma {:induction false} SkipsSpaces(spaces: Bytes, s: Bytes)
    requires (forall i :: 0 <= i < |spaces| ==> IsSpace(spaces[i])) && s != [] && !IsSpace(s[0])
    ensures SkipSpaces(spaces + s) == s
  {
    if spaces == [] {
      assert spaces + s == s;
    } else {
      assert (spaces + s)[1..] == spaces[1..] + s;
      SkipsSpaces(spaces[1..], s);
    }
  }

  lemma {:induction false} LeadingDigitsBefore(digits: Bytes, junk: Bytes)
    requires AllDigits(digits) && (junk == [] || !IsDigit(junk[0]))
    ensures LeadingDigits(digits + junk) == digits
  {
    if digits == [] {
      assert digits + junk == junk;
    } else {
      assert (digits + junk)[1..] == digits[1..] + junk;
      LeadingDigitsBefore(digits[1..], junk);
    }
  }

  // ----- Lines -----

  function FindLf(s: Bytes): (r: Option<nat>)
    ensures r.Some? ==> r.value < |s| && s[r.value] == LF
  {
    if s == [] then None
    else if s[0] == LF then Some(0)
    else
      match FindLf(s[1..])
      case None => None
      case Some(t) => Some(t + 1)
  }

  /** A value read off the front of the stream, and what is left of it. */
  datatype Taken<+T> = Taken(value: T, rest: Bytes)

  /** Waits for a CRLF, then takes everything up to the first LF and drops one byte of it. A line
      that is empty before the drop is beyond what the source defines. */
  function ReadLine(s: Bytes): (r: Result<Taken<Bytes>>)
    ensures r.Ok? ==> |r.value.rest| < |s|
  {
    if FindCrlf(s).None? then Err(ConnectionLost)
    else
      match FindLf(s)
      case None => Err(ConnectionLost)
      case Some(t) => if t == 0 then Err(BadReply) else Ok(Taken(s[..t - 1], s[t + 1..]))
  }

  lemma {:induction false} FindLfBehind(line: Bytes, rest: Bytes)
    requires forall i :: 0 <= i < |line| ==> line[i] != LF
    ensures FindLf(line + [LF] + rest) == Some(|line|)
  {
    if line == [] {
      assert (line + [LF] + rest)[0] == LF;
    } else {
      assert (line + [LF] + rest)[1..] == line[1..] + [LF] + rest;
      FindLfBehind(line[1..], rest);
    }
  }

  predicate OneLine(s: Bytes) {
    forall i :: 0 <= i < |s| ==> s[i] != CR && s[i] != LF
  }

  lemma ReadLineBehind(line: Bytes, rest: Bytes)
    requires OneLine(line)
    ensures ReadLine(line + CRLF + rest) == Ok(Taken(line, rest))
  {
    var s := line + CRLF + rest;
    FindCrlfBehind(line, rest);
    FindLfBehind(line + [CR], rest);
    assert line + [CR] + [LF] + rest == s;
    assert s[..|line|] == line && s[|line| + 2..] == rest;
  }

  /** A line ends at the first LF, which need not be that of the CRLF it was waited for; the byte
      before that LF is dropped whatever it is. */
  lemma ReadLineCutsAtLf(line: Bytes, dropped: byte, rest: Bytes)
    requires (forall i :: 0 <= i < |line| ==> line[i] != LF) && dropped != LF
    ensures var s := line + [dropped] + [LF] + rest;
            ReadLine(s) == if FindCrlf(s).Some? then Ok(Taken(line, rest)) else Err(ConnectionLost)
  {
    var s := line + [dropped] + [LF] + rest;
    FindLfBehind(line + [dropped], rest);
    assert s[..|line|] == line && s[|line| + 2..] == rest;
  }

  // ----- Replies -----

  /** Takes as many elements as announced; an error among them makes the whole reply one. */
  function ReadElements(s: Bytes, count: nat, depth: nat, success: bool): (r: Result<Taken<bool>>)
    ensures r.Ok? ==> |r.value.rest| <= |s|
    decreases |s|, count, 0
  {
    if count == 0 then Ok(Taken(success, s))
    else
      match ReadResponse(s, depth)
      case Err(x) => Err(x)
      case Ok(Taken(element, rest)) => ReadElements(rest, count - 1, depth, element && success)
  }

  /** Reads one reply off the stream; the value says whether it is a success. */
  function ReadResponse(s: Bytes, depth: nat): (r: Result<Taken<bool>>)
    ensures r.Ok? ==> |r.value.rest| < |s|
    decreases |s|, 0, 1
  {
    if depth > MAX_DEPTH then Err(BadReply)
    else
      match ReadLine(s)
      case Err(x) => Err(x)
      case Ok(Taken(line, rest)) => if line == [] then Err(BadReply) else ReadBehind(line, rest, depth)
  }

  function ReadBehind(line: Bytes, rest: Bytes, depth: nat): (r: Result<Taken<bool>>)
    requires line != []
    ensures r.Ok? ==> |r.value.rest| <= |rest|
    decreases |rest| + 1, 0, 0
  {
    if line[0] == MINUS then Ok(Taken(false, rest))
    else if line[0] in {PLUS, COLON, UNDERSCORE, HASH} then Ok(Taken(true, rest))
    else if line[0] == DOLLAR then
      match ParseLong(line[1..])
      case None => Err(BadReply)
      case Some(length) =>
        if length < 0 then Ok(Taken(true, rest))
        else if |rest| < length + 2 then Err(ConnectionLost)
        else Ok(Taken(true, rest[length + 2..]))
    else if line[0] == STAR || line[0] == PERCENT then
      match ParseLong(line[1..])
      case None => Err(BadReply)
      case Some(count) =>
        if count < 0 then Ok(Taken(true, rest))
        else ReadElements(rest, if line[0] == PERCENT then 2 * count else count, depth + 1, true)
    else Err(BadReply)
  }

  /** A client reads `count` replies in a row; each is a success or not. */
  function ReadReplies(s: Bytes, count: nat): Result<Taken<seq<bool>>>
    decreases count
  {
    if count == 0 then Ok(Taken([], s))
    else
      match ReadResponse(s, 0)
      case Err(x) => Err(x)
      case Ok(Taken(success, rest)) =>
        match ReadReplies(rest, count - 1)
        case Err(x) => Err(x)
        case Ok(Taken(more, end)) => Ok(Taken([success] + more, end))
  }

  // ----- Replies are self-delimiting -----

  /** Sizes and counts a `long long` can express. */
  predicate Sendable(r: Reply) {
    match r
    case Present(value) => |value| < TWO_63
    case Listing(values) => |values| < TWO_63 && Countable(values)
    case Greeting(_, pairs) => |pairs| == 12 && AllShort(pairs)
    case _ => true
  }

  lemma ReadFramed(line: Bytes, body: Bytes, depth: nat)
    requires OneLine(line) && line != [] && depth <= MAX_DEPTH
    ensures ReadResponse(line + CRLF + body, depth) == ReadBehind(line, body, depth)
  {
    ReadLineBehind(line, body);
  }

  lemma SignedIsOneLine(head: byte, v: Int64)
    requires head != CR && head != LF
    ensures OneLine([head] + SignedDecimal(v)) && ([head] + SignedDecimal(v))[1..] == SignedDecimal(v)
    ensures v >= 0 ==> SignedDecimal(v) == Decimal(v)
  {}

  lemma SplitData(data: Bytes, rest: Bytes)
    ensures |data + CRLF + rest| >= |data| + 2 && (data + CRLF + rest)[|data| + 2..] == rest
  {}

  lemma ReadBulkReply(value: Bytes, rest: Bytes, depth: nat)
    requires |value| < TWO_63 && depth <= MAX_DEPTH
    ensures ReadResponse(EncodeBulk(value) + rest, depth) == Ok(Taken(true, rest))
  {
    hide ReadLine, Decimal;
    var line, data := [DOLLAR] + Decimal(|value|), value + CRLF + rest;
    assert EncodeBulk(value) + rest == line + CRLF + data;
    SignedIsOneLine(DOLLAR, |value|);
    ReadFramed(line, data, depth);
    ParseLongOfSigned(|value|);
    SplitData(value, rest);
  }

  lemma ReadOneElement(s: Bytes, rest: Bytes, count: nat, depth: nat)
    requires count > 0 && ReadResponse(s, depth) == Ok(Taken(true, rest))
    ensures ReadElements(s, count, depth, true) == ReadElements(rest, count - 1, depth, true)
  {}

  predicate Countable(values: seq<Bytes>) {
    forall i :: 0 <= i < |values| ==> |values[i]| < TWO_63
  }

  lemma ReadFirstBulk(first: Bytes, others: Bytes, count: nat, depth: nat)
    requires |first| < TWO_63 && depth <= MAX_DEPTH && count > 0
    ensures ReadElements(EncodeBulk(first) + others, count, depth, true)
            == ReadElements(others, count - 1, depth, true)
  {
    hide EncodeBulk, ReadResponse;
    ReadBulkReply(first, others, depth);
    ReadOneElement(EncodeBulk(first) + others, others, count, depth);
  }

  lemma {:induction false} ReadBulkReplies(values: seq<Bytes>, s: Bytes, rest: Bytes, more: nat, depth: nat)
    requires depth <= MAX_DEPTH && Countable(values) && s == EncodeBulks(values) + rest
    ensures ReadElements(s, |values| + more, depth, true) == ReadElements(rest, more, depth, true)
  {
    hide EncodeBulk, ReadResponse;
    if values == [] {
      assert s == rest;
    } else {
      var others := EncodeBulks(values[1..]) + rest;
      Associate(EncodeBulk(values[0]), EncodeBulks(values[1..]), rest);
      ReadFirstBulk(values[0], others, |values| + more, depth);
      ReadBulkReplies(values[1..], others, rest, more, depth);
    }
  }

  /** A header line announcing elements is followed by them, one level down. */
  lemma ReadCounted(head: byte, count: nat, body: Bytes, depth: nat)
    requires (head == STAR || head == PERCENT) && count < TWO_63 && depth <= MAX_DEPTH
    ensures ReadResponse([head] + Decimal(count) + CRLF + body, depth)
            == ReadElements(body, if head == PERCENT then 2 * count else count, depth + 1, true)
  {
    hide ReadElements, ReadLine, Decimal;
    SignedIsOneLine(head, count);
    ReadFramed([head] + Decimal(count), body, depth);
    ParseLongOfSigned(count);
  }

  lemma ReadArrayReply(values: seq<Bytes>, rest: Bytes, depth: nat)
    requires depth < MAX_DEPTH && |values| < TWO_63 && Countable(values)
    ensures ReadResponse(Encode(values) + rest, depth) == Ok(Taken(true, rest))
  {
    hide EncodeBulk, ReadResponse;
    var body := EncodeBulks(values) + rest;
    Associate([STAR] + Decimal(|values|) + CRLF, EncodeBulks(values), rest);
    ReadCounted(STAR, |values|, body, depth);
    ReadBulkReplies(values, body, rest, 0, depth + 1);
  }

  /** The last value of the map is an array one level down. */
  lemma ReadMapReply(values: seq<Bytes>, rest: Bytes)
    requires |values| == 12 && AllShort(values)
    ensures ReadResponse(EncodeMap(values) + rest, 0) == Ok(Taken(true, rest))
  {
    hide EncodeBulk, ReadResponse;
    var last := [STAR] + Decimal(0) + CRLF;
    var tail := EncodeBulk(values[10]) + (last + rest);
    var body := EncodeBulks(values[..10]) + tail;
    MapParts([PERCENT] + Decimal(6), EncodeBulks(values[..10]), EncodeBulk(values[10]), last, rest);
    ReadCounted(PERCENT, 6, body, 0);
    ReadBulkReplies(values[..10], body, tail, 2, 1);
    ReadFirstBulk(values[10], last + rest, 2, 1);
    ReadArrayReply([], rest, 1);
    assert Encode([]) == last;
    ReadOneElement(last + rest, rest, 1, 1);
  }

  lemma MapParts(line: Bytes, pairs: Bytes, key: Bytes, last: Bytes, rest: Bytes)
    ensures line + CRLF + (pairs + (key + last)) + rest == line + CRLF + (pairs + (key + (last + rest)))
  {
    assert pairs + (key + last) + rest == pairs + (key + (last + rest));
  }

  lemma ReadLineReply(head: byte, line: Bytes, rest: Bytes)
    requires head in {PLUS, COLON, UNDERSCORE, MINUS} && OneLine(line)
    ensures ReadResponse([head] + line + CRLF + rest, 0) == Ok(Taken(head != MINUS, rest))
  {
    ReadFramed([head] + line, rest, 0);
  }

  lemma ReadAbsent(rest: Bytes)
    ensures ReadResponse(EncodeReply(Absent(Resp2)) + rest, 0) == Ok(Taken(true, rest))
  {
    hide SignedDecimal, ReadLine;
    SignedIsOneLine(DOLLAR, -1);
    ReadFramed([DOLLAR] + SignedDecimal(-1), rest, 0);
    ParseLongOfSigned(-1);
  }

  lemma ReadRefusal(text: Bytes, rest: Bytes)
    ensures ReadResponse(EncodeReply(Refusal(text)) + rest, 0) == Ok(Taken(false, rest))
  {
    hide ReadResponse;
    SanitizedText(text);
    var line: Bytes := [69, 82, 82, SPACE] + Sanitized(text);
    assert [MINUS, 69, 82, 82, SPACE] + Sanitized(text) == [MINUS] + line;
    ReadLineReply(MINUS, line, rest);
  }

  lemma ReadAbsentResp3(rest: Bytes)
    ensures ReadResponse(EncodeReply(Absent(Resp3)) + rest, 0) == Ok(Taken(true, rest))
  {
    hide ReadResponse;
    assert [UNDERSCORE] + [] == [UNDERSCORE];
    ReadLineReply(UNDERSCORE, [], rest);
  }

  /** Whatever the server answers, the client takes exactly that answer off the stream. */
  lemma ReadReply(r: Reply, rest: Bytes)
    requires Sendable(r)
    ensures ReadResponse(EncodeReply(r) + rest, 0) == Ok(Taken(!r.Refusal?, rest))
  {
    match r
    case Simple(text) =>
      SanitizedText(text);
      ReadLineReply(PLUS, Sanitized(text), rest);
    case Refusal(text) => ReadRefusal(text, rest);
    case Integer(number) => ReadLineReply(COLON, SignedDecimal(number), rest);
    case Present(value) => ReadBulkReply(value, rest, 0);
    case Absent(Resp2) => ReadAbsent(rest);
    case Absent(Resp3) => ReadAbsentResp3(rest);
    case Listing(values) => ReadArrayReply(values, rest, 0);
    case Greeting(Resp2, pairs) => ReadArrayReply(pairs, rest, 0);
    case Greeting(Resp3, pairs) => ReadMapReply(pairs, rest);
  }

  lemma IntegerCarries(number: Int64, rest: Bytes)
    ensures var line := [COLON] + SignedDecimal(number);
            ReadLine(EncodeReply(Integer(number)) + rest) == Ok(Taken(line, rest))
            && ParseLong(line[1..]) == Some(number)
  {
    SignedIsOneLine(COLON, number);
    ReadLineBehind([COLON] + SignedDecimal(number), rest);
    ParseLongOfSigned(number);
  }

  lemma TextCarries(text: Bytes, rest: Bytes)
    requires OneLine(text)
    ensures ReadLine(EncodeReply(Simple(text)) + rest) == Ok(Taken([PLUS] + text, rest))
    ensures ReadLine(EncodeReply(Refusal(text)) + rest) == Ok(Taken([MINUS] + Text("ERR ") + text, rest))
  {
    SanitizedText(text);
    assert Sanitized(text) == text;
    assert [MINUS, 69, 82, 82, SPACE] == [MINUS] + Text("ERR ");
    ReadLineBehind([PLUS] + text, rest);
    ReadLineBehind([MINUS] + Text("ERR ") + text, rest);
  }

  lemma AbsentCarries(rest: Bytes)
    ensures ReadLine(EncodeReply(Absent(Resp2)) + rest) == Ok(Taken([DOLLAR, MINUS, 49], rest))
    ensures ReadLine(EncodeReply(Absent(Resp3)) + rest) == Ok(Taken([UNDERSCORE], rest))
  {
    var line: Bytes := [DOLLAR, MINUS, 49];
    assert Decimal(1) == [49];
    assert EncodeReply(Absent(Resp2)) + rest == line + CRLF + rest;
    ReadLineBehind(line, rest);
    ReadLineBehind([UNDERSCORE], rest);
  }

  lemma ListingCarries(values: seq<Bytes>, rest: Bytes)
    requires AllShort(values)
    ensures ReadLine(Encode(values) + rest) == Ok(Taken([STAR] + Decimal(|values|), EncodeBulks(values) + rest))
    ensures ReadArguments(EncodeBulks(values) + rest, |values|, []) == Arguments(values, rest)
  {
    hide ReadLine, ReadArguments, EncodeBulks, Decimal;
    var line := [STAR] + Decimal(|values|);
    assert Encode(values) + rest == line + CRLF + (EncodeBulks(values) + rest);
    assert OneLine(line);
    ReadLineBehind(line, EncodeBulks(values) + rest);
    ReadArgumentsOfEncoded(values, rest, []);
    assert [] + values == values;
  }

  lemma MapCarries(pairs: seq<Bytes>, rest: Bytes)
    requires |pairs| == 12 && AllShort(pairs)
    ensures var last := [STAR, 48] + CRLF + rest; var body := EncodeBulks(pairs[..11]) + last;
            && ReadLine(EncodeMap(pairs) + rest) == Ok(Taken([PERCENT, 54], body))
            && ReadArguments(body, 11, []) == Arguments(pairs[..11], last)
  {
    hide ReadLine, ReadArguments, EncodeBulk;
    var last := [STAR, 48] + CRLF + rest;
    var body := EncodeBulks(pairs[..11]) + last;
    assert Decimal(6) == [54] && Decimal(0) == [48];
    EncodeTake(pairs, 10);
    MapParts([PERCENT] + Decimal(6), EncodeBulks(pairs[..10]), EncodeBulk(pairs[10]),
             [STAR] + Decimal(0) + CRLF, rest);
    Associate(EncodeBulks(pairs[..10]), EncodeBulk(pairs[10]), last);
    assert [STAR] + Decimal(0) + CRLF + rest == last;
    assert [PERCENT] + Decimal(6) == [PERCENT, 54];
    assert EncodeMap(pairs) + rest == [PERCENT, 54] + CRLF + body;
    ReadLineBehind([PERCENT, 54], body);
    ReadArgumentsOfEncoded(pairs[..11], last, []);
    assert [] + pairs[..11] == pairs[..11];
  }

  /** `s` is the reply `r`, with `rest` behind it. */
  predicate Carries(r: Reply, s: Bytes, rest: Bytes)
    requires r.Greeting? ==> |r.pairs| == 12
  {
    match r
    case Simple(text) => ReadLine(s) == Ok(Taken([PLUS] + text, rest))
    case Refusal(text) => ReadLine(s) == Ok(Taken([MINUS] + Text("ERR ") + text, rest))
    case Integer(number) =>
      ReadLine(s).Ok? && ReadLine(s).value.rest == rest && ReadLine(s).value.value != []
      && ReadLine(s).value.value[0] == COLON
      && ParseLong(ReadLine(s).value.value[1..]) == Some(number)
    case Present(value) => ReadBulk(s) == Bulk(value, rest)
    case Absent(version) =>
      ReadLine(s) == Ok(Taken(if version.Resp2? then [DOLLAR, MINUS, 49] else [UNDERSCORE], rest))
    case Listing(values) =>
      && ReadLine(s) == Ok(Taken([STAR] + Decimal(|values|), EncodeBulks(values) + rest))
      && ReadArguments(EncodeBulks(values) + rest, |values|, []) == Arguments(values, rest)
      && (Encodable(values) ==> Parse(s) == Complete(values, |s| - |rest|))
    case Greeting(version, pairs) =>
      var last := [STAR, 48] + CRLF + rest; var body := EncodeBulks(pairs[..11]) + last;
      if version.Resp2? then Parse(s) == Complete(pairs, |s| - |rest|)
      else ReadLine(s) == Ok(Taken([PERCENT, 54], body))
           && ReadArguments(body, 11, []) == Arguments(pairs[..11], last)
  }

  /** A reply carries its content: an integer reads as that number, a text that stands on one line as
      that text, a bulk string as those bytes, an array of any length as those values, an absent value
      as the null of its protocol version, and a greeting as its pairs: an array under RESP2, under
      RESP3 a map of six whose last value is an empty array. */
  lemma ReplyCarries(r: Reply, rest: Bytes)
    requires r.Present? ==> |r.value| <= MAX_BULK
    requires r.Listing? ==> AllShort(r.values)
    requires r.Greeting? ==> |r.pairs| == 12 && AllShort(r.pairs)
    requires r.Simple? || r.Refusal? ==> OneLine(r.text)
    ensures Carries(r, EncodeReply(r) + rest, rest)
  {
    hide ReadLine, ReadBulk, Parse, EncodeBulk, Encode, EncodeMap, ParseLong, ReadArguments, EncodeBulks;
    match r
    case Simple(text) => TextCarries(text, rest);
    case Refusal(text) => TextCarries(text, rest);
    case Integer(number) => IntegerCarries(number, rest);
    case Present(value) => ReadBulkOfEncoded(value, rest);
    case Absent(_) => AbsentCarries(rest);
    case Listing(values) =>
      ListingCarries(values, rest);
      if Encodable(values) {
        ParseOfEncoded(values, rest);
      }
    case Greeting(version, pairs) =>
      if version.Resp2? {
        ParseOfEncoded(pairs, rest);
      } else {
        MapCarries(pairs, rest);
      }
  }

  /** A reply a client of the given protocol version understands. */
  predicate Speaks(r: Reply, version: Version) {
    (r.Absent? || r.Greeting?) ==> r.version == version
  }

  /** RESP2 has five types: nothing else begins a reply under it. Under RESP3 an absent value and a
      greeting do begin with a type of their own. */
  lemma TypeOfReply(r: Reply)
    requires r.Greeting? ==> |r.pairs| == 12
    ensures EncodeReply(r) != []
    ensures Speaks(r, Resp2) ==> EncodeReply(r)[0] in {PLUS, MINUS, COLON, DOLLAR, STAR}
    ensures r == Absent(Resp3) ==> EncodeReply(r)[0] == UNDERSCORE
    ensures r.Greeting? && r.version.Resp3? ==> EncodeReply(r)[0] == PERCENT
  {}

  function EncodeReplies(rs: seq<Reply>): Bytes {
    if rs == [] then [] else EncodeReply(rs[0]) + EncodeReplies(rs[1..])
  }

  function Successes(rs: seq<Reply>): seq<bool> {
    if rs == [] then [] else [!rs[0].Refusal?] + Successes(rs[1..])
  }

  /** Replies are self-delimiting: one call of the reader a reply, and nothing left over. */
  lemma {:induction false} ReadConcatenatedReplies(rs: seq<Reply>, rest: Bytes)
    requires forall i :: 0 <= i < |rs| ==> Sendable(rs[i])
    ensures ReadReplies(EncodeReplies(rs) + rest, |rs|) == Ok(Taken(Successes(rs), rest))
  {
    if rs == [] {
      assert EncodeReplies(rs) + rest == rest;
    } else {
      var tail := EncodeReplies(rs[1..]) + rest;
      assert EncodeReplies(rs) + rest == EncodeReply(rs[0]) + tail;
      ReadReply(rs[0], tail);
      ReadConcatenatedReplies(rs[1..], rest);
    }
  }

  // ----- The connection -----

  /** The unread bytes of a connection, those still on their way included. */
  class RespConnection {
    var buffer: Bytes

    constructor (buffer: Bytes)
      ensures this.buffer == buffer
    {
      this.buffer := buffer;
    }

    method TakeLine() returns (r: Result<Bytes>)
      modifies this
      ensures match ReadLine(old(buffer))
              case Ok(taken) => r == Ok(taken.value) && buffer == taken.rest
              case Err(x) => r == Err(x)
    {
      if FindCrlf(buffer).None? {
        return Err(ConnectionLost);
      }
      var end := FindLf(buffer);
      if end.None? {
        return Err(ConnectionLost);
      }
      if end.value == 0 {
        return Err(BadReply);
      }
      r, buffer := Ok(buffer[..end.value - 1]), buffer[end.value + 1..];
    }

    method ConsumeBytes(size: nat) returns (r: Result<()>)
      modifies this
      ensures r == if size <= |old(buffer)| then Ok(()) else Err(ConnectionLost)
      ensures r.Ok? ==> buffer == old(buffer)[size..]
    {
      if |buffer| < size {
        return Err(ConnectionLost);
      }
      buffer := buffer[size..];
      r := Ok(());
    }

    method TakeResponse(depth: nat) returns (r: Result<bool>)
      modifies this
      ensures match ReadResponse(old(buffer), depth)
              case Ok(taken) => r == Ok(taken.value) && buffer == taken.rest
              case Err(x) => r == Err(x)
      decreases |buffer|, 0
    {
      if depth > MAX_DEPTH {
        return Err(BadReply);
      }
      var taken := TakeLine();
      if taken.Err? {
        return Err(taken.error);
      }
      var line := taken.value;
      if line == [] {
        return Err(BadReply);
      }
      if line[0] == MINUS {
        return Ok(false);
      }
      if line[0] == PLUS || line[0] == COLON || line[0] == UNDERSCORE || line[0] == HASH {
        return Ok(true);
      }
      if line[0] != DOLLAR && line[0] != STAR && line[0] != PERCENT {
        return Err(BadReply);
      }
      var number := ParseLong(line[1..]);
      if number.None? {
        return Err(BadReply);
      }
      if number.value < 0 {
        return Ok(true);
      }
      if line[0] == DOLLAR {
        var consumed := ConsumeBytes(number.value as int + 2);
        return if consumed.Ok? then Ok(true) else Err(consumed.error);
      }
      var count: int := number.value;
      r := TakeElements(if line[0] == PERCENT then 2 * count else count, depth + 1);
    }

    method TakeElements(elements: nat, depth: nat) returns (r: Result<bool>)
      modifies this
      ensures match ReadElements(old(buffer), elements, depth, true)
              case Ok(taken) => r == Ok(taken.value) && buffer == taken.rest
              case Err(x) => r == Err(x)
      decreases |buffer|, 1
    {
      var success, index := true, 0;
      ghost var all := ReadElements(buffer, elements, depth, true);
      while index < elements
        invariant 0 <= index <= elements && |buffer| <= |old(buffer)|
        invariant all == ReadElements(buffer, elements - index, depth, success)
      {
        var element := TakeResponse(depth);
        if element.Err? {
          return Err(element.error);
        }
        success := element.value && success;
        index := index + 1;
      }
      r := Ok(success);
    }
  }
}
