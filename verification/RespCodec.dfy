/** Requests of the Redis serialization protocol: the incremental parser and the encoder. */
module RespCodec {
  import opened ByteStrings

  const MAX_ARGUMENTS: nat := 1024
  const MAX_BULK: nat := 4 * 1024 * 1024
  const MAX_INPUT: nat := 8 * 1024 * 1024

  const CR: byte := 13
  const LF: byte := 10
  const STAR: byte := 42
  const DOLLAR: byte := 36
  const MINUS: byte := 45
  const CRLF: Bytes := [CR, LF]

  // ----- Numbers -----

  predicate IsDigit(b: byte) {
    48 <= b <= 57
  }

  predicate AllDigits(s: Bytes) {
    forall i :: 0 <= i < |s| ==> IsDigit(s[i])
  }

  function DecimalValue(s: Bytes): nat
    requires AllDigits(s)
  {
    if s == [] then 0
    else 10 * DecimalValue(s[..|s| - 1]) + (s[|s| - 1] as nat - 48)
  }

  /** `std::to_string` of a natural number. */
  function Decimal(n: nat): (d: Bytes)
    ensures |d| >= 1 && AllDigits(d)
  {
    if n < 10 then [(48 + n) as byte] else Decimal(n / 10) + [(48 + n % 10) as byte]
  }

  lemma {:induction false} DecimalRoundTrip(n: nat)
    ensures DecimalValue(Decimal(n)) == n
  {
    if n >= 10 {
      DecimalRoundTrip(n / 10);
      assert Decimal(n)[..|Decimal(n)| - 1] == Decimal(n / 10);
    } else {
      assert Decimal(n)[..0] == [];
    }
  }

  lemma {:induction false} DecimalIsShortest(s: Bytes)
    requires AllDigits(s) && s != []
    ensures |Decimal(DecimalValue(s))| <= |s|
  {
    var n := |s| - 1;
    if n > 0 {
      DecimalIsShortest(s[..n]);
    } else {
      assert DecimalValue(s[..0]) == 0;
    }
  }

  /** `std::from_chars` into a `long long`, all characters used: an optional minus, then digits,
      leading zeros allowed, no plus, no overflow. */
  function FromChars(s: Bytes): Option<Int64> {
    var negative := s != [] && s[0] == MINUS;
    var digits := if negative then s[1..] else s;
    if digits == [] || !AllDigits(digits) then None
    else
      var n: int := if negative then -(DecimalValue(digits) as int) else DecimalValue(digits);
      if -TWO_63 <= n < TWO_63 then Some(n) else None
  }

  lemma FromCharsDecimal(n: nat)
    requires n < TWO_63
    ensures FromChars(Decimal(n)) == Some(n)
  {
    DecimalRoundTrip(n);
    assert Decimal(n)[0] != MINUS;
  }

  lemma FromCharsIsLonger(s: Bytes)
    requires FromChars(s).Some? && FromChars(s).value >= 0
    ensures |Decimal(FromChars(s).value)| <= |s|
  {
    if s[0] == MINUS {
      assert FromChars(s).value == 0;
    } else {
      DecimalIsShortest(s);
    }
  }

  // ----- Lines -----

  predicate CrlfAt(s: Bytes, i: int) {
    0 <= i < |s| - 1 && s[i] == CR && s[i + 1] == LF
  }

  /** The index of the first CRLF at or behind `from`. */
  function FindFrom(s: Bytes, from: nat): (r: Option<nat>)
    ensures r.Some? ==> CrlfAt(s, r.value)
    decreases |s| - from
  {
    if from + 1 >= |s| then None
    else if CrlfAt(s, from) then Some(from)
    else FindFrom(s, from + 1)
  }

  function FindCrlf(s: Bytes): Option<nat> {
    FindFrom(s, 0)
  }

  lemma {:induction false} FindFromFirst(s: Bytes, from: nat)
    ensures forall i :: from <= i && CrlfAt(s, i) ==> FindFrom(s, from).Some? && FindFrom(s, from).value <= i
    decreases |s| - from
  {
    if from + 1 < |s| && !CrlfAt(s, from) {
      FindFromFirst(s, from + 1);
    }
  }

  lemma FindCrlfFirst(s: Bytes)
    ensures forall i :: CrlfAt(s, i) ==> FindCrlf(s).Some? && FindCrlf(s).value <= i
  {
    FindFromFirst(s, 0);
  }

  lemma FindCrlfIs(s: Bytes, t: nat)
    requires CrlfAt(s, t) && forall i :: 0 <= i < t ==> !CrlfAt(s, i)
    ensures FindCrlf(s) == Some(t)
  {
    FindCrlfFirst(s);
  }

  lemma FindCrlfStable(x: Bytes, y: Bytes)
    requires FindCrlf(x).Some?
    ensures FindCrlf(x + y) == FindCrlf(x)
  {
    FindCrlfFirst(x);
    var t := FindCrlf(x).value;
    assert forall i :: 0 <= i < t ==> !CrlfAt(x, i);
    assert forall i :: 0 <= i <= t ==> (CrlfAt(x + y, i) <==> CrlfAt(x, i));
    FindCrlfIs(x + y, t);
  }

  lemma FindCrlfBehind(line: Bytes, rest: Bytes)
    requires forall i :: 0 <= i < |line| ==> line[i] != CR
    ensures FindCrlf(line + CRLF + rest) == Some(|line|)
    ensures (line + CRLF + rest)[..|line|] == line && (line + CRLF + rest)[|line| + 2..] == rest
  {
    var s := line + CRLF + rest;
    assert forall i :: 0 <= i < |line| ==> s[i] == line[i];
    FindCrlfIs(s, |line|);
  }

  datatype Number = Number(value: Int64, rest: Bytes) | NumberIncomplete | NumberError

  /** A number and the CRLF behind it. */
  function ReadNumber(s: Bytes): (r: Number)
  {
    match FindCrlf(s)
    case None => NumberIncomplete
    case Some(t) =>
      if t == 0 then NumberError
      else
        match FromChars(s[..t])
        case None => NumberError
        case Some(v) => Number(v, s[t + 2..])
  }

  lemma ReadNumberStable(x: Bytes, y: Bytes)
    requires !ReadNumber(x).NumberIncomplete?
    ensures ReadNumber(x + y) == NumberBefore(ReadNumber(x), y)
  {
    FindCrlfStable(x, y);
    var t := FindCrlf(x).value;
    assert (x + y)[..t] == x[..t];
    assert (x + y)[t + 2..] == x[t + 2..] + y;
  }

  lemma ReadNumberOfDecimal(n: nat, rest: Bytes)
    requires n < TWO_63
    ensures ReadNumber(Decimal(n) + CRLF + rest) == Number(n, rest)
  {
    FindCrlfBehind(Decimal(n), rest);
    FromCharsDecimal(n);
  }

  // ----- Requests -----

  /** The five complaints of the parser, and the one of a session whose input buffer is full. */
  datatype ProtocolError =
    | ExpectedArray
    | InvalidCount
    | ExpectedBulk
    | InvalidLength
    | InvalidTerminator
    | InputLimitExceeded

  function Message(e: ProtocolError): Bytes {
    match e
    case ExpectedArray => Text("Protocol error: expected an array request")
    case InvalidCount => Text("Protocol error: invalid argument count")
    case ExpectedBulk => Text("Protocol error: expected a bulk string")
    case InvalidLength => Text("Protocol error: invalid bulk string length")
    case InvalidTerminator => Text("Protocol error: invalid bulk string terminator")
    case InputLimitExceeded => Text("Protocol error: input buffer limit exceeded")
  }

  /** No two complaints read the same: their lengths differ, or else their first different bytes. */
  lemma MessagesDiffer(e: ProtocolError, f: ProtocolError)
    ensures Message(e) == Message(f) ==> e == f
  {
    if |Message(e)| == |Message(f)| && e != f {
      assert Message(e)[24] != Message(f)[24];
    }
  }

  datatype ParseResult =
    | Complete(arguments: seq<Bytes>, consumed: int)
    | Incomplete
    | Error(error: ProtocolError)

  datatype BulkResult = Bulk(argument: Bytes, rest: Bytes) | BulkIncomplete | BulkError(error: ProtocolError)

  /** The data of a bulk string of known length, and the CRLF behind it. */
  function ReadData(s: Bytes, length: nat): (r: BulkResult)
  {
    if |s| < length || |s| - length < 2 then BulkIncomplete
    else if s[length] != CR || s[length + 1] != LF then BulkError(InvalidTerminator)
    else Bulk(s[..length], s[length + 2..])
  }

  function ReadBulk(s: Bytes): (r: BulkResult)
  {
    if s == [] then BulkIncomplete
    else if s[0] != DOLLAR then BulkError(ExpectedBulk)
    else
      match ReadNumber(s[1..])
      case NumberIncomplete => BulkIncomplete
      case NumberError => BulkError(InvalidLength)
      case Number(length, rest) =>
        if length < 0 || length > MAX_BULK then BulkError(InvalidLength) else ReadData(rest, length)
  }

  datatype ArgumentsResult =
    | Arguments(arguments: seq<Bytes>, rest: Bytes)
    | ArgumentsIncomplete
    | ArgumentsError(error: ProtocolError)

  /** `count` more arguments behind those already found. */
  function ReadArguments(s: Bytes, count: nat, found: seq<Bytes>): (r: ArgumentsResult)
    decreases count, 1
  {
    if count == 0 then Arguments(found, s) else ReadFurther(ReadBulk(s), count - 1, found)
  }

  function ReadFurther(next: BulkResult, count: nat, found: seq<Bytes>): (r: ArgumentsResult)
    decreases count, 2
  {
    match next
    case BulkIncomplete => ArgumentsIncomplete
    case BulkError(error) => ArgumentsError(error)
    case Bulk(argument, rest) => ReadArguments(rest, count, found + [argument])
  }

  /** The verdict on the input received so far. */
  function Parse(input: Bytes): ParseResult {
    if input == [] then Incomplete
    else if input[0] != STAR then Error(ExpectedArray)
    else ParseBehind(|input|, ReadNumber(input[1..]))
  }

  /** What stands behind the count of a request of `size` bytes. */
  function ParseBehind(size: nat, count: Number): ParseResult
  {
    match count
    case NumberIncomplete => Incomplete
    case NumberError => Error(InvalidCount)
    case Number(count, rest) =>
      if count <= 0 || count > MAX_ARGUMENTS then Error(InvalidCount)
      else
        match ReadArguments(rest, count, [])
        case ArgumentsIncomplete => Incomplete
        case ArgumentsError(error) => Error(error)
        case Arguments(arguments, end) => Complete(arguments, size - |end|)
  }

  function EncodeBulk(s: Bytes): Bytes {
    [DOLLAR] + Decimal(|s|) + CRLF + s + CRLF
  }

  function EncodeBulks(xs: seq<Bytes>): Bytes {
    if xs == [] then [] else EncodeBulk(xs[0]) + EncodeBulks(xs[1..])
  }

  function Encode(arguments: seq<Bytes>): Bytes {
    [STAR] + Decimal(|arguments|) + CRLF + EncodeBulks(arguments)
  }

  // ----- What is left -----

  /** A parser step leaves a proper end of its input, after at least as many bytes as the shortest
      spelling of what it read. */
  lemma ReadNumberLeaves(s: Bytes)
    requires ReadNumber(s).Number?
    ensures ReadNumber(s).value >= 0 ==>
            |Decimal(ReadNumber(s).value)| + 2 + |ReadNumber(s).rest| <= |s|
    ensures |ReadNumber(s).rest| < |s|
  {
    var t := FindCrlf(s).value;
    if ReadNumber(s).value >= 0 {
      FromCharsIsLonger(s[..t]);
    }
  }

  lemma ReadBulkLeaves(s: Bytes)
    requires ReadBulk(s).Bulk?
    ensures var r := ReadBulk(s);
            |r.argument| <= MAX_BULK && |EncodeBulk(r.argument)| + |r.rest| <= |s|
  {
    ReadNumberLeaves(s[1..]);
  }

  predicate AllShort(arguments: seq<Bytes>) {
    forall i :: 0 <= i < |arguments| ==> |arguments[i]| <= MAX_BULK
  }

  lemma EncodeBulksSnoc(xs: seq<Bytes>, x: Bytes)
    ensures EncodeBulks(xs + [x]) == EncodeBulks(xs) + EncodeBulk(x)
  {
    EncodeBulksAppend(xs, [x]);
    assert EncodeBulks([x]) == EncodeBulk(x) + EncodeBulks([]);
  }

  lemma {:induction false} EncodeBulksAppend(xs: seq<Bytes>, ys: seq<Bytes>)
    ensures EncodeBulks(xs + ys) == EncodeBulks(xs) + EncodeBulks(ys)
  {
    if xs == [] {
      assert xs + ys == ys;
    } else {
      assert (xs + ys)[1..] == xs[1..] + ys;
      EncodeBulksAppend(xs[1..], ys);
    }
  }

  lemma {:induction false} ReadArgumentsLeaves(s: Bytes, count: nat, found: seq<Bytes>)
    requires ReadArguments(s, count, found).Arguments? && AllShort(found)
    ensures var r := ReadArguments(s, count, found);
            && |r.arguments| == |found| + count && AllShort(r.arguments)
            && |EncodeBulks(r.arguments)| + |r.rest| <= |EncodeBulks(found)| + |s|
    decreases count, 1
  {
    hide ReadBulk, EncodeBulk;
    if count > 0 {
      ReadBulkLeaves(s);
      ReadFurtherLeaves(ReadBulk(s), count - 1, found);
    }
  }

  lemma {:induction false} ReadFurtherLeaves(next: BulkResult, count: nat, found: seq<Bytes>)
    requires ReadFurther(next, count, found).Arguments? && AllShort(found) && |next.argument| <= MAX_BULK
    ensures var r := ReadFurther(next, count, found);
            && |r.arguments| == |found| + count + 1 && AllShort(r.arguments)
            && |EncodeBulks(r.arguments)| + |r.rest|
               <= |EncodeBulks(found)| + |EncodeBulk(next.argument)| + |next.rest|
    decreases count, 2
  {
    EncodeBulksSnoc(found, next.argument);
    ReadArgumentsLeaves(next.rest, count, found + [next.argument]);
  }

  /** Arguments a request can carry. */
  predicate Encodable(arguments: seq<Bytes>) {
    1 <= |arguments| <= MAX_ARGUMENTS && AllShort(arguments)
  }

  /** Normalisation: an accepted request consumes a positive number of the bytes there are, and
      re-encoding its arguments never takes more. */
  lemma ParseLeaves(input: Bytes)
    requires Parse(input).Complete?
    ensures var r := Parse(input);
            Encodable(r.arguments) && 0 < |Encode(r.arguments)| <= r.consumed <= |input|
  {
    ReadNumberLeaves(input[1..]);
    var n := ReadNumber(input[1..]);
    ReadArgumentsLeaves(n.rest, n.value, []);
  }

  lemma ParseConsumes(input: Bytes)
    requires Parse(input).Complete?
    ensures 0 < Parse(input).consumed <= |input|
  {
    ParseLeaves(input);
  }

  // ----- Stability -----

  lemma ReadDataStable(x: Bytes, y: Bytes, length: nat)
    requires !ReadData(x, length).BulkIncomplete?
    ensures ReadData(x + y, length) == BulkBefore(ReadData(x, length), y)
  {
    assert (x + y)[..length] == x[..length];
    assert (x + y)[length + 2..] == x[length + 2..] + y;
  }

  lemma ReadBulkStable(x: Bytes, y: Bytes)
    requires !ReadBulk(x).BulkIncomplete?
    ensures ReadBulk(x + y) == BulkBefore(ReadBulk(x), y)
  {
    if x[0] == DOLLAR {
      assert (x + y)[1..] == x[1..] + y;
      ReadNumberStable(x[1..], y);
      match ReadNumber(x[1..])
      case Number(length, rest) =>
        if 0 <= length <= MAX_BULK {
          ReadDataStable(rest, y, length);
        }
      case _ =>
    }
  }

  /** A result with `y` behind what it leaves. */
  function BulkBefore(r: BulkResult, y: Bytes): BulkResult {
    match r
    case Bulk(argument, rest) => Bulk(argument, rest + y)
    case other => other
  }

  function ArgumentsBefore(r: ArgumentsResult, y: Bytes): ArgumentsResult {
    match r
    case Arguments(arguments, rest) => Arguments(arguments, rest + y)
    case other => other
  }

  function NumberBefore(r: Number, y: Bytes): Number {
    match r
    case Number(v, rest) => Number(v, rest + y)
    case other => other
  }

  lemma {:induction false} ReadArgumentsStable(x: Bytes, y: Bytes, count: nat, found: seq<Bytes>)
    requires !ReadArguments(x, count, found).ArgumentsIncomplete?
    ensures ReadArguments(x + y, count, found) == ArgumentsBefore(ReadArguments(x, count, found), y)
    decreases count, 1
  {
    hide ReadBulk;
    if count > 0 {
      ReadBulkStable(x, y);
      ReadFurtherStable(ReadBulk(x), y, count - 1, found);
    }
  }

  lemma {:induction false} ReadFurtherStable(next: BulkResult, y: Bytes, count: nat, found: seq<Bytes>)
    requires !ReadFurther(next, count, found).ArgumentsIncomplete?
    ensures ReadFurther(BulkBefore(next, y), count, found) == ArgumentsBefore(ReadFurther(next, count, found), y)
    decreases count, 2
  {
    if next.Bulk? {
      ReadArgumentsStable(next.rest, y, count, found + [next.argument]);
    }
  }

  lemma ParseBehindStable(size: nat, count: Number, y: Bytes)
    requires (count.Number? ==> |count.rest| <= size) && !ParseBehind(size, count).Incomplete?
    ensures ParseBehind(size + |y|, NumberBefore(count, y)) == ParseBehind(size, count)
  {
    if count.Number? && 0 < count.value <= MAX_ARGUMENTS {
      ReadArgumentsStable(count.rest, y, count.value, []);
    }
  }

  /** Once the parser has a verdict, no further byte changes it. */
  lemma ParseStable(x: Bytes, y: Bytes)
    requires !Parse(x).Incomplete?
    ensures Parse(x + y) == Parse(x)
  {
    if x[0] == STAR {
      assert (x + y)[1..] == x[1..] + y;
      ReadNumberStable(x[1..], y);
      ParseBehindStable(|x|, ReadNumber(x[1..]), y);
    }
  }

  /** Hence every strict prefix of an accepted request is incomplete. */
  lemma StrictPrefixIsIncomplete(x: Bytes, p: Bytes)
    requires Parse(x).Complete? && Parse(x).consumed == |x| && p < x
    ensures Parse(p) == Incomplete
  {
    if !Parse(p).Incomplete? {
      ParseStable(p, x[|p|..]);
      assert p + x[|p|..] == x;
      ParseLeaves(p);
    }
  }

  // ----- Round trip -----

  lemma ReadBulkOfEncoded(s: Bytes, rest: Bytes)
    requires |s| <= MAX_BULK
    ensures ReadBulk(EncodeBulk(s) + rest) == Bulk(s, rest)
  {
    var data := s + CRLF + rest;
    assert (EncodeBulk(s) + rest)[1..] == Decimal(|s|) + CRLF + data;
    ReadNumberOfDecimal(|s|, data);
    assert data[..|s|] == s && data[|s| + 2..] == rest;
  }

  lemma {:induction false} ReadArgumentsOfEncoded(arguments: seq<Bytes>, rest: Bytes, found: seq<Bytes>)
    requires AllShort(arguments)
    ensures ReadArguments(EncodeBulks(arguments) + rest, |arguments|, found)
            == Arguments(found + arguments, rest)
  {
    hide ReadBulk, EncodeBulk;
    if arguments == [] {
      assert EncodeBulks(arguments) + rest == rest;
      assert found + arguments == found;
    } else {
      var tail := EncodeBulks(arguments[1..]) + rest;
      assert EncodeBulks(arguments) + rest == EncodeBulk(arguments[0]) + tail;
      ReadBulkOfEncoded(arguments[0], tail);
      ReadArgumentsOfEncoded(arguments[1..], rest, found + [arguments[0]]);
      assert found + [arguments[0]] + arguments[1..] == found + arguments;
    }
  }

  lemma EncodedParts(arguments: seq<Bytes>, rest: Bytes)
    ensures var s := Encode(arguments) + rest;
            s[0] == STAR && s[1..] == Decimal(|arguments|) + CRLF + (EncodeBulks(arguments) + rest)
  {
    HeadCut(STAR, Decimal(|arguments|), CRLF, EncodeBulks(arguments), rest);
  }

  lemma HeadCut(head: byte, a: Bytes, b: Bytes, c: Bytes, rest: Bytes)
    ensures var s := [head] + a + b + c + rest; s[0] == head && s[1..] == a + b + (c + rest)
  {
    assert [head] + a + b + c + rest == [head] + (a + b + (c + rest));
  }

  lemma ParseParts(request: Bytes, arguments: seq<Bytes>, tail: Bytes, rest: Bytes)
    requires Encodable(arguments)
    requires var s := request + rest;
             s != [] && s[0] == STAR && s[1..] == Decimal(|arguments|) + CRLF + tail
    requires ReadArguments(tail, |arguments|, []) == Arguments(arguments, rest)
    ensures Parse(request + rest) == Complete(arguments, |request|)
  {
    ReadNumberOfDecimal(|arguments|, tail);
  }

  /** Parsing an encoded command gives its arguments back, whatever follows it. */
  lemma ParseOfEncoded(arguments: seq<Bytes>, rest: Bytes)
    requires Encodable(arguments)
    ensures Parse(Encode(arguments) + rest) == Complete(arguments, |Encode(arguments)|)
  {
    EncodedParts(arguments, rest);
    ReadArgumentsOfEncoded(arguments, rest, []);
    assert [] + arguments == arguments;
    ParseParts(Encode(arguments), arguments, EncodeBulks(arguments) + rest, rest);
  }

  /** Normalisation, the other half: what an accepted request re-encodes to is accepted with the
      same arguments. */
  lemma NormalForm(input: Bytes)
    requires Parse(input).Complete?
    ensures var arguments := Parse(input).arguments;
            Parse(Encode(arguments)) == Complete(arguments, |Encode(arguments)|)
  {
    ParseLeaves(input);
    var arguments := Parse(input).arguments;
    ParseOfEncoded(arguments, []);
    assert Encode(arguments) + [] == Encode(arguments);
  }
}
