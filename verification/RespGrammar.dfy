/** Requests told by what they are made of: whole ones, unfinished ones and wrong ones; and that the
    parser tells them apart exactly. */
module RespGrammar {
  import opened ByteStrings
  import opened RespCodec

  // ----- What there is -----

  /** Digits, with a minus or without, that write an integer of 64 bits. */
  predicate Spells(text: Bytes, v: int) {
    && -TWO_63 <= v < TWO_63
    && ((text != [] && AllDigits(text) && v == DecimalValue(text))
        || (|text| > 1 && text[0] == MINUS && AllDigits(text[1..]) && v == -(DecimalValue(text[1..]) as int)))
  }

  predicate NoCrlf(s: Bytes) {
    forall i :: 0 <= i < |s| ==> !CrlfAt(s, i)
  }

  /** A bulk string as it was spelled. */
  datatype Spelled = Spelled(length: Bytes, data: Bytes)

  function BulkBytes(b: Spelled): Bytes {
    [DOLLAR] + b.length + CRLF + b.data + CRLF
  }

  predicate WholeBulk(b: Spelled) {
    |b.data| <= MAX_BULK && Spells(b.length, |b.data|)
  }

  function BulksBytes(bs: seq<Spelled>): Bytes {
    if bs == [] then [] else BulkBytes(bs[0]) + BulksBytes(bs[1..])
  }

  predicate WholeBulks(bs: seq<Spelled>) {
    forall i :: 0 <= i < |bs| ==> WholeBulk(bs[i])
  }

  function Datas(bs: seq<Spelled>): seq<Bytes> {
    if bs == [] then [] else [bs[0].data] + Datas(bs[1..])
  }

  /** A legal length and what stands behind it. */
  predicate Announces(p: Bytes, length: Bytes, n: nat, data: Bytes) {
    p == [DOLLAR] + length + CRLF + data && Spells(length, n) && n <= MAX_BULK
  }

  /** The beginning of a bulk string: nothing, an open length line, or too little behind the line. */
  ghost predicate PartOfBulk(p: Bytes) {
    || p == []
    || (p[0] == DOLLAR && NoCrlf(p[1..]))
    || (exists length, n: nat, data :: Announces(p, length, n, data) && |data| < n + 2)
  }

  /** What no bulk string begins with, and what is said of it. */
  ghost predicate NoBulk(p: Bytes, e: ProtocolError) {
    match e
    case ExpectedBulk => p != [] && p[0] != DOLLAR
    case InvalidLength =>
      exists line, rest :: p == [DOLLAR] + line + CRLF + rest && NoCrlf(line)
                           && forall n :: Spells(line, n) ==> n < 0 || n > MAX_BULK
    case InvalidTerminator =>
      exists length, n: nat, data :: Announces(p, length, n, data) && |data| >= n + 2 && data[n..n + 2] != CRLF
    case _ => false
  }

  /** A legal count line, `bs` behind it, and then `p`. */
  predicate Begins(x: Bytes, count: Bytes, n: nat, bs: seq<Spelled>, p: Bytes) {
    && x == [STAR] + count + CRLF + (BulksBytes(bs) + p)
    && Spells(count, n) && 1 <= n <= MAX_ARGUMENTS && WholeBulks(bs) && |bs| <= n
  }

  /** A whole request for `arguments`, and `rest` behind it. */
  ghost predicate WholeRequest(x: Bytes, arguments: seq<Bytes>, rest: Bytes) {
    exists count, n: nat, bs :: Begins(x, count, n, bs, rest) && |bs| == n && Datas(bs) == arguments
  }

  /** Nothing, an open count line, or fewer bulk strings than announced and a part of the next. */
  ghost predicate UnfinishedRequest(x: Bytes) {
    || x == []
    || (x[0] == STAR && NoCrlf(x[1..]))
    || (exists count, n: nat, bs, p :: Begins(x, count, n, bs, p) && |bs| < n && PartOfBulk(p))
  }

  /** The first element that is wrong, and what is said of it. */
  ghost predicate WrongRequest(x: Bytes, e: ProtocolError) {
    match e
    case ExpectedArray => x != [] && x[0] != STAR
    case InvalidCount =>
      exists line, rest :: x == [STAR] + line + CRLF + rest && NoCrlf(line)
                           && forall n :: Spells(line, n) ==> n < 1 || n > MAX_ARGUMENTS
    case _ => exists count, n: nat, bs, p :: Begins(x, count, n, bs, p) && |bs| < n && NoBulk(p, e)
  }

  // ----- Numbers -----

  lemma FromCharsExact(text: Bytes, v: Int64)
    ensures FromChars(text) == Some(v) <==> Spells(text, v)
  {}

  lemma SpelledHasNoCrlf(text: Bytes, v: int)
    requires Spells(text, v)
    ensures NoCrlf(text) && text != []
  {
    forall i | 0 <= i < |text|
      ensures !CrlfAt(text, i)
    {
      assert i == 0 || IsDigit(text[i]) by {
        if i > 0 && text[0] == MINUS && !AllDigits(text) {
          assert text[1..][i - 1] == text[i];
        }
      }
    }
  }

  /** A line ends at the first CRLF. */
  lemma LineEnds(line: Bytes, rest: Bytes)
    requires NoCrlf(line)
    ensures FindCrlf(line + CRLF + rest) == Some(|line|)
    ensures (line + CRLF + rest)[..|line|] == line && (line + CRLF + rest)[|line| + 2..] == rest
  {
    var s := line + CRLF + rest;
    forall i | 0 <= i < |line|
      ensures !CrlfAt(s, i)
    {
      assert s[i] == line[i] && (i + 1 < |line| ==> s[i + 1] == line[i + 1]);
      assert i + 1 < |line| ==> !CrlfAt(line, i);
    }
    FindCrlfIs(s, |line|);
  }

  lemma ReadNumberSpelled(line: Bytes, v: int, rest: Bytes)
    requires Spells(line, v)
    ensures ReadNumber(line + CRLF + rest) == Number(v, rest)
  {
    SpelledHasNoCrlf(line, v);
    LineEnds(line, rest);
    FromCharsExact(line, v);
  }

  lemma ReadNumberWrong(line: Bytes, rest: Bytes)
    requires NoCrlf(line) && forall v :: !Spells(line, v)
    ensures ReadNumber(line + CRLF + rest) == NumberError
  {
    LineEnds(line, rest);
    if FromChars(line).Some? {
      FromCharsExact(line, FromChars(line).value);
      assert false;
    }
  }

  lemma ReadNumberOpen(s: Bytes)
    ensures ReadNumber(s).NumberIncomplete? <==> NoCrlf(s)
  {
    FindCrlfFirst(s);
  }

  /** The line a number, or something that is none, was read from. */
  lemma NumberLine(s: Bytes) returns (line: Bytes, rest: Bytes)
    requires !ReadNumber(s).NumberIncomplete?
    ensures s == line + CRLF + rest && NoCrlf(line)
    ensures match ReadNumber(s)
            case Number(v, r) => Spells(line, v) && r == rest
            case _ => forall v :: !Spells(line, v)
  {
    FindCrlfFirst(s);
    var t := FindCrlf(s).value;
    line, rest := s[..t], s[t + 2..];
    forall i | 0 <= i < |line|
      ensures !CrlfAt(line, i)
    {
      assert !CrlfAt(s, i);
      assert i + 1 < |line| ==> line[i] == s[i] && line[i + 1] == s[i + 1];
    }
    forall v: Int64
      ensures FromChars(line) == Some(v) <==> Spells(line, v)
    {
      FromCharsExact(line, v);
    }
  }

  // ----- Bulk strings -----

  lemma Headed(head: byte, line: Bytes, rest: Bytes)
    ensures var p := [head] + line + CRLF + rest; p[0] == head && p[1..] == line + CRLF + rest
  {}

  lemma ReadAnnounced(p: Bytes, length: Bytes, n: nat, data: Bytes)
    requires Announces(p, length, n, data)
    ensures ReadBulk(p) == ReadData(data, n)
  {
    Headed(DOLLAR, length, data);
    ReadNumberSpelled(length, n, data);
  }

  lemma ReadWholeBulk(b: Spelled, rest: Bytes)
    requires WholeBulk(b)
    ensures ReadBulk(BulkBytes(b) + rest) == Bulk(b.data, rest)
  {
    hide ReadBulk, Spells;
    var data := b.data + CRLF + rest;
    assert BulkBytes(b) + rest == [DOLLAR] + b.length + CRLF + data;
    ReadAnnounced(BulkBytes(b) + rest, b.length, |b.data|, data);
    assert data[..|b.data|] == b.data && data[|b.data| + 2..] == rest;
  }

  lemma ReadPartOfBulk(p: Bytes)
    requires PartOfBulk(p)
    ensures ReadBulk(p) == BulkIncomplete
  {
    if p != [] {
      if p[0] == DOLLAR && NoCrlf(p[1..]) {
        ReadNumberOpen(p[1..]);
      } else {
        var length, n: nat, data :| Announces(p, length, n, data) && |data| < n + 2;
        ReadAnnounced(p, length, n, data);
      }
    }
  }

  /** A line that is no number from `low` to `high`. */
  lemma ReadOutside(line: Bytes, rest: Bytes, low: int, high: int)
    requires NoCrlf(line) && forall n :: Spells(line, n) ==> n < low || n > high
    ensures match ReadNumber(line + CRLF + rest)
            case Number(n, _) => n < low || n > high
            case NumberError => true
            case NumberIncomplete => false
  {
    hide Spells, ReadNumber;
    if n :| Spells(line, n) {
      ReadNumberSpelled(line, n, rest);
    } else {
      ReadNumberWrong(line, rest);
    }
  }

  lemma ReadUnterminated(data: Bytes, n: nat)
    requires |data| >= n + 2 && data[n..n + 2] != CRLF
    ensures ReadData(data, n) == BulkError(InvalidTerminator)
  {
    assert data[n..n + 2] == [data[n], data[n + 1]];
  }

  lemma ReadNoBulk(p: Bytes, e: ProtocolError)
    requires NoBulk(p, e)
    ensures ReadBulk(p) == BulkError(e)
  {
    hide Spells, ReadNumber, Announces, ReadData, NoCrlf;
    match e
    case ExpectedBulk =>
    case InvalidLength =>
      var line, rest :| p == [DOLLAR] + line + CRLF + rest && NoCrlf(line)
                        && forall n :: Spells(line, n) ==> n < 0 || n > MAX_BULK;
      Headed(DOLLAR, line, rest);
      ReadOutside(line, rest, 0, MAX_BULK);
    case InvalidTerminator =>
      var length, n: nat, data :| Announces(p, length, n, data) && |data| >= n + 2 && data[n..n + 2] != CRLF;
      ReadAnnounced(p, length, n, data);
      ReadUnterminated(data, n);
  }

  /** What the bytes were made of, if they were read as a bulk string, a part of one or none. */
  lemma BulkIs(p: Bytes) returns (b: Spelled, rest: Bytes)
    ensures match ReadBulk(p)
            case Bulk(argument, r) => WholeBulk(b) && b.data == argument && r == rest && p == BulkBytes(b) + rest
            case BulkIncomplete => PartOfBulk(p)
            case BulkError(e) => NoBulk(p, e)
  {
    b, rest := Spelled([], []), [];
    if p != [] && p[0] == DOLLAR {
      ReadNumberOpen(p[1..]);
      if !NoCrlf(p[1..]) {
        var line, data := NumberLine(p[1..]);
        assert p == [DOLLAR] + line + CRLF + data;
        match ReadNumber(p[1..])
        case NumberError =>
        case Number(n, _) =>
          SpellsOne(line, n);
          if 0 <= n <= MAX_BULK {
            b, rest := AnnouncedIs(p, line, n, data);
          }
      }
    }
  }

  lemma SpellsOne(line: Bytes, v: int)
    requires Spells(line, v)
    ensures forall w :: Spells(line, w) ==> w == v
  {}

  lemma AnnouncedIs(p: Bytes, line: Bytes, n: nat, data: Bytes) returns (b: Spelled, rest: Bytes)
    requires Announces(p, line, n, data)
    ensures match ReadBulk(p)
            case Bulk(argument, r) => WholeBulk(b) && b.data == argument && r == rest && p == BulkBytes(b) + rest
            case BulkIncomplete => PartOfBulk(p)
            case BulkError(e) => NoBulk(p, e)
  {
    hide ReadBulk, Spells;
    ReadAnnounced(p, line, n, data);
    b, rest := Spelled([], []), [];
    if |data| >= n + 2 {
      assert data[n..n + 2] == [data[n], data[n + 1]];
      if data[n..n + 2] == CRLF {
        b, rest := Spelled(line, data[..n]), data[n + 2..];
        assert data == data[..n] + CRLF + rest;
        assert p == BulkBytes(b) + rest;
      }
    }
  }

  // ----- Arguments -----

  lemma {:induction false} ReadWholeBulks(bs: seq<Spelled>, p: Bytes, count: nat, found: seq<Bytes>)
    requires WholeBulks(bs) && |bs| <= count
    ensures ReadArguments(BulksBytes(bs) + p, count, found) == ReadArguments(p, count - |bs|, found + Datas(bs))
  {
    hide ReadBulk, BulkBytes, WholeBulk;
    if bs == [] {
      assert BulksBytes(bs) + p == p && found + Datas(bs) == found;
    } else {
      var tail := BulksBytes(bs[1..]) + p;
      assert BulksBytes(bs) + p == BulkBytes(bs[0]) + tail;
      ReadWholeBulk(bs[0], tail);
      ReadWholeBulks(bs[1..], p, count - 1, found + [bs[0].data]);
      assert found + [bs[0].data] + Datas(bs[1..]) == found + Datas(bs);
    }
  }

  /** Whole bulk strings, as many as there are, and what comes then. */
  lemma {:induction false} ArgumentsAre(s: Bytes, count: nat, found: seq<Bytes>)
    returns (bs: seq<Spelled>, p: Bytes)
    ensures s == BulksBytes(bs) + p && WholeBulks(bs) && |bs| <= count
    ensures match ReadArguments(s, count, found)
            case Arguments(arguments, rest) => |bs| == count && arguments == found + Datas(bs) && rest == p
            case ArgumentsIncomplete => |bs| < count && PartOfBulk(p)
            case ArgumentsError(e) => |bs| < count && NoBulk(p, e)
    decreases count
  {
    hide ReadBulk, BulkBytes, WholeBulk, PartOfBulk, NoBulk;
    bs, p := [], s;
    assert BulksBytes([]) + s == s && found + Datas([]) == found;
    if count > 0 {
      var b, rest := BulkIs(s);
      assert ReadArguments(s, count, found) == ReadFurther(ReadBulk(s), count - 1, found);
      if ReadBulk(s).Bulk? {
        assert ReadFurther(ReadBulk(s), count - 1, found) == ReadArguments(rest, count - 1, found + [b.data]);
        var more: seq<Spelled>;
        more, p := ArgumentsAre(rest, count - 1, found + [b.data]);
        bs := [b] + more;
        assert bs[1..] == more;
        assert Datas(bs) == [b.data] + Datas(more);
        assert found + [b.data] + Datas(more) == found + Datas(bs);
        assert BulkBytes(b) + (BulksBytes(more) + p) == BulksBytes(bs) + p;
      }
    }
  }

  // ----- Requests -----

  lemma ParseBegun(x: Bytes, count: Bytes, n: nat, bs: seq<Spelled>, p: Bytes)
    requires Begins(x, count, n, bs, p)
    ensures Parse(x) == match ReadArguments(p, n - |bs|, Datas(bs))
                        case ArgumentsIncomplete => Incomplete
                        case ArgumentsError(e) => Error(e)
                        case Arguments(arguments, rest) => Complete(arguments, |x| - |rest|)
  {
    hide Spells, ReadArguments, ReadNumber, BulksBytes;
    Headed(STAR, count, BulksBytes(bs) + p);
    ReadNumberSpelled(count, n, BulksBytes(bs) + p);
    ReadWholeBulks(bs, p, n, []);
    assert [] + Datas(bs) == Datas(bs);
  }

  lemma ParseWhole(x: Bytes, arguments: seq<Bytes>, rest: Bytes)
    requires WholeRequest(x, arguments, rest)
    ensures Parse(x) == Complete(arguments, |x| - |rest|)
  {
    hide Begins, Parse;
    var count, n: nat, bs :| Begins(x, count, n, bs, rest) && |bs| == n && Datas(bs) == arguments;
    ParseBegun(x, count, n, bs, rest);
  }

  lemma ParseUnfinished(x: Bytes)
    requires UnfinishedRequest(x)
    ensures Parse(x) == Incomplete
  {
    hide Begins, PartOfBulk;
    if x != [] {
      if x[0] == STAR && NoCrlf(x[1..]) {
        ReadNumberOpen(x[1..]);
      } else {
        var count, n: nat, bs, p :| Begins(x, count, n, bs, p) && |bs| < n && PartOfBulk(p);
        ParseBegun(x, count, n, bs, p);
        ReadPartOfBulk(p);
      }
    }
  }

  lemma ParseWrong(x: Bytes, e: ProtocolError)
    requires WrongRequest(x, e)
    ensures Parse(x) == Error(e)
  {
    hide Begins, NoBulk, Spells, ReadNumber, NoCrlf;
    match e
    case ExpectedArray =>
    case InvalidCount =>
      var line, rest :| x == [STAR] + line + CRLF + rest && NoCrlf(line)
                        && forall n :: Spells(line, n) ==> n < 1 || n > MAX_ARGUMENTS;
      Headed(STAR, line, rest);
      ReadOutside(line, rest, 1, MAX_ARGUMENTS);
    case _ =>
      var count, n: nat, bs, p :| Begins(x, count, n, bs, p) && |bs| < n && NoBulk(p, e);
      ParseBegun(x, count, n, bs, p);
      ReadNoBulk(p, e);
  }

  lemma NoBulks(rest: Bytes)
    ensures BulksBytes([]) + rest == rest && Datas([]) == []
  {}

  /** What stands behind a legal count. */
  lemma BegunIs(x: Bytes, line: Bytes, n: nat, rest: Bytes)
    requires x == [STAR] + line + CRLF + rest && Spells(line, n) && 1 <= n <= MAX_ARGUMENTS
    ensures match Parse(x)
            case Complete(arguments, consumed) => 0 <= consumed <= |x| && WholeRequest(x, arguments, x[consumed..])
            case Incomplete => UnfinishedRequest(x)
            case Error(e) => WrongRequest(x, e)
  {
    hide Spells, Parse, BulksBytes, NoBulk, PartOfBulk, ReadArguments, Datas;
    var bs, p := ArgumentsAre(rest, n, []);
    assert Begins(x, line, n, bs, p);
    NoBulks(rest);
    ParseBegun(x, line, n, [], rest);
    if |bs| == n {
      assert [] + Datas(bs) == Datas(bs);
      assert x == (([STAR] + line + CRLF) + BulksBytes(bs)) + p;
      assert x[|x| - |p|..] == p;
    } else if ReadArguments(rest, n, []).ArgumentsError? {
      WrongBulkIsNotAnArray(p, ReadArguments(rest, n, []).error);
    }
  }

  lemma WrongBulkIsNotAnArray(p: Bytes, e: ProtocolError)
    requires NoBulk(p, e)
    ensures !e.ExpectedArray? && !e.InvalidCount?
  {}

  lemma RequestIs(x: Bytes)
    ensures match Parse(x)
            case Complete(arguments, consumed) => 0 <= consumed <= |x| && WholeRequest(x, arguments, x[consumed..])
            case Incomplete => UnfinishedRequest(x)
            case Error(e) => WrongRequest(x, e)
  {
    hide ReadArguments;
    if x != [] && x[0] == STAR {
      ReadNumberOpen(x[1..]);
      if !NoCrlf(x[1..]) {
        var line, rest := NumberLine(x[1..]);
        assert x == [STAR] + line + CRLF + rest;
        match ReadNumber(x[1..])
        case NumberError =>
        case Number(n, _) =>
          SpellsOne(line, n);
          if 1 <= n <= MAX_ARGUMENTS {
            BegunIs(x, line, n, rest);
          }
      }
    }
  }

  /** The parser, exactly. It waits just for unfinished requests; it complains just of the first
      element that is wrong, and says what it is; and it accepts just whole requests, whatever follows
      them, with their arguments and their length. */
  lemma ParseExact(x: Bytes, e: ProtocolError, arguments: seq<Bytes>, rest: Bytes)
    ensures Parse(x) == Incomplete <==> UnfinishedRequest(x)
    ensures Parse(x) == Error(e) <==> WrongRequest(x, e)
    ensures WholeRequest(x, arguments, rest) <==>
            |rest| <= |x| && Parse(x) == Complete(arguments, |x| - |rest|) && x[|x| - |rest|..] == rest
  {
    hide Parse, WholeRequest, UnfinishedRequest, WrongRequest;
    RequestIs(x);
    if UnfinishedRequest(x) {
      ParseUnfinished(x);
    }
    if WrongRequest(x, e) {
      ParseWrong(x, e);
    }
    if WholeRequest(x, arguments, rest) {
      ParseWhole(x, arguments, rest);
      WholeEnds(x, arguments, rest);
    }
  }

  lemma WholeEnds(x: Bytes, arguments: seq<Bytes>, rest: Bytes)
    requires WholeRequest(x, arguments, rest)
    ensures |rest| <= |x| && x[|x| - |rest|..] == rest
  {
    hide BulksBytes;
    var count, n: nat, bs :| Begins(x, count, n, bs, rest) && |bs| == n && Datas(bs) == arguments;
    assert x == ([STAR] + count + CRLF + BulksBytes(bs)) + rest;
  }
}
