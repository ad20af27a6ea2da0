/** The parser and the encoder of requests as the loops over offsets that they are. */
module RespParser {
  import opened ByteStrings
  import opened RespCodec

  datatype NumberStatus = Present | Pending | Malformed

  method ParseNumber(input: Bytes, offset: nat) returns (status: NumberStatus, value: Int64, next: nat)
    requires offset <= |input|
    ensures match ReadNumber(input[offset..])
            case NumberIncomplete => status == Pending
            case NumberError => status == Malformed
            case Number(v, rest) =>
              status == Present && value == v && offset < next <= |input| && input[next..] == rest
  {
    value, next := 0, 0;
    var terminator := FindCrlf(input[offset..]);
    if terminator.None? {
      return Pending, 0, 0;
    }
    if terminator.value == 0 {
      return Malformed, 0, 0;
    }
    var number := FromChars(input[offset..][..terminator.value]);
    if number.None? {
      return Malformed, 0, 0;
    }
    next := offset + terminator.value + 2;
    assert input[next..] == input[offset..][terminator.value + 2..];
    return Present, number.value, next;
  }

  /** The data of a bulk string, all arithmetic kept within the input. */
  method ParseData(input: Bytes, dataOffset: nat, length: nat) returns (r: BulkResult, next: nat)
    requires dataOffset <= |input|
    ensures r == ReadData(input[dataOffset..], length)
    ensures r.Bulk? ==> next <= |input| && r.rest == input[next..]
  {
    if length > |input| - dataOffset || |input| - dataOffset - length < 2 {
      return BulkIncomplete, 0;
    }
    if input[dataOffset + length] != CR || input[dataOffset + length + 1] != LF {
      return BulkError(InvalidTerminator), 0;
    }
    next := dataOffset + length + 2;
    assert input[dataOffset..][length + 2..] == input[next..];
    r := Bulk(input[dataOffset..][..length], input[next..]);
  }

  /** One bulk string at `offset`: its data and the offset behind it. */
  method ParseBulk(input: Bytes, offset: nat) returns (r: BulkResult, next: nat)
    requires offset <= |input|
    ensures r == ReadBulk(input[offset..])
    ensures r.Bulk? ==> next <= |input| && r.rest == input[next..]
  {
    if offset == |input| {
      return BulkIncomplete, 0;
    }
    if input[offset] != DOLLAR {
      return BulkError(ExpectedBulk), 0;
    }
    assert input[offset..][1..] == input[offset + 1..];
    var status, length, dataOffset := ParseNumber(input, offset + 1);
    if status == Pending {
      return BulkIncomplete, 0;
    }
    if status == Malformed || length < 0 || length > MAX_BULK {
      return BulkError(InvalidLength), 0;
    }
    r, next := ParseData(input, dataOffset, length);
  }

  /** The loop over the arguments. */
  method ParseArguments(input: Bytes, start: nat, count: nat) returns (r: ArgumentsResult, end: nat)
    requires start <= |input|
    ensures r == ReadArguments(input[start..], count, [])
    ensures r.Arguments? ==> end <= |input| && r.rest == input[end..]
  {
    hide ReadBulk;
    var arguments: seq<Bytes>, index := [], 0;
    end := start;
    ghost var rest := input[start..];
    ghost var all := ReadArguments(rest, count, []);
    while index < count
      invariant 0 <= index <= count && end <= |input|
      invariant rest == input[end..] && all == ReadArguments(rest, count - index, arguments)
    {
      var bulk, next := ParseBulk(input, end);
      match bulk {
        case BulkIncomplete =>
          return ArgumentsIncomplete, 0;
        case BulkError(error) =>
          return ArgumentsError(error), 0;
        case Bulk(argument, _) =>
          arguments := arguments + [argument];
          end, rest := next, bulk.rest;
      }
      index := index + 1;
    }
    r := Arguments(arguments, input[end..]);
  }

  method ParseCommand(input: Bytes) returns (r: ParseResult)
    ensures r == Parse(input)
  {
    if input == [] {
      return Incomplete;
    }
    if input[0] != STAR {
      return Error(ExpectedArray);
    }
    var status, count, offset := ParseNumber(input, 1);
    if status == Pending {
      return Incomplete;
    }
    if status == Malformed || count <= 0 || count > MAX_ARGUMENTS {
      return Error(InvalidCount);
    }
    var arguments, consumed := ParseArguments(input, offset, count);
    match arguments {
      case ArgumentsIncomplete => return Incomplete;
      case ArgumentsError(error) => return Error(error);
      case Arguments(found, _) => return Complete(found, consumed);
    }
  }

  /** An array of bulk strings: the form of every request and of every array reply. */
  method EncodeCommand(arguments: seq<Bytes>) returns (result: Bytes)
    ensures result == Encode(arguments)
  {
    hide EncodeBulk, Decimal;
    var head := [STAR] + Decimal(|arguments|) + CRLF;
    result := head;
    for i := 0 to |arguments|
      invariant result == head + EncodeBulks(arguments[..i])
    {
      assert arguments[..i + 1] == arguments[..i] + [arguments[i]];
      EncodeBulksSnoc(arguments[..i], arguments[i]);
      result := result + EncodeBulk(arguments[i]);
    }
    assert arguments[..|arguments|] == arguments;
  }
}
