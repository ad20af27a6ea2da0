/** The replies of the server. */
module RespReplies {
  import opened ByteStrings
  import opened RespCodec
  import opened RespParser

  datatype Version = Resp2 | Resp3

  /** What a handler can answer. A greeting carries the six pairs it is made of. */
  datatype Reply =
    | Simple(text: Bytes)
    | Refusal(text: Bytes)
    | Integer(number: Int64)
    | Present(value: Bytes)
    | Absent(version: Version)
    | Listing(values: seq<Bytes>)
    | Greeting(version: Version, pairs: seq<Bytes>)

  const PLUS: byte := 43
  const COLON: byte := 58
  const UNDERSCORE: byte := 95
  const HASH: byte := 35
  const PERCENT: byte := 37
  const SPACE: byte := 32

  /** Text that is to stand on one line. */
  function Sanitized(text: Bytes): Bytes {
    if text == [] then []
    else [if text[0] == CR || text[0] == LF then SPACE else text[0]] + Sanitized(text[1..])
  }

  /** `std::to_string` of a `long long`. */
  function SignedDecimal(v: Int64): Bytes {
    var n: int := v;
    if n < 0 then [MINUS] + Decimal(-n) else Decimal(n)
  }

  /** The six pairs of a HELLO reply. */
  function GreetingValues(version: Version): (r: seq<Bytes>)
    ensures |r| == 12 && AllShort(r)
  {
    [Text("server"), Text("radish"), Text("version"), Text("0.1"),
     Text("proto"), Text(if version.Resp3? then "3" else "2"),
     Text("mode"), Text("standalone"), Text("role"), Text("master"), Text("modules"), Text("")]
  }

  /** A greeting names the version it is made in, and nothing else in it depends on that. */
  lemma GreetingNamesVersion()
    ensures GreetingValues(Resp2)[4] == Text("proto")
    ensures GreetingValues(Resp2)[5] == Text("2") && GreetingValues(Resp3)[5] == Text("3")
    ensures GreetingValues(Resp3) == GreetingValues(Resp2)[5 := Text("3")]
  {}

  /** The pairs of a RESP3 map; the last value is an empty array. */
  function EncodePairs(values: seq<Bytes>): Bytes {
    if |values| != 12 then []
    else EncodeBulks(values[..10]) + (EncodeBulk(values[10]) + ([STAR] + Decimal(0) + CRLF))
  }

  function EncodeMap(values: seq<Bytes>): Bytes {
    [PERCENT] + Decimal(6) + CRLF + EncodePairs(values)
  }

  function EncodeReply(r: Reply): Bytes {
    match r
    case Simple(text) => [PLUS] + Sanitized(text) + CRLF
    case Refusal(text) => [MINUS, 69, 82, 82, SPACE] + Sanitized(text) + CRLF
    case Integer(number) => [COLON] + SignedDecimal(number) + CRLF
    case Present(value) => EncodeBulk(value)
    case Absent(Resp3) => [UNDERSCORE] + CRLF
    case Absent(Resp2) => [DOLLAR] + SignedDecimal(-1) + CRLF
    case Listing(values) => Encode(values)
    case Greeting(Resp2, pairs) => Encode(pairs)
    case Greeting(Resp3, pairs) => EncodeMap(pairs)
  }

  /** Sanitised text stands on one line, and differs from the text in nothing else. */
  lemma {:induction false} SanitizedText(text: Bytes)
    ensures |Sanitized(text)| == |text|
    ensures forall i :: 0 <= i < |text| ==>
              Sanitized(text)[i] == if text[i] == CR || text[i] == LF then SPACE else text[i]
  {
    if text != [] {
      SanitizedText(text[1..]);
    }
  }

  method SanitizeSimpleValue(text: Bytes) returns (result: Bytes)
    ensures result == Sanitized(text)
  {
    result := [];
    SanitizedText(text);
    for i := 0 to |text|
      invariant result == Sanitized(text)[..i]
    {
      result := result + [if text[i] == CR || text[i] == LF then SPACE else text[i]];
    }
  }

  lemma EncodeTake(values: seq<Bytes>, n: nat)
    requires n < |values|
    ensures EncodeBulks(values[..n + 1]) == EncodeBulks(values[..n]) + EncodeBulk(values[n])
  {
    EncodeBulksSnoc(values[..n], values[n]);
    assert values[..n + 1] == values[..n] + [values[n]];
  }

  /** The loop that writes all pairs but the last. */
  method WritePairs(values: seq<Bytes>) returns (pairs: Bytes)
    requires |values| == 12
    ensures pairs == EncodeBulks(values[..10])
  {
    hide EncodeBulk;
    pairs := [];
    var index := 0;
    while index < |values| - 2
      invariant 0 <= index <= 10 && index % 2 == 0
      invariant pairs == EncodeBulks(values[..index])
    {
      EncodeTake(values, index);
      EncodeTake(values, index + 1);
      pairs := pairs + EncodeBulk(values[index]);
      pairs := pairs + EncodeBulk(values[index + 1]);
      index := index + 2;
    }
  }

  method WriteMap(values: seq<Bytes>) returns (result: Bytes)
    requires |values| == 12
    ensures result == EncodeMap(values)
  {
    var pairs := WritePairs(values);
    result := [PERCENT] + Decimal(6) + CRLF + (pairs + (EncodeBulk(values[10]) + ([STAR] + Decimal(0) + CRLF)));
  }

  method Hello(version: Version) returns (result: Bytes)
    ensures result == EncodeReply(Greeting(version, GreetingValues(version)))
  {
    hide EncodeMap, Encode, Text;
    if version.Resp2? {
      result := EncodeCommand(GreetingValues(version));
    } else {
      result := WriteMap(GreetingValues(version));
    }
  }
}
