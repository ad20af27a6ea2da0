/** Byte strings, failures, and the little-endian integers of the log format. */
module ByteStrings {

  newtype byte = x: int | 0 <= x < 256

  type Bytes = seq<byte>

  datatype Option<+T> = None | Some(value: T)

  /** The exceptions the modelled code can throw, as values. */
  datatype Failure =
    | RecordTooLarge      // WriteRecord: empty or over 64 MiB
    | StringTooLarge      // BinaryFile: a string over the 32-bit length field
    | BadHeader           // the eight header bytes are missing or different
    | BadRecordLength     // a frame announces 0 or more than 64 MiB
    | BadRecord           // a complete frame does not hold exactly one event
    | ConnectionLost      // the peer closed before the expected bytes arrived
    | BadReply            // the client could not make sense of a reply

  datatype Result<+T> = Ok(value: T) | Err(error: Failure)

  /** Text of the source, taken byte by byte. */
  function Text(s: string): (b: Bytes)
    ensures |b| == |s|
  {
    seq(|s|, i requires 0 <= i < |s| => if s[i] < 128 as char then s[i] as byte else 63)
  }

  lemma Associate(a: Bytes, b: Bytes, c: Bytes)
    ensures a + (b + c) == a + b + c
  {}

  function Concat(parts: seq<Bytes>): Bytes {
    if parts == [] then [] else parts[0] + Concat(parts[1..])
  }

  lemma {:induction false} ConcatAppend(xs: seq<Bytes>, ys: seq<Bytes>)
    ensures Concat(xs + ys) == Concat(xs) + Concat(ys)
  {
    if xs == [] {
      assert xs + ys == ys;
    } else {
      assert (xs + ys)[1..] == xs[1..] + ys;
      ConcatAppend(xs[1..], ys);
    }
  }

  lemma ConcatSnoc(xs: seq<Bytes>, y: Bytes)
    ensures Concat(xs + [y]) == Concat(xs) + y
  {
    ConcatAppend(xs, [y]);
    assert Concat([y]) == y + Concat([]);
  }

  /** 256 to the power `k`. */
  function Radix(k: nat): nat {
    if k == 0 then 1 else 256 * Radix(k - 1)
  }

  /** The `k` low-order bytes of `n`, least significant first. */
  function LittleEndian(n: nat, k: nat): (b: Bytes)
    ensures |b| == k
  {
    if k == 0 then [] else [(n % 256) as byte] + LittleEndian(n / 256, k - 1)
  }

  function FromLittleEndian(b: Bytes): nat {
    if b == [] then 0 else b[0] as nat + 256 * FromLittleEndian(b[1..])
  }

  lemma {:induction false} FromLittleEndianBound(b: Bytes)
    ensures FromLittleEndian(b) < Radix(|b|)
  {
    if b != [] {
      FromLittleEndianBound(b[1..]);
    }
  }

  lemma {:induction false} DecodeEncode(n: nat, k: nat)
    requires n < Radix(k)
    ensures FromLittleEndian(LittleEndian(n, k)) == n
  {
    if k > 0 {
      DecodeEncode(n / 256, k - 1);
      assert LittleEndian(n, k)[1..] == LittleEndian(n / 256, k - 1);
    }
  }

  lemma {:induction false} EncodeDecode(b: Bytes)
    ensures LittleEndian(FromLittleEndian(b), |b|) == b
  {
    if b != [] {
      EncodeDecode(b[1..]);
      assert b == [b[0]] + b[1..];
    }
  }

  lemma DivideTwice(n: nat, r: nat)
    requires r > 0
    ensures n / 256 / r == n / (256 * r)
  {
    var q := n / 256 / r;
    var m, k := n % 256, n / 256 % r;
    assert n == 256 * (r * q + k) + m;
    assert n == (256 * r) * q + (256 * k + m);
    assert 0 <= 256 * k + m < 256 * r;
    Quotient(n, 256 * r, q, 256 * k + m);
  }

  lemma Quotient(n: nat, d: nat, q: nat, k: nat)
    requires n == d * q + k && k < d
    ensures n / d == q
  {
    if n / d < q {
      TimesMore(d, n / d, q);
    } else if q < n / d {
      TimesMore(d, q, n / d);
    }
  }

  lemma {:induction false} TimesMore(d: nat, a: nat, b: nat)
    requires a < b
    ensures d * a + d <= d * b
  {
    assert d * b == d * (b - 1) + d;
    if a + 1 < b {
      TimesMore(d, a, b - 1);
    }
  }

  /** The order of the bytes: byte `i` counts 256 to the power `i`. */
  lemma {:induction false} LittleEndianAt(n: nat, k: nat, i: nat)
    requires i < k
    ensures Radix(i) > 0 && LittleEndian(n, k)[i] as int == n / Radix(i) % 256
    decreases i
  {
    if i > 0 {
      LittleEndianAt(n / 256, k - 1, i - 1);
      DivideTwice(n, Radix(i - 1));
    }
  }

  const TWO_32: nat := 0x1_0000_0000
  const TWO_63: int := 0x8000_0000_0000_0000
  const TWO_64: nat := 0x1_0000_0000_0000_0000

  lemma RadixValues()
    ensures Radix(4) == TWO_32 && Radix(8) == TWO_64
  {
    assert Radix(2) == 65536;
    assert Radix(4) == 65536 * Radix(2);
    assert Radix(6) == 65536 * Radix(4);
  }

  /** `long long`: the width of every timestamp and of every RESP number. */
  type Int64 = x: int | -TWO_63 <= x < TWO_63

  /** Two's complement, eight bytes. */
  function Int64Bytes(x: Int64): (b: Bytes)
    ensures |b| == 8
  {
    LittleEndian(if x < 0 then x + TWO_64 else x, 8)
  }

  function Int64FromBytes(b: Bytes): Int64
    requires |b| == 8
  {
    FromLittleEndianBound(b);
    RadixValues();
    var n := FromLittleEndian(b);
    if n < TWO_63 then n else n - TWO_64
  }

  lemma Int64RoundTrip(x: Int64)
    ensures Int64FromBytes(Int64Bytes(x)) == x
  {
    RadixValues();
    DecodeEncode(if x < 0 then x + TWO_64 else x, 8);
  }

  lemma Int64Canonical(b: Bytes)
    requires |b| == 8
    ensures Int64Bytes(Int64FromBytes(b)) == b
  {
    RadixValues();
    FromLittleEndianBound(b);
    EncodeDecode(b);
  }
}
