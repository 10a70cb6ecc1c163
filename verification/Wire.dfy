/** The wire format: base-128 varints, little-endian words and length-delimited payloads,
    as functions on byte sequences. A parser either fails or yields a value and the bytes
    that follow it. */
module Wire {
  type byte = b: int | 0 <= b < 0x100

  datatype Option<+T> = None | Some(value: T)

  datatype Parsed<+T> = Fail | Ok(value: T, rest: seq<byte>)

  const TWO32: int := 0x1_0000_0000
  const TWO63: int := 0x8000_0000_0000_0000
  const TWO64: int := 0x1_0000_0000_0000_0000

  // Wire types of section "Message Structure" of the Encoding guide.
  const WT_VARINT: nat := 0
  const WT_64BIT: nat := 1
  const WT_STRING: nat := 2
  const WT_32BIT: nat := 5

  //
  // Varints
  //

  /** The canonical base-128 form: seven bits a byte, least significant first. */
  function VarintBytes(v: nat): (s: seq<byte>)
    ensures |s| >= 1
  {
    if v < 128 then [v] else [128 + v % 128] + VarintBytes(v / 128)
  }

  function TagBytes(tag: nat, wt: nat): (s: seq<byte>)
    ensures |s| >= 1
  {
    VarintBytes(8 * tag + wt)
  }

  /** A length prefix and its payload */
  function Delimited(p: seq<byte>): (s: seq<byte>)
    ensures |s| > |p|
  {
    VarintBytes(|p|) + p
  }

  /** A base-128 number of any length, up to its first byte below 128. */
  function RawVarint(s: seq<byte>): (r: Parsed<nat>)
    ensures r.Ok? ==> |r.rest| < |s|
  {
    if s == [] then Fail
    else if s[0] < 128 then Ok(s[0], s[1..])
    else match RawVarint(s[1..])
      case Fail => Fail
      case Ok(v, rest) => Ok(s[0] - 128 + 128 * v, rest)
  }

  /** A varint of 64 bits: at most ten bytes, and a value below 2^64. */
  function Varint64(s: seq<byte>): (r: Parsed<nat>)
    ensures r.Ok? ==> r.value < TWO64 && |r.rest| < |s|
  {
    match RawVarint(s)
    case Fail => Fail
    case Ok(v, rest) => if |s| - |rest| <= 10 && v < TWO64 then Ok(v, rest) else Fail
  }

  /** Is bit 31 of the base-128 number in s set? */
  predicate Bit31(s: seq<byte>)
    requires |s| >= 5
  {
    s[4] / 8 % 2 == 1
  }

  /** The test of the 32-bit decoder on the n bytes of a varint: bits 32 to 34 are all clear, or
      set together with bit 31; and every later byte either adds nothing or, after a set bit 31,
      adds only ones. It lets more numbers through than 32-bit ones and their sign extensions. */
  predicate Narrow(s: seq<byte>, n: nat)
    requires n <= |s|
  {
    && (n >= 5 ==> s[4] / 16 % 8 == 0 || s[4] / 8 % 16 == 15)
    && forall i :: 5 <= i < n ==> s[i] % 128 == 0 || (Bit31(s) && s[i] == if i < 9 then 0xFF else 1)
  }

  /** A varint of 32 bits. */
  function Varint32(s: seq<byte>): (r: Parsed<nat>)
    ensures r.Ok? ==> r.value < TWO32 && |r.rest| < |s|
  {
    match RawVarint(s)
    case Fail => Fail
    case Ok(v, rest) =>
      var n := |s| - |rest|;
      if n <= 10 && Narrow(s, n) then Ok(v % TWO32, rest) else Fail
  }

  /** The i-th group of seven bits of v. */
  function Digit(v: nat, i: nat): nat {
    if i == 0 then v % 128 else Digit(v / 128, i - 1)
  }

  function Pow128(k: nat): nat {
    if k == 0 then 1 else 128 * Pow128(k - 1)
  }

  lemma {:induction false} Pow128Positive(k: nat)
    ensures Pow128(k) >= 1
  {
    if k > 0 { Pow128Positive(k - 1); }
  }

  lemma {:induction false} VarintBytesLen(v: nat, k: nat)
    requires k >= 1
    ensures |VarintBytes(v)| <= k <==> v < Pow128(k)
  {
    if k == 1 {
      if v >= 128 { assert |VarintBytes(v / 128)| >= 1; }
      assert Pow128(1) == 128 * Pow128(0);
    } else if v < 128 {
      Pow128Positive(k - 1);
    } else {
      VarintBytesLen(v / 128, k - 1);
    }
  }

  /** A longer form never stands for a smaller number. */
  lemma {:induction false} VarintBytesMono(a: nat, b: nat)
    requires a <= b
    ensures |VarintBytes(a)| <= |VarintBytes(b)|
  {
    if a >= 128 { VarintBytesMono(a / 128, b / 128); }
  }

  lemma RawCons(b: byte, s: seq<byte>)
    requires b >= 128 && RawVarint(s).Ok?
    ensures RawVarint([b] + s) == Ok(b - 128 + 128 * RawVarint(s).value, RawVarint(s).rest)
  {
    var t := [b] + s;
    assert t[0] == b && t[1..] == s;
  }

  /** Reading back the canonical form. */
  lemma {:induction false} RawOfBytes(v: nat, t: seq<byte>)
    ensures RawVarint(VarintBytes(v) + t) == Ok(v, t)
  {
    if v < 128 {
      assert (VarintBytes(v) + t)[1..] == t;
    } else {
      RawOfBytes(v / 128, t);
      RawCons(128 + v % 128, VarintBytes(v / 128) + t);
      assert VarintBytes(v) + t == [128 + v % 128] + (VarintBytes(v / 128) + t);
    }
  }

  /** The bytes of a varint are the digits of its value, and all but the last continue. */
  lemma {:induction false} RawDigits(s: seq<byte>, i: nat)
    requires RawVarint(s).Ok?
    requires i < |s| - |RawVarint(s).rest|
    ensures s[i] % 128 == Digit(RawVarint(s).value, i)
    ensures s[i] >= 128 <==> i < |s| - |RawVarint(s).rest| - 1
  {
    if s[0] >= 128 && i > 0 {
      RawDigits(s[1..], i - 1);
      assert s[1..][i - 1] == s[i];
      var v := RawVarint(s[1..]).value;
      assert (s[0] - 128 + 128 * v) / 128 == v;
    }
  }

  lemma Varint64OfBytes(v: nat, t: seq<byte>)
    requires v < TWO64
    ensures Varint64(VarintBytes(v) + t) == Ok(v, t)
    ensures |VarintBytes(v)| <= 10
  {
    RawOfBytes(v, t);
    VarintBytesLen(v, 10);
    assert Pow128(10) == 128 * 128 * 128 * 128 * 128 * 128 * 128 * 128 * 128 * 128;
  }
}
