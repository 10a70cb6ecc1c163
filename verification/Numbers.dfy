/** How one number of a given kind and C size travels on the wire. */
module Numbers {
  import opened Wire
  import opened Schema
  import Varints

  //
  // Zigzag
  //

  function Zigzag(n: int): nat {
    if n < 0 then -2 * n - 1 else 2 * n
  }

  function UnZigzag(v: nat): int {
    if v % 2 == 1 then -1 - v / 2 else v / 2
  }

  /** Zigzag maps the int64 values one to one onto the uint64 values. */
  lemma ZigzagBijection(n: int, v: nat)
    ensures -TWO63 <= n < TWO63 <==> Zigzag(n) < TWO64
    ensures UnZigzag(Zigzag(n)) == n
    ensures Zigzag(UnZigzag(v)) == v
  {
  }

  //
  // Two's complement
  //

  /** (uint64_t)n */
  function Unsigned64(n: int): nat
    requires -TWO63 <= n < TWO63
  {
    if n < 0 then n + TWO64 else n
  }

  /** (int64_t)v */
  function Signed64(v: nat): int
    requires v < TWO64
  {
    if v >= TWO63 then v - TWO64 else v
  }

  /** (int32_t)v: only the low 32 bits count. */
  function Signed32(v: nat): int {
    if v % TWO32 >= 0x8000_0000 then v % TWO32 - TWO32 else v % TWO32
  }

  //
  // Little-endian words
  //

  function LEBytes(v: nat, k: nat): (s: seq<byte>)
    ensures |s| == k
  {
    if k == 0 then [] else [v % 256] + LEBytes(v / 256, k - 1)
  }

  function FromLE(s: seq<byte>): nat {
    if s == [] then 0 else s[0] + 256 * FromLE(s[1..])
  }

  function Pow256(k: nat): nat {
    if k == 0 then 1 else 256 * Pow256(k - 1)
  }

  lemma {:induction false} FromLEOfBytes(v: nat, k: nat)
    requires v < Pow256(k)
    ensures FromLE(LEBytes(v, k)) == v
  {
    if k > 0 { FromLEOfBytes(v / 256, k - 1); }
  }

  lemma {:induction false} FromLEBound(s: seq<byte>)
    ensures FromLE(s) < Pow256(|s|)
  {
    if s != [] { FromLEBound(s[1..]); }
  }

  lemma Pow256Values()
    ensures Pow256(4) == TWO32 && Pow256(8) == TWO64
  {
    assert Pow256(4) == 256 * 256 * 256 * 256;
    assert Pow256(8) == 256 * 256 * 256 * 256 * Pow256(4);
  }

  function Take(s: seq<byte>, n: nat): (r: Parsed<seq<byte>>)
    ensures r.Ok? ==> s == r.value + r.rest && |r.value| == n
  {
    if |s| < n then Fail else Ok(s[..n], s[n..])
  }

  //
  // Numbers
  //

  /** pb_enc_bool, pb_enc_varint and pb_enc_fixed */
  function EncodeNum(k: Kind, size: nat, n: int): (s: seq<byte>)
    requires InRange(k, size, n)
    ensures |s| >= 1
  {
    match k
    case Bool => VarintBytes(n)
    case UVarint => VarintBytes(n)
    case Varint => VarintBytes(Unsigned64(n))
    case SVarint => VarintBytes(Zigzag(n))
    case Fixed32 => LEBytes(n, 4)
    case Fixed64 => LEBytes(n, 8)
  }

  lemma NumLength(k: Kind, size: nat, n: int)
    requires InRange(k, size, n)
    ensures var len := |EncodeNum(k, size, n)|;
            && len <= 10
            && (k.Fixed32? ==> len == 4) && (k.Fixed64? ==> len == 8)
  {
    if !k.Fixed32? && !k.Fixed64? {
      Varint64OfBytes(if k.SVarint? then Zigzag(n) else if k.Varint? then Unsigned64(n) else n, []);
    }
  }

  /** The cast to the field's size, with the check that it lost nothing. */
  function Narrowed(k: Kind, size: nat, n: int, rest: seq<byte>): (r: Parsed<int>)
    ensures r.Ok? ==> r == Ok(n, rest) && InRange(k, size, n)
  {
    if InRange(k, size, n) then Ok(n, rest) else Fail
  }

  /** pb_dec_bool, pb_dec_varint, pb_decode_fixed32 and pb_decode_fixed64 */
  function DecodeNum(k: Kind, size: nat, s: seq<byte>): (r: Parsed<int>)
    requires Packable(k) && ValidKind(k, size)
    ensures r.Ok? ==> |r.rest| < |s| && InRange(k, size, r.value)
  {
    match k
    case Bool =>
      (match Varint32(s)
       case Fail => Fail
       case Ok(v, rest) => Ok(if v != 0 then 1 else 0, rest))
    case UVarint =>
      (match Varint64(s)
       case Fail => Fail
       case Ok(v, rest) => if v < 2 * HalfRange(size) then Ok(v, rest) else Fail)
    case Varint =>
      (match Varint64(s)
       case Fail => Fail
       case Ok(v, rest) => Narrowed(k, size, if size == 8 then Signed64(v) else Signed32(v), rest))
    case SVarint =>
      (match Varint64(s)
       case Fail => Fail
       case Ok(v, rest) => Narrowed(k, size, UnZigzag(v), rest))
    case Fixed32 =>
      (match Take(s, 4)
       case Fail => Fail
       case Ok(b, rest) => FromLEBound(b); Pow256Values(); Ok(FromLE(b), rest))
    case Fixed64 =>
      (match Take(s, 8)
       case Fail => Fail
       case Ok(b, rest) => FromLEBound(b); Pow256Values(); Ok(FromLE(b), rest))
  }

  lemma SignedCasts(n: int)
    requires -TWO63 <= n < TWO63
    ensures Signed64(Unsigned64(n)) == n
    ensures -0x8000_0000 <= n < 0x8000_0000 ==> Signed32(Unsigned64(n)) == n
  {
  }

  lemma IntRoundTrip(size: nat, n: int, t: seq<byte>)
    requires InRange(Varint, size, n)
    ensures DecodeNum(Varint, size, VarintBytes(Unsigned64(n)) + t) == Ok(n, t)
  {
    Varint64OfBytes(Unsigned64(n), t);
    SignedCasts(n);
  }

  lemma ZigzagRoundTrip(size: nat, n: int, t: seq<byte>)
    requires InRange(SVarint, size, n)
    ensures DecodeNum(SVarint, size, VarintBytes(Zigzag(n)) + t) == Ok(n, t)
  {
    ZigzagBijection(n, 0);
    Varint64OfBytes(Zigzag(n), t);
  }

  lemma FixedRoundTrip(n: nat, w: nat, t: seq<byte>)
    requires (w == 4 && n < TWO32) || (w == 8 && n < TWO64)
    ensures Take(LEBytes(n, w) + t, w) == Ok(LEBytes(n, w), t)
    ensures FromLE(LEBytes(n, w)) == n
  {
    var s := LEBytes(n, w) + t;
    assert s[..w] == LEBytes(n, w) && s[w..] == t;
    Pow256Values();
    FromLEOfBytes(n, w);
  }

  lemma NumRoundTrip(k: Kind, size: nat, n: int, t: seq<byte>)
    requires InRange(k, size, n)
    ensures DecodeNum(k, size, EncodeNum(k, size, n) + t) == Ok(n, t)
  {
    if k.Bool? {
      Varints.Varint32OfBytes(n, t);
    } else if k.Fixed32? {
      FixedRoundTrip(n, 4, t);
    } else if k.Fixed64? {
      FixedRoundTrip(n, 8, t);
    } else if k.Varint? {
      IntRoundTrip(size, n, t);
    } else if k.SVarint? {
      ZigzagRoundTrip(size, n, t);
    } else {
      Varint64OfBytes(n, t);
    }
  }
}
