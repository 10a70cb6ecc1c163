/** Doubles on the wire for float fields (option PB_CONVERT_DOUBLE_FLOAT). Shifts and masks of
    whole words are written as division and remainder by powers of two. */
module FloatConv {
  import opened Bits
  import opened Wire
  import opened Numbers
  import opened InStream
  import opened OutStream
  import opened NumberDecoders
  import opened NumberEncoders

  const P23: nat := 0x80_0000
  const P24: nat := 0x100_0000
  const P28: nat := 0x1000_0000
  const P29: nat := 0x2000_0000
  const P31: nat := 0x8000_0000
  const P52: nat := 0x10_0000_0000_0000

  /** The bits of positive infinity in a float */
  const INFINITY: nat := 0x7F80_0000

  //
  // What the bit patterns stand for
  //

  /** The magnitude of a finite double, in units of 2^-1074: biased exponent and fraction */
  function DoubleMag(e: nat, fraction: nat): nat {
    if e == 0 then fraction else Shl(P52 + fraction, e - 1)
  }

  /** The magnitude of a float, in units of 2^-149. Floats of one sign are in the order of
      their bits, and the bits of infinity continue the scale at 2^128. */
  function FloatUnits(k: nat): nat {
    if k / P23 == 0 then k else Shl(P23 + k % P23, k / P23 - 1)
  }

  /** The same in units of 2^-1074 */
  function FloatMag(k: nat): nat {
    Shl(FloatUnits(k), 925)
  }

  lemma {:induction false} Pow2Sum(m: nat, n: nat)
    ensures Shl(Pow2(m), n) == Pow2(m + n)
  {
    if n > 0 { Pow2Sum(m, n - 1); }
  }

  /** One is 2^149 units of floats and 2^1074 of doubles, in both its bit patterns. */
  lemma OneInUnits()
    ensures FloatUnits(0x3F80_0000) == Pow2(149) && FloatMag(0x3F80_0000) == Pow2(1074)
    ensures DoubleMag(0x3FF, 0) == Pow2(1074)
  {
    assert Pow2(8) == 0x100 && Pow2(16) == 0x100 * Pow2(8) && Pow2(23) == 0x80 * Pow2(16);
    assert Pow2(32) == 0x200 * Pow2(23) && Pow2(44) == 0x1000 * Pow2(32) && Pow2(52) == 0x100 * Pow2(44);
    Pow2Sum(23, 126);
    Pow2Sum(149, 925);
    Pow2Sum(52, 1022);
  }

  function Distance(x: int, y: int): nat {
    if x < y then y - x else x - y
  }

  /** IEEE 754-2019 section 4.3.1, roundTiesToAway: k is the closest float, and the larger one
      of two equally close ones; from the middle between the largest float and 2^128 on it is
      infinity. */
  ghost predicate NearestAway(x: nat, k: nat) {
    && k <= INFINITY
    && forall q: nat :: q <= INFINITY ==>
        Distance(x, FloatMag(k)) < Distance(x, FloatMag(q))
        || (Distance(x, FloatMag(k)) == Distance(x, FloatMag(q)) && q <= k)
  }

  //
  // Shifting
  //

  lemma {:induction false} ShlTwice(a: nat, m: nat, n: nat)
    ensures Shl(Shl(a, m), n) == Shl(a, m + n)
  {
    if n > 0 { ShlTwice(a, m, n - 1); }
  }

  lemma {:induction false} ShlSum(a: nat, b: nat, n: nat)
    ensures Shl(a + b, n) == Shl(a, n) + Shl(b, n)
  {
    if n > 0 { ShlSum(a, b, n - 1); }
  }

  lemma {:induction false} ShlMono(a: nat, b: nat, n: nat)
    requires a < b
    ensures Shl(a, n) < Shl(b, n)
  {
    if n > 0 { ShlMono(a, b, n - 1); }
  }

  lemma {:induction false} ShlFurther(a: nat, m: nat, n: nat)
    requires m <= n
    ensures Shl(a, m) <= Shl(a, n)
  {
    if m < n { ShlFurther(a, m, n - 1); }
  }

  lemma FiftyThree(a: nat, e: nat)
    requires e == Shl(a, 28) == P28 * a
    ensures Shl(a, 53) == 2 * P52 * a
  {
    ShlTwice(a, 28, 8);
    ShlIsTimes(e, 8);
    assert Pow2(8) == 0x100;
    var f := Shl(a, 36);
    ShlTwice(a, 36, 8);
    ShlIsTimes(f, 8);
    var g := Shl(a, 44);
    ShlTwice(a, 44, 8);
    ShlIsTimes(g, 8);
    assert Shl(a, 53) == 2 * Shl(a, 52);
  }

  lemma SmallShifts(a: nat)
    ensures Shl(a, 23) == P23 * a && Shl(a, 28) == P28 * a && Shl(a, 29) == P29 * a && Shl(a, 53) == 2 * P52 * a
    ensures Shl(a, 1) == 2 * a && Shl(a, 0) == a
  {
    ShlIsTimes(a, 8);
    assert Pow2(8) == 0x100;
    var b, c := Shl(a, 8), Shl(a, 16);
    ShlIsTimes(b, 8);
    ShlTwice(a, 8, 8);
    ShlIsTimes(c, 7);
    assert Pow2(7) == 0x80;
    ShlTwice(a, 16, 7);
    var d := Shl(a, 23);
    assert Shl(d, 1) == 2 * d;
    ShlTwice(a, 23, 5);
    ShlIsTimes(d, 5);
    assert Pow2(5) == 32;
    var e := Shl(a, 28);
    ShlTwice(a, 28, 1);
    assert Shl(e, 1) == 2 * e;
    FiftyThree(a, e);
  }

  lemma Shift28(a: nat)
    ensures Shl(a, 28) == P28 * a
  {
    SmallShifts(a);
  }

  //
  // The scale of the floats
  //

  /** In a binade the floats are evenly spaced, up to the first one of the next binade. */
  lemma Binade(e: nat, fraction: nat)
    requires e >= 1 && fraction < P23
    ensures FloatUnits(e * P23 + fraction) == Shl(P23 + fraction, e - 1)
    ensures FloatUnits(e * P23 + fraction + 1) == Shl(P23 + fraction + 1, e - 1)
  {
    var k := e * P23 + fraction;
    assert k / P23 == e && k % P23 == fraction;
    if fraction + 1 < P23 {
      assert (k + 1) / P23 == e && (k + 1) % P23 == fraction + 1;
    } else {
      assert k + 1 == (e + 1) * P23;
      assert (k + 1) / P23 == e + 1 && (k + 1) % P23 == 0;
      ShlTwice(P23, 1, e - 1);
      assert Shl(P23, 1) == 2 * Shl(P23, 0);
    }
  }

  lemma BinadeMag(e: nat, fraction: nat)
    requires e >= 1 && fraction < P23
    ensures FloatMag(e * P23 + fraction) == Shl(P23 + fraction, e + 924)
    ensures FloatMag(e * P23 + fraction + 1) == Shl(P23 + fraction + 1, e + 924)
  {
    Binade(e, fraction);
    ShlTwice(P23 + fraction, e - 1, 925);
    ShlTwice(P23 + fraction + 1, e - 1, 925);
  }

  lemma SubnormalMag(k: nat)
    requires k < P23
    ensures FloatMag(k) == Shl(k, 925) && FloatMag(k + 1) == Shl(k + 1, 925)
  {
    if k + 1 == P23 {
      assert (k + 1) / P23 == 1 && (k + 1) % P23 == 0;
      assert Shl(P23, 0) == P23;
    }
  }

  lemma NextFloat(k: nat)
    ensures FloatMag(k) < FloatMag(k + 1)
  {
    if k < P23 {
      SubnormalMag(k);
      ShlMono(k, k + 1, 925);
    } else {
      var e, fraction := k / P23, k % P23;
      assert k == e * P23 + fraction;
      BinadeMag(e, fraction);
      ShlMono(P23 + fraction, P23 + fraction + 1, e + 924);
    }
  }

  lemma {:induction false} FloatsIncrease(a: nat, b: nat)
    requires a < b
    ensures FloatMag(a) < FloatMag(b)
    decreases b - a
  {
    NextFloat(b - 1);
    if a < b - 1 { FloatsIncrease(a, b - 1); }
  }

  /** Between two neighbours the side of the middle decides. */
  lemma NearestBetween(x: nat, a: nat, bit: nat)
    requires a < INFINITY && FloatMag(a) <= x < FloatMag(a + 1) && bit <= 1
    requires 2 * x >= FloatMag(a) + FloatMag(a + 1) <==> bit == 1
    ensures NearestAway(x, a + bit)
  {
    forall q: nat | q <= INFINITY
      ensures q < a ==> FloatMag(q) < FloatMag(a)
      ensures q > a + 1 ==> FloatMag(q) > FloatMag(a + 1)
    {
      if q < a { FloatsIncrease(q, a); }
      if q > a + 1 { FloatsIncrease(a + 1, q); }
    }
  }

  lemma NearestBeyond(x: nat)
    requires x >= FloatMag(INFINITY)
    ensures NearestAway(x, INFINITY)
  {
    forall q: nat | q < INFINITY ensures FloatMag(q) < FloatMag(INFINITY) {
      FloatsIncrease(q, INFINITY);
    }
  }

  /** There is only one nearest float, and a float is its own. */
  lemma NearestUnique(x: nat, a: nat, b: nat)
    requires NearestAway(x, a) && NearestAway(x, b)
    ensures a == b
  {
    assert Distance(x, FloatMag(a)) == Distance(x, FloatMag(b));
  }

  lemma NearestOfFloat(k: nat, a: nat)
    requires k <= INFINITY && NearestAway(FloatMag(k), a)
    ensures a == k
  {
    if a < k { FloatsIncrease(a, k); }
    if k < a { FloatsIncrease(k, a); }
    assert Distance(FloatMag(k), FloatMag(k)) == 0;
  }

  //
  // Rounding
  //

  lemma {:induction false} ShlZero(n: nat)
    ensures Shl(0, n) == 0
  {
    if n > 0 { ShlZero(n - 1); }
  }

  /** A number is n large units, a half unit if bit is set, and less than a half unit more: bit
      tells on which side of the middle it lies. */
  lemma HalfBit(number: nat, s: nat, low: nat, n: nat, bit: nat, p: nat)
    requires number == low + Shl(2 * n + bit, s) && bit <= 1 && low < Shl(1, s)
    ensures var x, unit := Shl(number, p), s + p + 1;
            && Shl(n, unit) <= x < Shl(n + 1, unit)
            && (2 * x >= Shl(n, unit) + Shl(n + 1, unit) <==> bit == 1)
  {
    ShlSum(2 * n, bit, s);
    ShlSum(low, Shl(2 * n + bit, s), p);
    ShlSum(Shl(2 * n, s), Shl(bit, s), p);
    ShlTwice(2 * n, s, p);
    ShlTwice(n, 1, s + p);
    assert Shl(n, 1) == 2 * Shl(n, 0);
    ShlTwice(bit, s, p);
    ShlMono(low, Shl(1, s), p);
    ShlTwice(1, s, p);
    ShlSum(n, 1, s + p + 1);
    ShlZero(s + p);
  }

  lemma NormalHalf(m: nat, low: nat, half: nat, bit: nat)
    requires m == 2 * half + bit && low < P28
    ensures P52 + (P28 * m + low) == low + Shl(2 * (P23 + half) + bit, 28) && low < Shl(1, 28)
  {
    Shift28(2 * (P23 + half) + bit);
    Shift28(1);
  }

  lemma NormalBounds(e: nat, half: nat, bit: nat, low: nat)
    requires e >= 1 && bit <= 1 && low < P28
    ensures var x, n := DoubleMag(e, P28 * (2 * half + bit) + low), P23 + half;
            && Shl(n, e + 28) <= x < Shl(n + 1, e + 28)
            && (2 * x >= Shl(n, e + 28) + Shl(n + 1, e + 28) <==> bit == 1)
  {
    NormalHalf(2 * half + bit, low, half, bit);
    HalfBit(P52 + (P28 * (2 * half + bit) + low), 28, low, P23 + half, bit, e - 1);
  }

  lemma NormalParts(e: nat, half: nat, bit: nat, low: nat)
    requires 897 <= e <= 1150 && half < P23 && bit <= 1 && low < P28
    ensures NearestAway(DoubleMag(e, P28 * (2 * half + bit) + low), (e - 896) * P23 + half + bit)
  {
    NormalBounds(e, half, bit, low);
    BinadeMag(e - 896, half);
    NearestBetween(DoubleMag(e, P28 * (2 * half + bit) + low), (e - 896) * P23 + half, bit);
  }

  /** A double in the range of the normal floats: m is the highest 24 bits of the fraction,
      low the others. */
  lemma NormalRounded(e: nat, m: nat, low: nat)
    requires 897 <= e <= 1150 && m < P24 && low < P28
    ensures NearestAway(DoubleMag(e, P28 * m + low), (e - 896) * P23 + m / 2 + m % 2)
  {
    NormalParts(e, m / 2, m % 2, low);
    assert m == 2 * (m / 2) + m % 2;
  }

  lemma {:induction false} ShrShrinks(a: nat, n: nat)
    ensures Shr(a, n) <= a
  {
    if n > 0 { ShrShrinks(a / 2, n - 1); }
  }

  lemma ShiftedSmall(m: nat, s: nat)
    requires m < 2 * P24 && s >= 1
    ensures Shr(m, s) < P24
  {
    ShrShrinks(m / 2, s - 1);
  }

  /** The bits that the shift drops, and those that the 24 bits left out */
  lemma ShiftedOut(m: nat, low: nat, s: nat)
    requires low < P28
    ensures var y, lost := Shr(P24 + m, s), low + Shl(Low(P24 + m, s), 28);
            lost < Shl(1, 28 + s) && P52 + (P28 * m + low) == lost + Shl(y, 28 + s)
  {
    var y, rest := Shr(P24 + m, s), Low(P24 + m, s);
    Split(P24 + m, s);
    ShlIsTimes(y, s);
    ShlIsTimes(1, s);
    SmallShifts(P24 + m);
    ShlSum(rest, Shl(y, s), 28);
    ShlTwice(y, s, 28);
    SmallShifts(rest);
    SmallShifts(Shl(1, s));
    ShlTwice(1, s, 28);
  }

  /** A double in the range of the subnormal floats */
  lemma SubnormalRounded(e: nat, m: nat, low: nat)
    requires 873 <= e <= 896 && m < P24 && low < P28
    ensures var y := Shr(P24 + m, 897 - e);
            y < P24 && NearestAway(DoubleMag(e, P28 * m + low), y / 2 + y % 2)
  {
    var s, y := 897 - e, Shr(P24 + m, 897 - e);
    var lost := low + Shl(Low(P24 + m, s), 28);
    ShiftedSmall(P24 + m, s);
    ShiftedOut(m, low, s);
    HalfBit(P52 + (P28 * m + low), 28 + s, lost, y / 2, y % 2, e - 1);
    SubnormalMag(y / 2);
    NearestBetween(DoubleMag(e, P28 * m + low), y / 2, y % 2);
  }

  lemma TinyMagnitude(e: nat, fraction: nat)
    requires e <= 872 && fraction < P52
    ensures DoubleMag(e, fraction) < Shl(1, 924)
  {
    SmallShifts(1);
    if e == 0 {
      ShlFurther(1, 53, 924);
    } else {
      ShlMono(P52 + fraction, Shl(1, 53), e - 1);
      ShlTwice(1, 53, e - 1);
      ShlFurther(1, 52 + e, 924);
    }
  }

  /** Less than half of the smallest float */
  lemma TinyRounded(e: nat, fraction: nat)
    requires e <= 872 && fraction < P52
    ensures NearestAway(DoubleMag(e, fraction), 0)
  {
    TinyMagnitude(e, fraction);
    SubnormalMag(0);
    ShlZero(925);
    assert Shl(1, 925) == 2 * Shl(1, 924);
    NearestBetween(DoubleMag(e, fraction), 0, 0);
  }

  /** 2^m, shifted further */
  lemma InBinade(low: nat, m: nat, n: nat)
    requires low == 0 && m == 23
    ensures Shl(P23 + low, n) == Shl(1, m + n)
  {
    assert Shl(1, 23) == P23 by { SmallShifts(1); }
    ShlTwice(1, m, n);
  }

  lemma InfinityMag()
    ensures FloatMag(INFINITY) == Shl(1, 1202)
  {
    BinadeMag(255, 0);
    InBinade(0, 23, 1179);
  }

  lemma HugeMagnitude(e: nat, fraction: nat)
    requires 1151 <= e
    ensures DoubleMag(e, fraction) >= Shl(1, 1202)
  {
    SmallShifts(1);
    assert Shl(1, 53) == 2 * Shl(1, 52);
    ShlTwice(1, 52, e - 1);
    ShlFurther(1, 1202, e + 51);
    if fraction > 0 { ShlMono(P52, P52 + fraction, e - 1); }
  }

  lemma HugeRounded(e: nat, fraction: nat)
    requires 1151 <= e
    ensures NearestAway(DoubleMag(e, fraction), INFINITY)
  {
    InfinityMag();
    HugeMagnitude(e, fraction);
    NearestBeyond(DoubleMag(e, fraction));
  }

  //
  // Decoding
  //

  /** The float is the double, rounded; infinities and the payload bits of a NaN that fit stay. */
  ghost predicate IsFloatOf(v: nat, out: nat) {
    var e, fraction := v / P52 % 0x800, v % P52;
    && out < TWO32 && out / P31 == v / TWO63
    && (e < 0x7FF ==> NearestAway(DoubleMag(e, fraction), out % P31))
    && (e == 0x7FF ==> out % P31 == INFINITY + fraction / P29)
  }

  lemma FractionParts(value: nat)
    ensures value % P52 == P28 * (value / P28 % P24) + value % P28
    ensures value / P28 % P24 / 2 == value % P52 / P29
  {
    assert value == P28 * (value / P28) + value % P28;
    assert value / P28 == P24 * (value / P52) + value / P28 % P24;
    assert value == P52 * (value / P52) + value % P52;
  }

  /** Sign, exponent and the highest 24 bits of the fraction */
  method Decompose(value: nat) returns (sign: nat, exponent: int, mantissa: nat, ghost low: nat)
    requires value < TWO64
    ensures sign <= 1 && sign == value / TWO63
    ensures exponent == value / P52 % 0x800 - 1023
    ensures mantissa < P24 && low < P28 && value % P52 == P28 * mantissa + low
    ensures mantissa / 2 == value % P52 / P29
  {
    sign := value / TWO63 % 2;
    exponent := value / P52 % 0x800 - 1023;
    mantissa := value / P28 % P24;
    low := value % P28;
    FractionParts(value);
  }

  /** The float that an exponent and a mantissa with one bit too many stand for */
  function RoundedTo(exponent: int, mantissa: nat): nat
    requires exponent >= -127
  {
    P23 * (exponent + 127) + mantissa / 2 + mantissa % 2
  }

  /** Bring the double into the range of the floats, leaving one bit to round off. */
  method ToFloatRange(exponent0: int, mantissa0: nat, ghost low: nat) returns (exponent: int, mantissa: nat)
    requires -1023 <= exponent0 < 1024 && mantissa0 < P24 && low < P28
    ensures -127 <= exponent <= 128 && mantissa < P24
    ensures NearestAway(DoubleMag(exponent0 + 1023, P28 * mantissa0 + low), RoundedTo(exponent, mantissa))
  {
    exponent, mantissa := exponent0, mantissa0;
    ghost var e, fraction := exponent0 + 1023, P28 * mantissa0 + low;
    if exponent > 127 {
      HugeRounded(e, fraction);
      exponent := 128;
      mantissa := 0;
    } else if exponent < -150 {
      TinyRounded(e, fraction);
      exponent := -127;
      mantissa := 0;
    } else if exponent < -126 {
      SubnormalRounded(e, mantissa, low);
      mantissa := P24 + mantissa;
      mantissa := Shr(mantissa, -126 - exponent);
      exponent := -127;
    } else {
      NormalRounded(e, mantissa, low);
    }
  }

  /** The last steps: round off the mantissa, and check if it went over 2.0 */
  method RoundOff(exponent0: int, mantissa0: nat) returns (out: nat)
    requires -127 <= exponent0 <= 128 && mantissa0 < P24
    ensures out == RoundedTo(exponent0, mantissa0)
  {
    var exponent, mantissa := exponent0, (mantissa0 + 1) / 2;
    if mantissa / P23 % 2 == 1 {
      exponent := exponent + 1;
      mantissa := mantissa % P23;
      mantissa := mantissa / 2;
    }
    out := mantissa + P23 * (exponent + 127);
  }

  /** The lower 31 bits of the float, from the decomposed double */
  method RoundToFloat(exponent0: int, mantissa0: nat, ghost low: nat) returns (out: nat)
    requires -1023 <= exponent0 < 1024 && mantissa0 < P24 && low < P28
    ensures NearestAway(DoubleMag(exponent0 + 1023, P28 * mantissa0 + low), out)
  {
    var exponent, mantissa := ToFloatRange(exponent0, mantissa0, low);
    out := RoundOff(exponent, mantissa);
  }

  lemma SignOnTop(magnitude: nat, sign: nat)
    requires magnitude < P31 && sign <= 1
    ensures (magnitude + P31 * sign) / P31 == sign && (magnitude + P31 * sign) % P31 == magnitude
  {
  }

  lemma FixedBound(s: seq<byte>)
    requires |s| == 8
    ensures FromLE(s) < TWO64
  {
    FromLEBound(s);
    Pow256Values();
  }

  /** pb_decode_double_as_float */
  method DecodeDoubleAsFloat(stream: IStream) returns (ok: bool, out: nat)
    requires stream.Valid()
    modifies stream
    ensures stream.Reads(ok, Take(old(stream.Rest()), 8))
    ensures ok ==> IsFloatOf(FromLE(Take(old(stream.Rest()), 8).value), out)
  {
    var value;
    ok, value := DecodeFixed64(stream);
    if !ok {
      return false, 0;
    }
    FixedBound(Take(old(stream.Rest()), 8).value);
    var sign, exponent, mantissa, low := Decompose(value);
    if exponent == 1024 {
      mantissa := mantissa / 2;
      out := mantissa + P23 * (128 + 127);
    } else {
      out := RoundToFloat(exponent, mantissa, low);
    }
    SignOnTop(out, sign);
    out := out + P31 * sign;
  }

  //
  // Encoding
  //

  /** The double is exactly the float. */
  ghost predicate IsDoubleOf(f: nat, v: nat) {
    var e, fraction, k := v / P52 % 0x800, v % P52, f % P31;
    && v < TWO64 && v / TWO63 == f / P31
    && (k < INFINITY ==> e < 0x7FF && DoubleMag(e, fraction) == FloatMag(k))
    && (k >= INFINITY ==> e == 0x7FF && fraction == P29 * (k - INFINITY))
  }

  lemma WidenedNormal(e: nat, m: nat)
    requires 1 <= e < 0xFF && m < P23
    ensures DoubleMag(e + 896, P29 * m) == FloatMag(e * P23 + m)
  {
    BinadeMag(e, m);
    SmallShifts(P23 + m);
    ShlTwice(P23 + m, 29, e + 895);
  }

  /** A subnormal float, shifted left until its highest bit is bit 23 */
  lemma WidenedSubnormal(k: nat, j: nat, m: nat)
    requires k < P23 && 1 <= j < 24 && P23 <= m && m == Shl(k, j)
    ensures DoubleMag(897 - j, P29 * (m - P23)) == FloatMag(k)
  {
    SubnormalMag(k);
    SmallShifts(m);
    ShlTwice(k, j, 29);
    ShlTwice(k, j + 29, 896 - j);
  }

  lemma ShlBound(k: nat, j: nat)
    requires 0 < k && Shl(k, j) < P24
    ensures j < 24
  {
    if j >= 24 {
      SmallShifts(k);
      assert Shl(k, 24) == 2 * Shl(k, 23);
      ShlFurther(k, 24, j);
    }
  }

  /** The loop that normalizes a subnormal mantissa */
  method Normalize(k: nat) returns (mantissa: nat, exponent: int, ghost j: nat)
    requires 0 < k < P23
    ensures P23 <= mantissa < P24 && mantissa == Shl(k, j) && 1 <= j < 24 && exponent == -126 - j
  {
    mantissa, exponent, j := 2 * k, -127, 1;
    assert Shl(k, 1) == 2 * Shl(k, 0);
    while mantissa / P23 % 2 == 0
      invariant 0 < mantissa < P24 && mantissa == Shl(k, j) && 1 <= j && exponent == -126 - j
      decreases P24 - mantissa
    {
      mantissa := 2 * mantissa;
      exponent := exponent - 1;
      j := j + 1;
    }
    ShlBound(k, j);
  }

  /** Exponent and fraction of the double for a float with biased exponent e and fraction m */
  method Widen(e: nat, m: nat) returns (exponent: int, mantissa: nat)
    requires e < 0x100 && m < P23
    ensures -1023 <= exponent <= 1024 && mantissa < P23
    ensures e < 0xFF ==> exponent < 1024 && DoubleMag(exponent + 1023, P29 * mantissa) == FloatMag(e * P23 + m)
    ensures e == 0xFF ==> exponent == 1024 && mantissa == m
  {
    exponent := e - 127;
    mantissa := m;
    if exponent == 128 {
      exponent := 1024;
    } else if exponent == -127 {
      if mantissa == 0 {
        SubnormalMag(0);
        ShlZero(925);
        exponent := -1023;
      } else {
        ghost var j;
        mantissa, exponent, j := Normalize(m);
        WidenedSubnormal(m, j, mantissa);
        assert mantissa % P23 == mantissa - P23;
        mantissa := mantissa % P23;
      }
    } else {
      WidenedNormal(e, m);
    }
  }

  lemma Composed(sign: nat, e: nat, fraction: nat)
    requires sign <= 1 && e < 0x800 && fraction < P52
    ensures var v := fraction + P52 * e + TWO63 * sign;
            v < TWO64 && v / TWO63 == sign && v / P52 % 0x800 == e && v % P52 == fraction
  {
    var v := fraction + P52 * e + TWO63 * sign;
    assert v == fraction + P52 * (e + 0x800 * sign);
    assert v / P52 == e + 0x800 * sign;
  }

  lemma FloatParts(f: nat)
    requires f < TWO32
    ensures var e, m := f / P23 % 0x100, f % P23;
            f % P31 == e * P23 + m && (f % P31 < INFINITY <==> e < 0xFF)
  {
    assert f % P31 == f - P31 * (f / P31);
    assert f / P23 == f / P31 * 0x100 + f / P23 % 0x100;
  }

  /** pb_encode_float_as_double */
  method EncodeFloatAsDouble(stream: OStream, value: nat) returns (ok: bool, ghost v: nat)
    requires stream.Valid() && value < TWO32
    modifies stream, stream.buf
    ensures IsDoubleOf(value, v) && stream.Emits(ok, Some(LEBytes(v, 8)))
  {
    var sign := value / P31;
    var e, m := value / P23 % 0x100, value % P23;
    FloatParts(value);
    var exponent, mantissa := Widen(e, m);
    var bits := P29 * mantissa + P52 * (exponent + 1023) + TWO63 * sign;
    Composed(sign, exponent + 1023, P29 * mantissa);
    v := bits;
    ok := EncodeFixed64(stream, bits);
  }

  /** Decoding inverts encoding, for every bit pattern of a float. */
  lemma FloatSurvives(f: nat, v: nat, g: nat)
    requires f < TWO32 && IsDoubleOf(f, v) && IsFloatOf(v, g)
    ensures g == f
  {
    if f % P31 < INFINITY {
      NearestOfFloat(f % P31, g % P31);
    }
  }

  /** A NaN stays a NaN exactly if one of the 23 payload bits that a float keeps is set;
      otherwise it becomes an infinity. */
  lemma NanSurvives(v: nat, g: nat)
    requires IsFloatOf(v, g) && v / P52 % 0x800 == 0x7FF && v % P52 > 0
    ensures g % P31 > INFINITY <==> v % P52 >= P29
    ensures g % P31 >= INFINITY
  {
  }

  lemma HalfUp(m: nat, low: nat)
    requires low < 0x1000_0000
    ensures (0x1000_0000 * m + low + 0x1000_0000) / 0x2000_0000 == m / 2 + m % 2
  {
    assert m == 2 * (m / 2) + m % 2;
  }

  /** The bits of the result: the sign, and, within the range of normal floats, the exponent less
      896 and the fraction with half a unit added before it is cut off */
  lemma RoundedForm(v: nat, g: nat)
    requires v < TWO64 && IsFloatOf(v, g)
    ensures g / 0x8000_0000 == v / 0x8000_0000_0000_0000
    ensures var e, fraction, k := v / 0x10_0000_0000_0000 % 0x800, v % 0x10_0000_0000_0000, g % 0x8000_0000;
            && (e <= 872 ==> k == 0)
            && (897 <= e <= 1150 ==> k == 0x80_0000 * (e - 896) + (fraction + 0x1000_0000) / 0x2000_0000)
            && (1151 <= e < 0x7FF ==> k == 0x7F80_0000)
  {
    var e, fraction := v / P52 % 0x800, v % P52;
    var m, low := fraction / P28, fraction % P28;
    if e <= 872 {
      TinyRounded(e, fraction);
      NearestUnique(DoubleMag(e, fraction), g % P31, 0);
    } else if 897 <= e <= 1150 {
      NormalRounded(e, m, low);
      HalfUp(m, low);
      NearestUnique(DoubleMag(e, fraction), g % P31, (e - 896) * P23 + m / 2 + m % 2);
    } else if 1151 <= e < 0x7FF {
      HugeRounded(e, fraction);
      NearestUnique(DoubleMag(e, fraction), g % P31, INFINITY);
    }
  }

  /** A NaN whose payload lies below those bits, and the infinity it becomes */
  lemma NanLost()
    ensures forall g :: IsFloatOf(0x7FF0_0000_0000_0001, g) <==> g == 0x7F80_0000
  {
  }
}
