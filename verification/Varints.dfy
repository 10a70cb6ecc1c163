/** How the two varint decoders relate, and what each accepts. */
module Varints {
  import opened Wire

  lemma Pow128Nine()
    ensures Pow128(9) == TWO63
  {
    assert Pow128(9) == 128 * 128 * 128 * 128 * 128 * 128 * 128 * 128 * 128;
  }

  lemma {:induction false} Pow128Mono(m: nat, n: nat)
    requires m <= n
    ensures Pow128(m) <= Pow128(n)
    decreases n - m
  {
    if m < n { Pow128Mono(m, n - 1); }
  }

  /** n bytes hold 7n bits. */
  lemma {:induction false} RawBound(s: seq<byte>)
    requires RawVarint(s).Ok?
    ensures RawVarint(s).value < Pow128(|s| - |RawVarint(s).rest|)
  {
    var n := |s| - |RawVarint(s).rest|;
    if s[0] < 128 {
      assert n == 1;
      assert Pow128(1) == 128 * Pow128(0);
    } else {
      RawBound(s[1..]);
      assert |s[1..]| - |RawVarint(s[1..]).rest| == n - 1;
      assert Pow128(n) == 128 * Pow128(n - 1);
    }
  }

  lemma ScaleUp(b: nat, p: nat)
    ensures b * (128 * p) == 128 * (b * p)
  {
  }

  lemma ScaledBound(b: nat, v: nat, p: nat, low: nat)
    requires b * p <= v < (b + 1) * p && low < 128
    ensures b * (128 * p) <= low + 128 * v < (b + 1) * (128 * p)
  {
    ScaleUp(b, p);
    ScaleUp(b + 1, p);
  }

  /** After nine continuing bytes the value is the last byte times 2^63 and 63 more bits. */
  lemma {:induction false} LastByteBound(s: seq<byte>, n: nat)
    requires RawVarint(s).Ok?
    requires n == |s| - |RawVarint(s).rest|
    ensures s[n - 1] * Pow128(n - 1) <= RawVarint(s).value < (s[n - 1] + 1) * Pow128(n - 1)
  {
    if s[0] < 128 {
    } else {
      LastByteBound(s[1..], n - 1);
      assert s[1..][n - 2] == s[n - 1];
      assert Pow128(n - 1) == 128 * Pow128(n - 2);
      ScaledBound(s[n - 1], RawVarint(s[1..]).value, Pow128(n - 2), s[0] - 128);
    }
  }

  lemma TenByteBound(s: seq<byte>)
    requires RawVarint(s).Ok? && |s| - |RawVarint(s).rest| == 10
    ensures RawVarint(s).value < TWO64 <==> s[9] <= 1
  {
    LastByteBound(s, 10);
    Pow128Nine();
  }

  /** Whatever the 32-bit decoder accepts the 64-bit decoder accepts, up to the same byte,
      with a value congruent modulo 2^32. */
  lemma Varint32Agrees(s: seq<byte>)
    requires Varint32(s).Ok?
    ensures Varint64(s).Ok?
    ensures Varint64(s).rest == Varint32(s).rest
    ensures Varint64(s).value % TWO32 == Varint32(s).value
  {
    var raw := RawVarint(s);
    var n := |s| - |raw.rest|;
    RawBound(s);
    if n == 10 {
      RawDigits(s, 9);
      assert s[9] < 128;
      assert s[9] <= 1;
      TenByteBound(s);
    } else {
      Pow128Mono(n, 9);
    }
    Pow128Nine();
  }

  /** The 64-bit decoder's own overflow test, on the tenth byte, is the bound 2^64. */
  lemma Varint64Exact(s: seq<byte>)
    ensures Varint64(s).Ok? <==>
              && RawVarint(s).Ok?
              && |s| - |RawVarint(s).rest| <= 10
              && (|s| - |RawVarint(s).rest| == 10 ==> s[9] <= 1)
  {
    if RawVarint(s).Ok? {
      var n := |s| - |RawVarint(s).rest|;
      if n == 10 {
        TenByteBound(s);
      } else if n < 10 {
        RawBound(s);
        Pow128Mono(n, 9);
        Pow128Nine();
      }
    }
  }

  //
  // Groups of seven bits
  //

  lemma DigitStep(v: nat, i: nat)
    requires i >= 1
    ensures Digit(v, i) == Digit(v / 128, i - 1)
  {
  }

  lemma DigitSkipFour(v: nat, i: nat)
    requires i >= 4
    ensures Digit(v, i) == Digit(v / 0x1000_0000, i - 4)
  {
    var v1 := v / 128;
    var v2 := v1 / 128;
    var v3 := v2 / 128;
    DigitStep(v, i);
    DigitStep(v1, i - 1);
    DigitStep(v2, i - 2);
    DigitStep(v3, i - 3);
    assert v3 / 128 == v / 0x1000_0000;
  }

  lemma {:induction false} DigitZero(i: nat)
    ensures Digit(0, i) == 0
  {
    if i > 0 { DigitZero(i - 1); }
  }

  /** A number below 128^5 has no digits from the fifth on. */
  lemma DigitHigh(v: nat, i: nat)
    requires v < 0x8_0000_0000 && i >= 5
    ensures Digit(v, i) == 0
  {
    DigitSkipFour(v, i);
    assert v / 0x1000_0000 / 128 == 0;
    assert Digit(v / 0x1000_0000, i - 4) == Digit(0, i - 5);
    DigitZero(i - 5);
  }

  //
  // Exactly what the 32-bit decoder accepts
  //

  /** The bytes of a varint, in the number of its groups */
  function ByteCount(s: seq<byte>): nat
    requires RawVarint(s).Ok?
  {
    |s| - |RawVarint(s).rest|
  }

  /** All bits of a group are clear, or all are set. */
  predicate Uniform(group: nat, ones: nat) {
    group == 0 || group == ones
  }

  /** A 64-bit number that the 32-bit decoder takes for an extension of its low 32 bits: these
      32 bits alone, or, if bit 31 is set, with bits 32 to 34 and each of the next four groups
      of seven uniform. The groups need not agree, and bit 63 may be either way. */
  predicate TakenAsExtension(v: nat) {
    v < TWO32
    || (&& v < TWO64
        && v / 0x8000_0000 % 2 == 1
        && Uniform(v / TWO32 % 8, 7)
        && Uniform(v / 0x8_0000_0000 % 128, 127)
        && Uniform(v / 0x400_0000_0000 % 128, 127)
        && Uniform(v / 0x2_0000_0000_0000 % 128, 127)
        && Uniform(v / 0x100_0000_0000_0000 % 128, 127))
  }

  lemma Pow128Ten()
    ensures Pow128(10) == 128 * TWO63
  {
    Pow128Nine();
  }

  /** The groups of a number, from the fifth on */
  predicate GroupsUniform(v: nat) {
    var bit31 := Digit(v, 4) / 8 % 2 == 1;
    && (Digit(v, 4) / 16 == 0 || Digit(v, 4) / 8 == 15)
    && (forall i :: 5 <= i < 9 ==> Digit(v, i) == 0 || (bit31 && Digit(v, i) == 127))
    && (Digit(v, 9) == 0 || (bit31 && Digit(v, 9) == 1))
  }

  lemma {:induction false} DigitBound(v: nat, i: nat)
    ensures Digit(v, i) < 128
  {
    if i > 0 { DigitBound(v / 128, i - 1); }
  }

  /** A number of n groups has no others. */
  lemma {:induction false} DigitBeyond(v: nat, n: nat, i: nat)
    requires v < Pow128(n) && n <= i
    ensures Digit(v, i) == 0
  {
    if n == 0 {
      DigitZero(i);
    } else {
      DigitBeyond(v / 128, n - 1, i - 1);
    }
  }

  lemma FifthBits(b: byte, group: nat)
    requires group == b % 128
    ensures b / 16 % 8 == group / 16 && b / 8 % 16 == group / 8 && b / 8 % 2 == group / 8 % 2
  {
    if b < 128 {
      assert group == b;
    } else {
      assert group == b - 128;
      assert b / 16 == group / 16 + 8 && b / 8 == group / 8 + 16;
    }
  }

  lemma LaterByte(b: byte, group: nat)
    requires group == b % 128
    ensures b == 0xFF ==> group == 127
    ensures b == 1 ==> group == 1
    ensures b < 128 ==> b == group
  {
  }

  /** Byte i of n carries group i, and continues unless it is the last. */
  predicate GroupAt(s: seq<byte>, v: nat, n: nat, i: nat)
    requires n <= |s|
  {
    && Digit(v, i) < 128
    && (i >= n ==> Digit(v, i) == 0)
    && (i < n ==> s[i] % 128 == Digit(v, i) && (s[i] >= 128 <==> i < n - 1))
  }

  /** From bytes to groups */
  lemma ByteGroups(s: seq<byte>, v: nat, n: nat)
    requires n <= |s| && n <= 10 && Narrow(s, n)
    requires forall i :: 4 <= i < 10 ==> GroupAt(s, v, n, i)
    ensures GroupsUniform(v) && (6 <= n <= 9 ==> s[n - 1] == 0)
  {
    assert GroupAt(s, v, n, 4) && GroupAt(s, v, n, 9);
    if n >= 5 { FifthBits(s[4], Digit(v, 4)); }
    forall i | 5 <= i < 9
      ensures Digit(v, i) == 0 || (Digit(v, 4) / 8 % 2 == 1 && Digit(v, i) == 127)
    {
      assert GroupAt(s, v, n, i);
      if i < n { LaterByte(s[i], Digit(v, i)); }
    }
    if 6 <= n <= 9 {
      assert GroupAt(s, v, n, n - 1);
      LaterByte(s[n - 1], Digit(v, n - 1));
    }
  }

  /** From groups to bytes */
  lemma GroupBytes(s: seq<byte>, v: nat, n: nat)
    requires n <= |s| && n <= 10 && GroupsUniform(v) && (6 <= n <= 9 ==> s[n - 1] == 0)
    requires forall i :: 4 <= i < 10 ==> GroupAt(s, v, n, i)
    ensures Narrow(s, n)
  {
    assert GroupAt(s, v, n, 4);
    if n >= 5 { FifthBits(s[4], Digit(v, 4)); }
    forall i | 5 <= i < n ensures s[i] % 128 == 0 || (Bit31(s) && s[i] == if i < 9 then 0xFF else 1) {
      assert GroupAt(s, v, n, i);
    }
  }

  /** The decoder's test on the bytes, in terms of the groups */
  lemma NarrowIsUniform(s: seq<byte>)
    requires RawVarint(s).Ok? && ByteCount(s) <= 10
    ensures var n := ByteCount(s);
            Narrow(s, n) <==> GroupsUniform(RawVarint(s).value) && (6 <= n <= 9 ==> s[n - 1] == 0)
  {
    var v, n := RawVarint(s).value, ByteCount(s);
    RawBound(s);
    forall i | 4 <= i < 10
      ensures Digit(v, i) < 128
      ensures i >= n ==> Digit(v, i) == 0
      ensures i < n ==> s[i] % 128 == Digit(v, i) && (s[i] >= 128 <==> i < n - 1)
    {
      DigitBound(v, i);
      if i < n { RawDigits(s, i); } else { DigitBeyond(v, n, i); }
    }
    if Narrow(s, n) { ByteGroups(s, v, n); }
    if GroupsUniform(v) && (6 <= n <= 9 ==> s[n - 1] == 0) { GroupBytes(s, v, n); }
  }

  lemma LastGroup(v: nat, q5: nat)
    requires v < 128 * TWO63 && q5 == v / TWO63
    ensures q5 % 128 == q5 && (v < TWO64 <==> q5 < 2)
  {
  }

  lemma LongNumber(v: nat, g4: nat, g5: nat, g6: nat, g7: nat, g8: nat, g9: nat)
    requires v >= TWO32 && (v < TWO64 <==> g9 < 2)
    requires Digit(v, 4) == g4 && Digit(v, 5) == g5 && Digit(v, 6) == g6
    requires Digit(v, 7) == g7 && Digit(v, 8) == g8 && Digit(v, 9) == g9
    requires v / 0x8000_0000 % 2 == g4 / 8 % 2 && v / TWO32 % 8 == g4 / 16
    requires g4 / 8 == 15 <==> g4 / 8 % 2 == 1 && g4 / 16 == 7
    requires v / 0x8_0000_0000 % 128 == g5 && v / 0x400_0000_0000 % 128 == g6
    requires v / 0x2_0000_0000_0000 % 128 == g7 && v / 0x100_0000_0000_0000 % 128 == g8
    requires GroupsUniform(v) ==> g4 / 8 % 2 == 1
    ensures GroupsUniform(v) <==> TakenAsExtension(v)
  {
    if TakenAsExtension(v) {
      assert g9 == 0 || g9 == 1;
    }
    if GroupsUniform(v) {
      assert Digit(v, 5) == 0 || Digit(v, 5) == 127;
      assert Digit(v, 6) == 0 || Digit(v, 6) == 127;
      assert Digit(v, 7) == 0 || Digit(v, 7) == 127;
      assert Digit(v, 8) == 0 || Digit(v, 8) == 127;
    }
  }

  lemma GroupBits(a: nat, g: nat)
    requires g < 128
    ensures (128 * a + g) / 8 == 16 * a + g / 8 && (128 * a + g) / 16 == 8 * a + g / 16
  {
  }

  lemma TopBits(g: nat)
    requires g < 128
    ensures g / 16 < 8 && g / 16 == g / 8 / 2
    ensures g / 8 == 15 <==> g / 8 % 2 == 1 && g / 16 == 7
  {
  }

  /** The fifth group holds bit 31 and bits 32 to 34. */
  lemma GroupOfBit31(q: nat)
    ensures q % 128 / 8 % 2 == q / 8 % 2
    ensures q % 128 / 16 == q / 16 % 8
    ensures q % 128 / 8 == 15 <==> q / 8 % 2 == 1 && q / 16 % 8 == 7
  {
    var a, g := q / 128, q % 128;
    assert q == 128 * a + g;
    GroupBits(a, g);
    TopBits(g);
  }

  lemma SmallNumber(v: nat, q: nat, q1: nat, q2: nat, q3: nat, q4: nat, q5: nat)
    requires q == v / 0x1000_0000 && q1 == q / 128 && q2 == q1 / 128 && q3 == q2 / 128 && q4 == q3 / 128
    requires q5 == q4 / 128 < 128
    requires q % 128 / 16 == 0
    requires q1 % 128 == 0 && q2 % 128 == 0 && q3 % 128 == 0 && q4 % 128 == 0 && q5 % 128 == 0
    ensures v < TWO32
  {
    assert q5 == 0 && q4 == 0 && q3 == 0 && q2 == 0 && q1 == 0;
  }

  lemma UpperBits(v: nat, q: nat, q1: nat, q2: nat, q3: nat, q4: nat, q5: nat)
    requires q == v / 0x1000_0000 && q1 == q / 128 && q2 == q1 / 128 && q3 == q2 / 128 && q4 == q3 / 128
    requires q5 == q4 / 128
    ensures v / 0x8000_0000 == q / 8 && v / TWO32 == q / 16
    ensures v / 0x8_0000_0000 == q1 && v / 0x400_0000_0000 == q2 && v / 0x2_0000_0000_0000 == q3
    ensures v / 0x100_0000_0000_0000 == q4 && v / TWO63 == q5
  {
  }

  lemma UpperDigits(v: nat, q: nat, q1: nat, q2: nat, q3: nat, q4: nat, q5: nat)
    requires q == v / 0x1000_0000 && q1 == q / 128 && q2 == q1 / 128 && q3 == q2 / 128 && q4 == q3 / 128
    requires q5 == q4 / 128
    ensures Digit(v, 4) == q % 128 && Digit(v, 5) == q1 % 128 && Digit(v, 6) == q2 % 128
    ensures Digit(v, 7) == q3 % 128 && Digit(v, 8) == q4 % 128 && Digit(v, 9) == q5 % 128
  {
    DigitSkipFour(v, 4);
    DigitSkipFour(v, 5);
    DigitSkipFour(v, 6);
    DigitSkipFour(v, 7);
    DigitSkipFour(v, 8);
    DigitSkipFour(v, 9);
    DigitStep(q, 1);
    DigitStep(q, 2);
    DigitStep(q1, 1);
    DigitStep(q, 3);
    DigitStep(q1, 2);
    DigitStep(q2, 1);
    DigitStep(q, 4);
    DigitStep(q1, 3);
    DigitStep(q2, 2);
    DigitStep(q3, 1);
    DigitStep(q, 5);
    DigitStep(q1, 4);
    DigitStep(q2, 3);
    DigitStep(q3, 2);
    DigitStep(q4, 1);
  }

  /** With uniform groups, a number that does not fit 32 bits has bit 31 set. */
  lemma BitThirtyOne(v: nat, q: nat, q1: nat, q2: nat, q3: nat, q4: nat, q5: nat)
    requires v >= TWO32 && v < 128 * TWO63 && GroupsUniform(v)
    requires q == v / 0x1000_0000 && q1 == q / 128 && q2 == q1 / 128 && q3 == q2 / 128 && q4 == q3 / 128
    requires q5 == q4 / 128
    ensures q / 8 % 2 == 1
  {
    if q / 8 % 2 == 0 {
      UpperDigits(v, q, q1, q2, q3, q4, q5);
      UpperBits(v, q, q1, q2, q3, q4, q5);
      GroupOfBit31(q);
      SmallNumber(v, q, q1, q2, q3, q4, q5);
      assert false;
    }
  }

  /** The groups, cut out of the number */
  lemma UniformGroups(v: nat, q: nat)
    requires v < 128 * TWO63 && q == v / 0x1000_0000
    ensures GroupsUniform(v) <==> TakenAsExtension(v)
  {
    var q1 := q / 128;
    var q2 := q1 / 128;
    var q3 := q2 / 128;
    var q4 := q3 / 128;
    var q5 := q4 / 128;
    UpperDigits(v, q, q1, q2, q3, q4, q5);
    UpperBits(v, q, q1, q2, q3, q4, q5);
    GroupOfBit31(q);
    LastGroup(v, q5);
    if v < TWO32 {
      assert q < 16 && q1 == 0 && q2 == 0 && q3 == 0 && q4 == 0 && q5 == 0;
    } else {
      if GroupsUniform(v) { BitThirtyOne(v, q, q1, q2, q3, q4, q5); }
      LongNumber(v, q % 128, q1 % 128, q2 % 128, q3 % 128, q4 % 128, q5);
    }
  }

  /** The 32-bit decoder accepts a varint exactly if it has at most ten bytes, stands for such
      a number, and, with six to nine bytes, ends in a zero byte. */
  lemma Varint32Exact(s: seq<byte>)
    ensures Varint32(s).Ok? <==>
              && RawVarint(s).Ok?
              && ByteCount(s) <= 10
              && TakenAsExtension(RawVarint(s).value)
              && (6 <= ByteCount(s) <= 9 ==> s[ByteCount(s) - 1] == 0)
    ensures Varint32(s).Ok? ==> Varint32(s).value == RawVarint(s).value % TWO32
  {
    if RawVarint(s).Ok? && ByteCount(s) <= 10 {
      var v, n := RawVarint(s).value, ByteCount(s);
      RawBound(s);
      Pow128Mono(n, 10);
      Pow128Ten();
      NarrowIsUniform(s);
      UniformGroups(v, v / 0x1000_0000);
    }
  }

  /** The 32-bit decoder accepts every encoding, zero-padded up to ten bytes, of a value
      below 2^32. */
  lemma Varint32AcceptsPadded(s: seq<byte>)
    requires RawVarint(s).Ok? && ByteCount(s) <= 10
    requires RawVarint(s).value < TWO32
    ensures Varint32(s) == RawVarint(s)
  {
    var n := ByteCount(s);
    if n >= 6 {
      RawDigits(s, n - 1);
      DigitHigh(RawVarint(s).value, n - 1);
    }
    Varint32Exact(s);
  }

  lemma NegativeTaken(v: nat)
    requires TWO64 - 0x8000_0000 <= v < TWO64
    ensures TakenAsExtension(v)
  {
    assert v / 0x8000_0000 == 0x1_FFFF_FFFF;
    assert v / TWO32 == 0xFFFF_FFFF && v / 0x8_0000_0000 == 0x1FFF_FFFF;
    assert v / 0x400_0000_0000 == 0x3F_FFFF && v / 0x2_0000_0000_0000 == 0x7FFF;
    assert v / 0x100_0000_0000_0000 == 0xFF;
  }

  lemma LowWordOfNegative(v: nat)
    requires TWO64 - 0x8000_0000 <= v < TWO64
    ensures v % TWO32 == v - (TWO64 - TWO32)
  {
    assert v / TWO32 == TWO32 - 1;
  }

  lemma CanonicalLength(n: nat)
    ensures |VarintBytes(n)| <= 5 <==> n < 0x8_0000_0000
    ensures |VarintBytes(n)| <= 9 <==> n < TWO63
    ensures |VarintBytes(n)| <= 10 <==> n < 128 * TWO63
  {
    VarintBytesLen(n, 5);
    VarintBytesLen(n, 9);
    VarintBytesLen(n, 10);
    assert Pow128(5) == 128 * 128 * 128 * 128 * 128;
    Pow128Nine();
    Pow128Ten();
  }

  /** It also accepts the sign-extended form of every negative int32, as the 64-bit encoder
      writes it, and yields the low 32 bits. */
  lemma Varint32AcceptsNegative(k: nat, t: seq<byte>)
    requires 1 <= k <= 0x8000_0000
    ensures |VarintBytes(TWO64 - k)| == 10
    ensures Varint32(VarintBytes(TWO64 - k) + t) == Ok(TWO32 - k, t)
  {
    var v := TWO64 - k;
    RawOfBytes(v, t);
    CanonicalLength(v);
    NegativeTaken(v);
    Varint32Exact(VarintBytes(v) + t);
    LowWordOfNegative(v);
  }

  lemma Varint32OfBytes(v: nat, t: seq<byte>)
    requires v < TWO32
    ensures Varint32(VarintBytes(v) + t) == Ok(v, t)
  {
    RawOfBytes(v, t);
    Varint64OfBytes(v, t);
    Varint32AcceptsPadded(VarintBytes(v) + t);
  }

  /** What the decoder loses: it keeps the number, or its sign extension, exactly if that fits 32
      bits or is the extension of a negative int32; it accepts others and drops their high bits. */
  lemma Varint32KeepsNumber(s: seq<byte>)
    requires Varint32(s).Ok?
    ensures var v, r := RawVarint(s).value, Varint32(s).value;
            v == r || (r >= 0x8000_0000 && v == TWO64 - TWO32 + r) <==> v < TWO32 || TWO64 - 0x8000_0000 <= v < TWO64
  {
    var v, r := RawVarint(s).value, RawVarint(s).value % TWO32;
    if TWO64 - 0x8000_0000 <= v < TWO64 { LowWordOfNegative(v); }
    if v == TWO64 - TWO32 + r { assert r < TWO32; }
  }

  /** A number of 35 bits that loses its three highest */
  lemma Varint32Truncates()
    ensures var s: seq<byte> := [0x80, 0x80, 0x80, 0x80, 0x78];
            RawVarint(s) == Ok(0x7_8000_0000, []) && Varint32(s) == Ok(0x8000_0000, [])
  {
    var s: seq<byte> := [0x80, 0x80, 0x80, 0x80, 0x78];
    assert s[1..] == [0x80, 0x80, 0x80, 0x78] && s[1..][1..] == [0x80, 0x80, 0x78];
    assert s[1..][1..][1..] == [0x80, 0x78] && s[1..][1..][1..][1..] == [0x78];
    assert RawVarint([0x78]) == Ok(0x78, []);
    assert RawVarint([0x80, 0x78]) == Ok(0x3C00, []);
    assert RawVarint([0x80, 0x80, 0x78]) == Ok(0x1E_0000, []);
    assert RawVarint([0x80, 0x80, 0x80, 0x78]) == Ok(0xF00_0000, []);
    assert Narrow(s, 5);
  }

  //
  // Numbers above 32 bits, in the form that the encoder writes
  //

  /** A length that the decoder accepts, but not as it was written */
  predicate MisreadLength(n: nat) {
    n >= TWO32 && TakenAsExtension(n) && (n < 0x8_0000_0000 || n >= TWO63)
  }

  lemma {:induction false} LastByteNotZero(v: nat)
    requires v > 0
    ensures VarintBytes(v)[|VarintBytes(v)| - 1] > 0
  {
    if v >= 128 { LastByteNotZero(v / 128); }
  }

  /** The decoder refuses a length of 2^32 bytes or more, unless it misreads it. */
  lemma LongLength(n: nat, t: seq<byte>)
    requires n >= TWO32
    ensures Varint32(VarintBytes(n) + t).Ok? <==> MisreadLength(n)
  {
    var s := VarintBytes(n) + t;
    RawOfBytes(n, t);
    CanonicalLength(n);
    LastByteNotZero(n);
    Varint32Exact(s);
    assert ByteCount(s) == |VarintBytes(n)| && s[ByteCount(s) - 1] == VarintBytes(n)[ByteCount(s) - 1];
  }
}
