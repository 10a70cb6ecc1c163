/** Field descriptors packed into 1, 2, 4 or 8 words of 32 bits. */
module Descriptor {
  import opened Bits

  /** What one packed descriptor says about its field. */
  datatype FieldInfo = FieldInfo(
    tag: nat, code: nat, dataOffset: nat, dataSize: nat, sizeOffset: nat, arraySize: nat)

  // Type codes (PB_LTYPE, PB_HTYPE)
  const LTYPE_SUBMESSAGE: nat := 0x08
  const LTYPE_SUBMSG_W_CB: nat := 0x09
  const LTYPE_EXTENSION: nat := 0x0A
  const HTYPE_REQUIRED: nat := 0

  /** PB_ATYPE | PB_HTYPE | PB_LTYPE, the first two counted from their lowest bit */
  function TypeCode(ltype: nat, htype: nat, atype: nat): nat {
    Or(Or(Shl(atype, 6), Shl(htype, 4)), ltype)
  }

  lemma TypeMask(code: nat, ltype: nat, rest: nat)
    requires ltype < 0x10 && code == ltype + 0x10 * rest
    ensures And(code, 0x0F) == ltype
  {
    assert Pow2(4) == 0x10;
    LowMaskOfSum(ltype, rest, 4);
  }

  /** The bits from k to n, left in their place */
  lemma MiddleField(code: nat, low: nat, part: nat, q: nat, high: nat, k: nat, n: nat)
    requires k <= n && low < Pow2(k) && low + part < Pow2(n)
    requires code == low + Pow2(k) * q && code == low + part + Pow2(n) * high
    ensures Pow2(k) <= Pow2(n) && And(code, Pow2(n) - Pow2(k)) == part
  {
    AndMiddleMask(code, k, n);
    ShrOfSum(low, q, k);
    ShrOfSum(low + part, high, n);
  }

  lemma RuleMask(code: nat, ltype: nat, htype: nat, atype: nat)
    requires ltype < 0x10 && htype < 4 && code == ltype + 0x10 * (htype + 4 * atype)
    ensures And(code, 0x30) == Shl(htype, 4)
  {
    assert Pow2(4) == 0x10 && Pow2(6) == 0x40;
    MiddleField(code, ltype, 0x10 * htype, htype + 4 * atype, atype, 4, 6);
    ShlIsTimes(htype, 4);
  }

  lemma Powers()
    ensures Pow2(2) == 4 && Pow2(4) == 0x10 && Pow2(6) == 0x40 && Pow2(8) == 0x100 && Pow2(10) == 0x400
    ensures Pow2(12) == 0x1000 && Pow2(16) == 0x1_0000 && Pow2(22) == 0x40_0000 && Pow2(24) == 0x100_0000
    ensures Pow2(28) == 0x1000_0000 && Pow2(32) == 0x1_0000_0000
  {
  }

  lemma TypeCodeValue(ltype: nat, htype: nat, atype: nat)
    requires ltype < 0x10 && htype < 4 && atype < 4
    ensures TypeCode(ltype, htype, atype) == ltype + 0x10 * (htype + 4 * atype)
  {
    Powers();
    ShlIsTimes(atype, 6);
    ShlIsTimes(htype, 4);
    ShrOfSum(0, atype, 6);
    OrDisjointHigh(0x40 * atype, 0x10 * htype, 6);
    ShrOfSum(0, htype + 4 * atype, 4);
    OrDisjointHigh(0x10 * (htype + 4 * atype), ltype, 4);
  }

  /** The type masks pick the parts out again. */
  lemma TypeMasks(ltype: nat, htype: nat, atype: nat)
    requires ltype < 0x10 && htype < 4 && atype < 4
    ensures var code := TypeCode(ltype, htype, atype);
            && code == ltype + 0x10 * (htype + 4 * atype) && code < 0x100
            && And(code, 0x0F) == ltype
            && And(code, 0x30) == Shl(htype, 4)
  {
    var code := ltype + 0x10 * (htype + 4 * atype);
    TypeCodeValue(ltype, htype, atype);
    TypeMask(code, ltype, htype + 4 * atype);
    RuleMask(code, ltype, htype, atype);
  }

  datatype Width = One | Two | Four | Eight

  /** The two lowest bits of the first word */
  function WidthBits(w: Width): nat {
    match w case One => 0 case Two => 1 case Four => 2 case Eight => 3
  }

  function Words(w: Width): nat {
    match w case One => 1 case Two => 2 case Four => 4 case Eight => 8
  }

  /** (uint32_t)(int_least8_t)x */
  function SignExtend8(x: nat): nat {
    if x % 0x100 < 0x80 then x % 0x100 else 0xFFFF_FF00 + x % 0x100
  }

  /** PB_FIELDINFO_ASSERT_4 and PB_FIELDINFO_ASSERT_8 */
  predicate Asserted(f: FieldInfo) {
    && f.tag < 0x1_0000 && f.dataOffset < 0x1_0000 && SignExtend8(f.sizeOffset) < 0x100
    && f.dataSize < 0x1_0000 && f.arraySize < 0x1_0000
  }

  /** The attributes fit the format. */
  predicate InFormat(w: Width, f: FieldInfo) {
    && f.code < 0x100
    && match w
       case One =>
         f.tag < 0x40 && f.dataOffset < 0x100 && f.sizeOffset < 0x10 && f.dataSize < 0x10 && f.arraySize == 1
       case Two =>
         f.tag < 0x400 && f.dataOffset < 0x1_0000 && f.sizeOffset < 0x10 && f.dataSize < 0x1000
         && f.arraySize < 0x1000
       case Four | Eight => Asserted(f) && f.sizeOffset < 0x80
  }

  //
  // PB_FIELDINFO_1, _2, _4 and _8
  //

  /** The part common to all formats: width, low six tag bits and type */
  function Head(w: Width, f: FieldInfo): nat {
    Or(Or(WidthBits(w), And(Shl(f.tag, 2), 0xFF)), Shl(f.code, 8))
  }

  function PackOne(f: FieldInfo): nat {
    Or(Or(Or(Head(One, f), Shl(And(f.dataOffset, 0xFF), 16)), Shl(And(f.sizeOffset, 0x0F), 24)),
       Shl(And(f.dataSize, 0x0F), 28))
  }

  function PackTwoFirst(f: FieldInfo): nat {
    Or(Or(Head(Two, f), Shl(And(f.arraySize, 0xFFF), 16)), Shl(And(f.sizeOffset, 0x0F), 28))
  }

  function PackTwoSecond(f: FieldInfo): nat {
    Or(Or(And(f.dataOffset, 0xFFFF), Shl(And(f.dataSize, 0xFFF), 16)), Shl(And(f.tag, 0x3C0), 22))
  }

  function PackFourFirst(f: FieldInfo): nat {
    Or(Head(Four, f), Shl(And(f.arraySize, 0xFFFF), 16))
  }

  function PackSecond(f: FieldInfo): nat {
    Or(SignExtend8(f.sizeOffset), And(Shl(f.tag, 2), 0xFFFF_FF00))
  }

  function Pack(w: Width, f: FieldInfo): (r: seq<nat>)
    ensures |r| == Words(w)
  {
    match w
    case One => [PackOne(f)]
    case Two => [PackTwoFirst(f), PackTwoSecond(f)]
    case Four => [PackFourFirst(f), PackSecond(f), f.dataOffset, f.dataSize]
    case Eight => [Head(Eight, f), PackSecond(f), f.dataOffset, f.dataSize, f.arraySize, 0, 0, 0]
  }

  //
  // load_descriptor_values
  //

  function CodeOf(word0: nat): nat {
    And(Shr(word0, 8), 0xFF)
  }

  function LowTag(word0: nat): nat {
    And(Shr(word0, 2), 0x3F)
  }

  /** How many words the descriptor that starts with word0 takes */
  function LengthOf(word0: nat): nat {
    Shl(1, And(word0, 3))
  }

  /** The descriptor at the head of a list of five words, of which it uses what it needs */
  function LoadWords(w0: nat, w1: nat, w2: nat, w3: nat, w4: nat): FieldInfo {
    if And(w0, 3) == 0 then
      FieldInfo(LowTag(w0), CodeOf(w0), And(Shr(w0, 16), 0xFF), And(Shr(w0, 28), 0x0F), And(Shr(w0, 24), 0x0F), 1)
    else if And(w0, 3) == 1 then
      FieldInfo(Or(LowTag(w0), Shl(Shr(w1, 28), 6)), CodeOf(w0), And(w1, 0xFFFF), And(Shr(w1, 16), 0x0FFF),
                And(Shr(w0, 28), 0x0F), And(Shr(w0, 16), 0x0FFF))
    else
      FieldInfo(Or(LowTag(w0), Shl(Shr(w1, 8), 6)), CodeOf(w0), w2, w3, And(w1, 0xFF),
                if And(w0, 3) == 2 then Shr(w0, 16) else w4)
  }

  lemma LengthCases(word0: nat)
    ensures And(word0, 3) < 4
    ensures LengthOf(word0) == match And(word0, 3) case 0 => 1 case 1 => 2 case 2 => 4 case _ => 8
  {
    AndLowMask(word0, 2);
    Split(word0, 2);
    assert Pow2(2) == 4;
  }

  /** The descriptor that starts at word index at */
  function Load(t: seq<nat>, at: nat): FieldInfo
    requires at < |t| && at + LengthOf(t[at]) <= |t|
  {
    LengthCases(t[at]);
    var b := And(t[at], 3);
    LoadWords(t[at], if b >= 1 then t[at + 1] else 0, if b >= 2 then t[at + 2] else 0,
              if b >= 2 then t[at + 3] else 0, if b >= 3 then t[at + 4] else 0)
  }

  //
  // Bits of a word
  //

  // x & (2^k - 1) of a number of k bits

  lemma Masked4(x: nat)
    requires x < 0x10
    ensures And(x, 0x0F) == x
  {
    Powers();
    LowMaskOfSum(x, 0, 4);
  }

  lemma Masked8(x: nat)
    requires x < 0x100
    ensures And(x, 0xFF) == x
  {
    Powers();
    LowMaskOfSum(x, 0, 8);
  }

  lemma Masked12(x: nat)
    requires x < 0x1000
    ensures And(x, 0xFFF) == x
  {
    Powers();
    LowMaskOfSum(x, 0, 12);
  }

  lemma Masked16(x: nat)
    requires x < 0x1_0000
    ensures And(x, 0xFFFF) == x
  {
    Powers();
    LowMaskOfSum(x, 0, 16);
  }

  /** Adding a field above the bits in use */
  lemma Above(acc: nat, x: nat, s: nat)
    requires acc < Pow2(s)
    ensures Or(acc, Shl(x, s)) == acc + Pow2(s) * x
  {
    LowOfShl(x, s);
    OrDisjoint(acc, Shl(x, s), s);
    ShlIsTimes(x, s);
  }

  lemma Above8(acc: nat, x: nat)
    requires acc < 0x100
    ensures Or(acc, Shl(x, 8)) == acc + 0x100 * x
  {
    Powers();
    Above(acc, x, 8);
  }

  lemma Above16(acc: nat, x: nat)
    requires acc < 0x1_0000
    ensures Or(acc, Shl(x, 16)) == acc + 0x1_0000 * x
  {
    Powers();
    Above(acc, x, 16);
  }

  lemma Above24(acc: nat, x: nat)
    requires acc < 0x100_0000
    ensures Or(acc, Shl(x, 24)) == acc + 0x100_0000 * x
  {
    Powers();
    Above(acc, x, 24);
  }

  lemma Above28(acc: nat, x: nat)
    requires acc < 0x1000_0000
    ensures Or(acc, Shl(x, 28)) == acc + 0x1000_0000 * x
  {
    Powers();
    Above(acc, x, 28);
  }

  lemma LowTwo(b: nat, t: nat)
    requires b < 4
    ensures Or(b, 4 * t) == b + 4 * t
  {
    Powers();
    Above(b, t, 2);
    ShlIsTimes(t, 2);
  }

  lemma TagBits(tag: nat)
    ensures And(Shl(tag, 2), 0xFF) == 4 * (tag % 0x40)
  {
    Powers();
    ShlIsTimes(tag, 2);
    assert 4 * tag == 4 * (tag % 0x40) + 0x100 * (tag / 0x40);
    LowMaskOfSum(4 * (tag % 0x40), tag / 0x40, 8);
  }

  lemma HeadValue(w: Width, f: FieldInfo)
    requires f.code < 0x100
    ensures Head(w, f) == WidthBits(w) + 4 * (f.tag % 0x40) + 0x100 * f.code
    ensures Head(w, f) < 0x1_0000
  {
    TagBits(f.tag);
    LowTwo(WidthBits(w), f.tag % 0x40);
    Above8(WidthBits(w) + 4 * (f.tag % 0x40), f.code);
  }

  lemma TagDigits(w: nat, b: nat, t: nat, rest: nat)
    requires b < 4 && t < 0x40 && w == b + 4 * (t + 0x40 * rest)
    ensures And(w, 3) == b && LowTag(w) == t
  {
    Powers();
    ReadField(w, b, t + 0x40 * rest, t, rest, 2, 6);
    AndLowMask(w, 2);
  }

  lemma CodeDigits(w: nat, lo: nat, c: nat, high: nat)
    requires lo < 0x100 && c < 0x100 && w == lo + 0x100 * (c + 0x100 * high)
    ensures CodeOf(w) == c && Shr(w, 16) == high
  {
    Powers();
    ReadField(w, lo, c + 0x100 * high, c, high, 8, 8);
    ShrOfSum(lo + 0x100 * c, high, 16);
  }

  lemma HeadDigits(b: nat, t: nat, c: nat, high: nat)
    requires b < 4 && t < 0x40 && c < 0x100
    ensures var w := b + 4 * t + 0x100 * c + 0x1_0000 * high;
            And(w, 3) == b && LowTag(w) == t && CodeOf(w) == c && Shr(w, 16) == high
  {
    var w := b + 4 * t + 0x100 * c + 0x1_0000 * high;
    TagDigits(w, b, t, c + 0x100 * high);
    CodeDigits(w, b + 4 * t, c, high);
  }

  /** A word whose low half is a head, read back */
  lemma HeadParts(word0: nat, w: Width, f: FieldInfo, high: nat)
    requires f.code < 0x100 && word0 == Head(w, f) + 0x1_0000 * high
    ensures And(word0, 3) == WidthBits(w)
    ensures LowTag(word0) == f.tag % 0x40
    ensures CodeOf(word0) == f.code
    ensures Shr(word0, 16) == high
    ensures LengthOf(word0) == Words(w)
  {
    HeadValue(w, f);
    HeadDigits(WidthBits(w), f.tag % 0x40, f.code, high);
    LengthCases(word0);
  }

  /** The tag from its low six bits and the rest */
  lemma JoinTag(tag: nat)
    ensures Or(tag % 0x40, Shl(tag / 0x40, 6)) == tag
  {
    Powers();
    Above(tag % 0x40, tag / 0x40, 6);
  }

  lemma OneWord(f: FieldInfo)
    requires InFormat(One, f)
    ensures PackOne(f) == Head(One, f) + 0x1_0000 * (f.dataOffset + 0x100 * f.sizeOffset + 0x1000 * f.dataSize)
    ensures PackOne(f) < 0x1_0000_0000
  {
    HeadValue(One, f);
    Masked8(f.dataOffset);
    Masked4(f.sizeOffset);
    Masked4(f.dataSize);
    var h := Head(One, f);
    Above16(h, f.dataOffset);
    var h1 := h + 0x1_0000 * f.dataOffset;
    Above24(h1, f.sizeOffset);
    Above28(h1 + 0x100_0000 * f.sizeOffset, f.dataSize);
  }

  /** A one-word descriptor from its fields */
  lemma LoadOneFrom(w: nat, f: FieldInfo)
    requires And(w, 3) == 0 && LowTag(w) == f.tag && CodeOf(w) == f.code && f.arraySize == 1
    requires And(Shr(w, 16), 0xFF) == f.dataOffset && And(Shr(w, 24), 0x0F) == f.sizeOffset
    requires And(Shr(w, 28), 0x0F) == f.dataSize
    ensures LengthOf(w) == 1 && Load([w], 0) == f
  {
    LengthCases(w);
  }

  lemma OneHead(f: FieldInfo, w: nat)
    requires f.code < 0x100 && f.tag < 0x40
    requires w == Head(One, f) + 0x1_0000 * (f.dataOffset + 0x100 * f.sizeOffset + 0x1000 * f.dataSize)
    ensures And(w, 3) == 0 && LowTag(w) == f.tag && CodeOf(w) == f.code
  {
    HeadParts(w, One, f, f.dataOffset + 0x100 * f.sizeOffset + 0x1000 * f.dataSize);
  }

  lemma OneDigits(w: nat, h: nat, o: nat, z: nat, d: nat)
    requires h < 0x1_0000 && o < 0x100 && z < 0x10 && d < 0x10
    requires w == h + 0x1_0000 * (o + 0x100 * z + 0x1000 * d)
    ensures And(Shr(w, 16), 0xFF) == o && And(Shr(w, 24), 0x0F) == z && And(Shr(w, 28), 0x0F) == d
  {
    Powers();
    ReadField(w, h, o + 0x100 * (z + 0x10 * d), o, z + 0x10 * d, 16, 8);
    ReadField(w, h + 0x1_0000 * o, z + 0x10 * d, z, d, 24, 4);
    ReadField(w, h + 0x1_0000 * o + 0x100_0000 * z, d, d, 0, 28, 4);
  }

  lemma OneTail(f: FieldInfo, w: nat)
    requires f.code < 0x100 && f.dataOffset < 0x100 && f.sizeOffset < 0x10 && f.dataSize < 0x10
    requires w == Head(One, f) + 0x1_0000 * (f.dataOffset + 0x100 * f.sizeOffset + 0x1000 * f.dataSize)
    ensures And(Shr(w, 16), 0xFF) == f.dataOffset && And(Shr(w, 24), 0x0F) == f.sizeOffset
    ensures And(Shr(w, 28), 0x0F) == f.dataSize
  {
    HeadValue(One, f);
    OneDigits(w, Head(One, f), f.dataOffset, f.sizeOffset, f.dataSize);
  }

  lemma LoadOne(f: FieldInfo)
    requires InFormat(One, f)
    ensures LengthOf(Pack(One, f)[0]) == 1 && Load(Pack(One, f), 0) == f
    ensures PackOne(f) < 0x1_0000_0000
  {
    OneWord(f);
    OneHead(f, PackOne(f));
    OneTail(f, PackOne(f));
    LoadOneFrom(PackOne(f), f);
  }

  lemma TopTagBits(tag: nat)
    requires tag < 0x400
    ensures And(tag, 0x3C0) == 0x40 * (tag / 0x40)
  {
    Powers();
    AndHighMask(tag, 6, 10);
    ShrOfSum(tag % 0x40, tag / 0x40, 6);
  }

  /** (tag & 0x3C0) << 22 */
  lemma TagTop(tag: nat)
    requires tag < 0x400
    ensures Shl(And(tag, 0x3C0), 22) == Shl(tag / 0x40, 28)
  {
    TopTagBits(tag);
    Powers();
    ShlIsTimes(0x40 * (tag / 0x40), 22);
    ShlIsTimes(tag / 0x40, 28);
  }

  lemma TwoWordsSecond(f: FieldInfo)
    requires f.dataOffset < 0x1_0000 && f.dataSize < 0x1000 && f.tag < 0x400
    ensures PackTwoSecond(f) == f.dataOffset + 0x1_0000 * (f.dataSize + 0x1000 * (f.tag / 0x40))
    ensures PackTwoSecond(f) < 0x1_0000_0000
  {
    var t := f.tag / 0x40;
    assert t < 0x10;
    Masked16(f.dataOffset);
    Masked12(f.dataSize);
    Above16(f.dataOffset, f.dataSize);
    TagTop(f.tag);
    var acc := f.dataOffset + 0x1_0000 * f.dataSize;
    Above28(acc, t);
    assert PackTwoSecond(f) == acc + 0x1000_0000 * t;
  }

  lemma TwoWordsFirst(f: FieldInfo)
    requires InFormat(Two, f)
    ensures PackTwoFirst(f) == Head(Two, f) + 0x1_0000 * (f.arraySize + 0x1000 * f.sizeOffset)
    ensures PackTwoFirst(f) < 0x1_0000_0000
  {
    HeadValue(Two, f);
    Masked12(f.arraySize);
    Masked4(f.sizeOffset);
    var h := Head(Two, f);
    Above16(h, f.arraySize);
    Above28(h + 0x1_0000 * f.arraySize, f.sizeOffset);
  }

  lemma TwoWords(f: FieldInfo)
    requires InFormat(Two, f)
    ensures PackTwoFirst(f) == Head(Two, f) + 0x1_0000 * (f.arraySize + 0x1000 * f.sizeOffset)
    ensures PackTwoFirst(f) < 0x1_0000_0000
    ensures PackTwoSecond(f) == f.dataOffset + 0x1_0000 * (f.dataSize + 0x1000 * (f.tag / 0x40))
    ensures PackTwoSecond(f) < 0x1_0000_0000
  {
    TwoWordsFirst(f);
    TwoWordsSecond(f);
  }

  lemma TwoDigits(w: nat, h: nat, a: nat, z: nat)
    requires h < 0x1_0000 && a < 0x1000 && z < 0x10
    requires w == h + 0x1_0000 * (a + 0x1000 * z)
    ensures And(w, 0xFFFF) == h
    ensures And(Shr(w, 16), 0xFFF) == a && And(Shr(w, 28), 0x0F) == z && Shr(w, 28) == z
  {
    Powers();
    ReadField(w, h, a + 0x1000 * z, a, z, 16, 12);
    AndLowMask(w, 16);
    ReadField(w, h + 0x1_0000 * a, z, z, 0, 28, 4);
  }

  lemma LoadTwo(f: FieldInfo)
    requires InFormat(Two, f)
    ensures LengthOf(Pack(Two, f)[0]) == 2 && Load(Pack(Two, f), 0) == f
    ensures PackTwoFirst(f) < 0x1_0000_0000 && PackTwoSecond(f) < 0x1_0000_0000
  {
    TwoWords(f);
    HeadValue(Two, f);
    HeadParts(PackTwoFirst(f), Two, f, f.arraySize + 0x1000 * f.sizeOffset);
    TwoDigits(PackTwoFirst(f), Head(Two, f), f.arraySize, f.sizeOffset);
    TwoDigits(PackTwoSecond(f), f.dataOffset, f.dataSize, f.tag / 0x40);
    JoinTag(f.tag);
  }

  lemma HighBytes(x: nat, low: nat, high: nat)
    requires low < 0x100 && x == low + 0x100 * high && x < 0x1_0000_0000
    ensures And(x, 0xFFFF_FF00) == Shl(high, 8)
  {
    Powers();
    AndHighMask(x, 8, 32);
    ShrOfSum(low, high, 8);
    ShlIsTimes(high, 8);
  }

  /** (tag << 2) & 0xFFFFFF00 */
  lemma HighTagBits(tag: nat)
    requires tag < 0x1_0000
    ensures And(Shl(tag, 2), 0xFFFF_FF00) == Shl(tag / 0x40, 8)
  {
    assert Pow2(2) == 4;
    ShlIsTimes(tag, 2);
    HighBytes(4 * tag, 4 * (tag % 0x40), tag / 0x40);
  }

  lemma SecondDigits(z: nat, t: nat)
    requires z < 0x100
    ensures And(z + 0x100 * t, 0xFF) == z && Shr(z + 0x100 * t, 8) == t
  {
    Powers();
    ShrOfSum(z, t, 8);
    LowMaskOfSum(z, t, 8);
  }

  /** The second word of the two wide formats */
  lemma SecondWord(f: FieldInfo)
    requires Asserted(f)
    ensures PackSecond(f) == f.sizeOffset % 0x100 + 0x100 * (f.tag / 0x40) < 0x1_0000_0000
    ensures And(PackSecond(f), 0xFF) == f.sizeOffset % 0x100 && Shr(PackSecond(f), 8) == f.tag / 0x40
    ensures f.sizeOffset % 0x100 < 0x80
  {
    HighTagBits(f.tag);
    var z := f.sizeOffset % 0x100;
    Above8(z, f.tag / 0x40);
    SecondDigits(z, f.tag / 0x40);
  }

  /** In the wide formats everything comes back but the size offset modulo 256. */
  lemma LoadWide(w: Width, f: FieldInfo)
    requires w.Four? || w.Eight?
    requires f.code < 0x100 && Asserted(f)
    ensures LengthOf(Pack(w, f)[0]) == Words(w)
    ensures Load(Pack(w, f), 0) == f.(sizeOffset := f.sizeOffset % 0x100)
    ensures forall k :: 0 <= k < Words(w) ==> Pack(w, f)[k] < 0x1_0000_0000
  {
    HeadValue(w, f);
    Masked16(f.arraySize);
    Above16(Head(w, f), f.arraySize);
    HeadParts(Pack(w, f)[0], w, f, if w.Four? then f.arraySize else 0);
    SecondWord(f);
    JoinTag(f.tag);
  }

  lemma OffsetKept(x: nat)
    requires SignExtend8(x) < 0x100
    ensures x % 0x100 == x <==> x < 0x80
  {
  }

  lemma LoadWideExact(w: Width, f: FieldInfo)
    requires (w.Four? || w.Eight?) && InFormat(w, f)
    ensures LengthOf(Pack(w, f)[0]) == Words(w)
    ensures Load(Pack(w, f), 0) == f
    ensures forall k :: 0 <= k < Words(w) ==> Pack(w, f)[k] < 0x1_0000_0000
  {
    LoadWide(w, f);
    OffsetKept(f.sizeOffset);
  }

  /** Reading a packed descriptor recovers exactly what was packed, and its length. */
  lemma LoadInvertsPack(w: Width, f: FieldInfo)
    requires InFormat(w, f)
    ensures LengthOf(Pack(w, f)[0]) == Words(w)
    ensures Load(Pack(w, f), 0) == f
    ensures forall k :: 0 <= k < Words(w) ==> Pack(w, f)[k] < 0x1_0000_0000
  {
    match w
    case One => LoadOne(f);
    case Two => LoadTwo(f);
    case Four | Eight => LoadWideExact(w, f);
  }

  /** Bits 2 to 7 and 8 to 15 of the first word: six tag bits and the type code */
  function LowWord(f: FieldInfo): nat {
    4 * (f.tag % 0x40) + 0x100 * f.code
  }

  /** The words of the four formats, as sums */
  function WordSums(w: Width, f: FieldInfo): seq<nat> {
    var low, t := LowWord(f), f.tag / 0x40;
    match w
    case One => [low + 0x1_0000 * f.dataOffset + 0x100_0000 * f.sizeOffset + 0x1000_0000 * f.dataSize]
    case Two =>
      [1 + low + 0x1_0000 * f.arraySize + 0x1000_0000 * f.sizeOffset,
       f.dataOffset + 0x1_0000 * f.dataSize + 0x1000_0000 * t]
    case Four => [2 + low + 0x1_0000 * f.arraySize, f.sizeOffset + 0x100 * t, f.dataOffset, f.dataSize]
    case Eight => [3 + low, f.sizeOffset + 0x100 * t, f.dataOffset, f.dataSize, f.arraySize, 0, 0, 0]
  }

  lemma OneFirstSum(f: FieldInfo)
    requires InFormat(One, f)
    ensures PackOne(f) == LowWord(f) + 0x1_0000 * f.dataOffset + 0x100_0000 * f.sizeOffset + 0x1000_0000 * f.dataSize
  {
    HeadValue(One, f);
    OneWord(f);
  }

  lemma OneSum(f: FieldInfo)
    requires InFormat(One, f)
    ensures Pack(One, f) == WordSums(One, f)
  {
    OneFirstSum(f);
    assert Pack(One, f) == [PackOne(f)];
  }

  lemma TwoSums(f: FieldInfo)
    requires InFormat(Two, f)
    ensures Pack(Two, f) == WordSums(Two, f)
  {
    HeadValue(Two, f);
    TwoWords(f);
  }

  lemma SecondSum(f: FieldInfo)
    requires Asserted(f) && f.sizeOffset < 0x80
    ensures PackSecond(f) == f.sizeOffset + 0x100 * (f.tag / 0x40)
  {
    SecondWord(f);
    assert f.sizeOffset % 0x100 == f.sizeOffset;
  }

  lemma FourFirstSum(f: FieldInfo)
    requires f.code < 0x100 && f.arraySize < 0x1_0000
    ensures PackFourFirst(f) == 2 + LowWord(f) + 0x1_0000 * f.arraySize
  {
    HeadValue(Four, f);
    Masked16(f.arraySize);
    Above16(Head(Four, f), f.arraySize);
  }

  lemma FourSums(f: FieldInfo)
    requires InFormat(Four, f)
    ensures Pack(Four, f) == WordSums(Four, f)
  {
    FourFirstSum(f);
    SecondSum(f);
  }

  lemma EightFirstSum(f: FieldInfo)
    requires f.code < 0x100
    ensures Head(Eight, f) == 3 + LowWord(f)
  {
    HeadValue(Eight, f);
  }

  lemma EightSums(f: FieldInfo)
    requires InFormat(Eight, f)
    ensures Pack(Eight, f) == WordSums(Eight, f)
  {
    EightFirstSum(f);
    SecondSum(f);
    assert Pack(Eight, f) == [Head(Eight, f), PackSecond(f), f.dataOffset, f.dataSize, f.arraySize, 0, 0, 0];
  }

  /** What the macros shift and mask together are these sums. */
  lemma PackedWords(w: Width, f: FieldInfo)
    requires InFormat(w, f)
    ensures Pack(w, f) == WordSums(w, f)
  {
    match w
    case One => OneSum(f);
    case Two => TwoSums(f);
    case Four => FourSums(f);
    case Eight => EightSums(f);
  }

  /** The static assertion of the wide formats is weaker than that: it lets through a size
      offset of 256, which is packed as 0. Among what it lets through, exactly the offsets
      below 128 come back. */
  lemma WideAssertionTooWeak(w: Width, f: FieldInfo)
    requires w.Four? || w.Eight?
    requires f.code < 0x100 && Asserted(f)
    ensures LengthOf(Pack(w, f)[0]) == Words(w)
    ensures Load(Pack(w, f), 0) == f <==> f.sizeOffset < 0x80
    ensures Asserted(f.(sizeOffset := 0x100))
  {
    LoadWide(w, f);
    OffsetKept(f.sizeOffset);
  }
}
