/** The largest encoding of a message type, as the generator declares it. */
module MaxSize {
  import opened Wire
  import opened Schema
  import opened Numbers
  import opened EncodeSpec

  function Times(n: nat, x: nat): nat {
    if n == 0 then 0 else x + Times(n - 1, x)
  }

  function Max(a: nat, b: nat): nat {
    if a > b then a else b
  }

  /** A payload of n bytes with its length prefix */
  function DelimitedLen(n: nat): nat {
    |VarintBytes(n)| + n
  }

  function MaxNum(k: Kind, size: nat): nat {
    match k
    case Bool => 1
    case UVarint | SVarint => if size == 1 then 2 else if size == 2 then 3 else if size == 4 then 5 else 10
    case Fixed32 => 4
    case Fixed64 => 8
    case _ => 10
  }

  function MaxContent(f: Field): nat
    decreases f, 0
  {
    match f.kind
    case String => DelimitedLen(if f.dataSize >= 1 then f.dataSize - 1 else 0)
    case Bytes => DelimitedLen(if f.dataSize >= 2 then f.dataSize - 2 else 0)
    case FixedLengthBytes => DelimitedLen(f.dataSize)
    case Submessage(desc) => DelimitedLen(MaxEncodedSize(desc))
    case _ => MaxNum(f.kind, f.dataSize)
  }

  function MaxBasic(f: Field): nat
    decreases f, 1
  {
    |TagBytes(f.tag, WireType(f.kind))| + MaxContent(f)
  }

  /** A field outside any oneof */
  function MaxField(f: Field): nat
    decreases f, 2
  {
    match f.rule
    case Repeated =>
      if Packable(f.kind) then
        |TagBytes(f.tag, WT_STRING)| + DelimitedLen(Times(f.arraySize, MaxNum(f.kind, f.dataSize)))
      else Times(f.arraySize, MaxBasic(f))
    case Oneof(_) => 0
    case _ => MaxBasic(f)
  }

  /** The first n fields outside oneofs */
  function MaxFields(d: MsgDesc, n: nat): nat
    requires n <= |d.fields|
    decreases d, 0, n
  {
    if n == 0 then 0 else MaxFields(d, n - 1) + MaxField(d.fields[n - 1])
  }

  /** The largest member of union u among the first n fields */
  function MaxMember(d: MsgDesc, u: nat, n: nat): nat
    requires n <= |d.fields|
    decreases d, 0, n
  {
    if n == 0 then 0
    else if d.fields[n - 1].rule == Oneof(u) then Max(MaxMember(d, u, n - 1), MaxBasic(d.fields[n - 1]))
    else MaxMember(d, u, n - 1)
  }

  function MaxUnions(d: MsgDesc, k: nat): nat
    decreases d, 1, k
  {
    if k == 0 then 0 else MaxUnions(d, k - 1) + MaxMember(d, k - 1, |d.fields|)
  }

  function MaxEncodedSize(d: MsgDesc): nat
    decreases d, 2
  {
    MaxFields(d, |d.fields|) + MaxUnions(d, d.unions)
  }

  //
  // No encoding is larger.
  //

  lemma DelimitedLenMono(a: nat, b: nat)
    requires a <= b
    ensures DelimitedLen(a) <= DelimitedLen(b)
  {
    VarintBytesMono(a, b);
  }

  lemma VarintLenWithin(v: nat, k: nat)
    requires k == 1 || k == 2 || k == 3 || k == 5 || k == 10
    requires v < (match k case 1 => 0x80 case 2 => 0x4000 case 3 => 0x20_0000 case 5 => 0x8_0000_0000 case _ => TWO64)
    ensures |VarintBytes(v)| <= k
  {
    VarintBytesLen(v, k);
    assert Pow128(1) == 128 && Pow128(2) == 128 * 128 && Pow128(3) == 128 * 128 * 128;
    assert Pow128(5) == 128 * 128 * Pow128(3);
    assert Pow128(8) == 128 * 128 * 128 * Pow128(5);
    assert Pow128(10) == 128 * 128 * Pow128(8);
  }

  lemma NumWithin(k: Kind, size: nat, n: int)
    requires InRange(k, size, n)
    ensures |EncodeNum(k, size, n)| <= MaxNum(k, size)
  {
    match k
    case Bool => VarintLenWithin(n, 1);
    case UVarint => VarintLenWithin(n, MaxNum(k, size));
    case SVarint => VarintLenWithin(Zigzag(n), MaxNum(k, size));
    case Varint => VarintLenWithin(Unsigned64(n), 10);
    case _ =>
  }

  lemma {:induction false} ContentWithin(f: Field, v: Value)
    requires ValidKind(f.kind, f.dataSize) && ValueTyped(f, v)
    ensures EncodeContent(f, v).Some? ==> |EncodeContent(f, v).value| <= MaxContent(f)
    ensures EncodeBasic(f, v).Some? ==> |EncodeBasic(f, v).value| <= MaxBasic(f)
    decreases f, 0
  {
    match v
    case Num(n) => NumWithin(f.kind, f.dataSize, n);
    case Str(s) =>
      if EncodeContent(f, v).Some? {
        var reserved := if f.kind.String? then 1 else if f.kind.Bytes? then 2 else 0;
        DelimitedLenMono(|s|, f.dataSize - reserved);
      }
    case Sub(m) =>
      EncodedSizeBounded(f.kind.desc, m);
      var p := EncodeMsg(f.kind.desc, m);
      if p.Some? { DelimitedLenMono(|p.value|, MaxEncodedSize(f.kind.desc)); }
  }

  lemma {:induction false} TimesMono(a: nat, b: nat, x: nat)
    requires a <= b
    ensures Times(a, x) <= Times(b, x)
  {
    if a > 0 { TimesMono(a - 1, b - 1, x); }
  }

  lemma {:induction false} ItemsWithin(f: Field, vs: seq<Value>)
    requires ValidKind(f.kind, f.dataSize) && forall k :: 0 <= k < |vs| ==> ValueTyped(f, vs[k])
    ensures EncodeItems(f, vs).Some? ==> |EncodeItems(f, vs).value| <= Times(|vs|, MaxBasic(f))
    decreases f, 1, |vs|
  {
    if vs != [] {
      ContentWithin(f, vs[0]);
      ItemsWithin(f, vs[1..]);
    }
  }

  lemma {:induction false} PackedWithin(f: Field, vs: seq<Value>)
    ensures EncodePacked(f, vs).Some? ==> |EncodePacked(f, vs).value| <= Times(|vs|, MaxNum(f.kind, f.dataSize))
  {
    if vs != [] && EncodePacked(f, vs).Some? {
      NumWithin(f.kind, f.dataSize, vs[0].n);
      PackedWithin(f, vs[1..]);
    }
  }

  lemma {:induction false} ArrayWithin(f: Field, vs: seq<Value>)
    requires ValidKind(f.kind, f.dataSize) && f.rule.Repeated? && forall k :: 0 <= k < |vs| ==> ValueTyped(f, vs[k])
    ensures EncodeArray(f, vs).Some? ==> |EncodeArray(f, vs).value| <= MaxField(f)
    decreases f, 2
  {
    if 0 < |vs| <= f.arraySize {
      if Packable(f.kind) {
        PackedWithin(f, vs);
        TimesMono(|vs|, f.arraySize, MaxNum(f.kind, f.dataSize));
        var p := EncodePacked(f, vs);
        if p.Some? { DelimitedLenMono(|p.value|, Times(f.arraySize, MaxNum(f.kind, f.dataSize))); }
      } else {
        ItemsWithin(f, vs);
        TimesMono(|vs|, f.arraySize, MaxBasic(f));
      }
    }
  }

  /** What field i adds to the encoding */
  function Cost(d: MsgDesc, m: Msg, i: nat): nat
    requires Shaped(d, m) && i < |d.fields|
  {
    match EncodeField(d, m, i) case None => 0 case Some(b) => |b|
  }

  /** The first n fields outside oneofs */
  function PlainCost(d: MsgDesc, m: Msg, n: nat): nat
    requires Shaped(d, m) && n <= |d.fields|
  {
    if n == 0 then 0
    else PlainCost(d, m, n - 1) + (if d.fields[n - 1].rule.Oneof? then 0 else Cost(d, m, n - 1))
  }

  /** The members of union u among the first n fields */
  function UnionCost(d: MsgDesc, m: Msg, u: nat, n: nat): nat
    requires Shaped(d, m) && n <= |d.fields|
  {
    if n == 0 then 0
    else UnionCost(d, m, u, n - 1) + (if d.fields[n - 1].rule == Oneof(u) then Cost(d, m, n - 1) else 0)
  }

  /** The first k unions */
  function UnionsCost(d: MsgDesc, m: Msg, k: nat, n: nat): nat
    requires Shaped(d, m) && n <= |d.fields|
  {
    if k == 0 then 0 else UnionsCost(d, m, k - 1, n) + UnionCost(d, m, k - 1, n)
  }

  function CostFrom(d: MsgDesc, m: Msg, i: nat): nat
    requires Shaped(d, m) && i <= |d.fields|
    decreases |d.fields| - i
  {
    if i == |d.fields| then 0 else Cost(d, m, i) + CostFrom(d, m, i + 1)
  }

  function CostUpTo(d: MsgDesc, m: Msg, n: nat): nat
    requires Shaped(d, m) && n <= |d.fields|
  {
    if n == 0 then 0 else CostUpTo(d, m, n - 1) + Cost(d, m, n - 1)
  }

  lemma {:induction false} CostSplit(d: MsgDesc, m: Msg, i: nat)
    requires Shaped(d, m) && i <= |d.fields|
    ensures CostUpTo(d, m, i) + CostFrom(d, m, i) == CostUpTo(d, m, |d.fields|)
    decreases |d.fields| - i
  {
    if i < |d.fields| { CostSplit(d, m, i + 1); }
  }

  lemma {:induction false} LengthIsCost(d: MsgDesc, m: Msg, i: nat)
    requires Shaped(d, m) && i <= |d.fields|
    ensures EncodeFields(d, m, i).Some? ==> |EncodeFields(d, m, i).value| == CostFrom(d, m, i)
    decreases |d.fields| - i
  {
    if i < |d.fields| { LengthIsCost(d, m, i + 1); }
  }

  /** Field n - 1 counts in its own union and in no other. */
  lemma {:induction false} UnionsCostStep(d: MsgDesc, m: Msg, k: nat, n: nat)
    requires Shaped(d, m) && 0 < n <= |d.fields|
    ensures var rule := d.fields[n - 1].rule;
            UnionsCost(d, m, k, n)
            == UnionsCost(d, m, k, n - 1) + (if rule.Oneof? && rule.union < k then Cost(d, m, n - 1) else 0)
  {
    if k > 0 { UnionsCostStep(d, m, k - 1, n); }
  }

  lemma {:induction false} NoUnionCost(d: MsgDesc, m: Msg, k: nat)
    requires Shaped(d, m)
    ensures UnionsCost(d, m, k, 0) == 0
  {
    if k > 0 { NoUnionCost(d, m, k - 1); }
  }

  /** Summing by field is summing by union. */
  lemma {:induction false} CostByUnion(d: MsgDesc, m: Msg, n: nat)
    requires ValidDesc(d) && Shaped(d, m) && n <= |d.fields|
    ensures CostUpTo(d, m, n) == PlainCost(d, m, n) + UnionsCost(d, m, d.unions, n)
  {
    if n == 0 {
      NoUnionCost(d, m, d.unions);
    } else {
      CostByUnion(d, m, n - 1);
      UnionsCostStep(d, m, d.unions, n);
    }
  }

  /** The length of an encoding */
  lemma EncodedLength(d: MsgDesc, m: Msg)
    requires ValidDesc(d) && Shaped(d, m) && EncodeMsg(d, m).Some?
    ensures |EncodeMsg(d, m).value| == PlainCost(d, m, |d.fields|) + UnionsCost(d, m, d.unions, |d.fields|)
  {
    LengthIsCost(d, m, 0);
    CostSplit(d, m, 0);
    CostByUnion(d, m, |d.fields|);
  }

  lemma {:induction false} PlainFieldWithin(d: MsgDesc, m: Msg, i: nat)
    requires ValidDesc(d) && Typed(d, m) && i < |d.fields|
    ensures !d.fields[i].rule.Oneof? ==> Cost(d, m, i) <= MaxField(d.fields[i])
    decreases d, 0, 0
  {
    var f, slot := d.fields[i], m.slots[i];
    assert SlotTyped(f, slot);
    match f.rule
    case Repeated => ArrayWithin(f, slot.vs);
    case Oneof(_) =>
    case _ => ContentWithin(f, slot.v);
  }

  lemma {:induction false} PlainWithin(d: MsgDesc, m: Msg, n: nat)
    requires ValidDesc(d) && Typed(d, m) && n <= |d.fields|
    ensures PlainCost(d, m, n) <= MaxFields(d, n)
    decreases d, 0, n
  {
    if n > 0 {
      PlainWithin(d, m, n - 1);
      PlainFieldWithin(d, m, n - 1);
    }
  }

  /** A union costs what the member it holds costs. */
  lemma {:induction false} OneMember(d: MsgDesc, m: Msg, u: nat, n: nat)
    requires ValidDesc(d) && Shaped(d, m) && n <= |d.fields| && u < d.unions
    ensures var k := Member(d, u, m.unions[u]);
            UnionCost(d, m, u, n) == if k.Some? && k.value < n then Cost(d, m, k.value) else 0
  {
    if n > 0 {
      OneMember(d, m, u, n - 1);
      if d.fields[n - 1].rule == Oneof(u) { FindTagUnique(d, n - 1); }
    }
  }

  lemma {:induction false} MemberWithin(d: MsgDesc, u: nat, i: nat, n: nat)
    requires i < n <= |d.fields| && d.fields[i].rule == Oneof(u)
    ensures MaxBasic(d.fields[i]) <= MaxMember(d, u, n)
  {
    if i < n - 1 { MemberWithin(d, u, i, n - 1); }
  }

  lemma {:induction false} UnionWithin(d: MsgDesc, m: Msg, u: nat)
    requires ValidDesc(d) && Typed(d, m) && u < d.unions
    ensures UnionCost(d, m, u, |d.fields|) <= MaxMember(d, u, |d.fields|)
    decreases d, 0
  {
    OneMember(d, m, u, |d.fields|);
    var i := Member(d, u, m.unions[u]);
    if i.Some? {
      ContentWithin(d.fields[i.value], m.unions[u].v);
      MemberWithin(d, u, i.value, |d.fields|);
    }
  }

  lemma {:induction false} UnionsWithin(d: MsgDesc, m: Msg, k: nat)
    requires ValidDesc(d) && Typed(d, m) && k <= d.unions
    ensures UnionsCost(d, m, k, |d.fields|) <= MaxUnions(d, k)
    decreases d, 1, k
  {
    if k > 0 {
      UnionsWithin(d, m, k - 1);
      UnionWithin(d, m, k - 1);
    }
  }

  /** No well-typed message encodes to more than the declared maximum of its type. */
  lemma {:induction false} EncodedSizeBounded(d: MsgDesc, m: Msg)
    requires ValidDesc(d) && Typed(d, m)
    ensures EncodeMsg(d, m).Some? ==> |EncodeMsg(d, m).value| <= MaxEncodedSize(d)
    decreases d, 2
  {
    if EncodeMsg(d, m).Some? {
      EncodedLength(d, m);
      PlainWithin(d, m, |d.fields|);
      UnionsWithin(d, m, d.unions);
    }
  }
}
