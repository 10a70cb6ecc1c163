/** The declared maximum is attained. */
module MaxAttained {
  import opened Wire
  import opened Schema
  import opened Numbers
  import opened EncodeSpec
  import opened MaxSize
  import opened Lengths

  //
  // Singular fields are left out when they are zero, so each has to have another value.
  //

  /** The field's kind has a value that is not zero. */
  predicate Varies(f: Field)
    decreases f, 0
  {
    match f.kind
    case String => f.dataSize >= 2
    case Bytes => f.dataSize >= 3
    case FixedLengthBytes => f.dataSize >= 1
    case Submessage(desc) => MsgVaries(desc)
    case _ => true
  }

  /** The field can be written. */
  predicate CanBeWritten(f: Field)
    decreases f, 1
  {
    f.rule.Singular? ==> Varies(f)
  }

  predicate MsgVaries(d: MsgDesc)
    decreases d
  {
    exists i :: 0 <= i < |d.fields| && CanBeWritten(d.fields[i])
  }

  //
  // Which types have a message of the maximum size
  //

  predicate NestedAttains(f: Field)
    decreases f, 0
  {
    f.kind.Submessage? ==> Attains(f.kind.desc)
  }

  /** Field i is a largest member of union u, and reaches its size. */
  predicate Fills(d: MsgDesc, u: nat, i: nat)
    requires i < |d.fields|
    decreases d, 0
  {
    && d.fields[i].rule == Oneof(u)
    && MaxBasic(d.fields[i]) == MaxMember(d, u, |d.fields|)
    && NestedAttains(d.fields[i])
  }

  predicate UnionAttains(d: MsgDesc, u: nat)
    decreases d, 1
  {
    MaxMember(d, u, |d.fields|) == 0 || exists i :: 0 <= i < |d.fields| && Fills(d, u, i)
  }

  predicate FieldAttains(f: Field)
    decreases f, 1
  {
    f.rule.Oneof? || (CanBeWritten(f) && NestedAttains(f))
  }

  /** Every field outside oneofs can be written and reaches its size, and so does some largest
      member of each union. */
  predicate Attains(d: MsgDesc)
    decreases d, 2
  {
    && (forall i :: 0 <= i < |d.fields| ==> FieldAttains(d.fields[i]))
    && forall u :: 0 <= u < d.unions ==> UnionAttains(d, u)
  }

  //
  // A message of the maximum size
  //

  /** A number of the kind with the longest encoding */
  function WorstNum(k: Kind, size: nat): int {
    match k
    case UVarint => 2 * HalfRange(size) - 1
    case SVarint => -HalfRange(size)
    case Varint => -1
    case _ => 1
  }

  function WorstValue(f: Field): Value
    decreases f, 0
  {
    match f.kind
    case String => Str(seq(if f.dataSize >= 1 then f.dataSize - 1 else 0, _ => 1))
    case Bytes => Str(Zeros(if f.dataSize >= 2 then f.dataSize - 2 else 0))
    case FixedLengthBytes => Str(Zeros(f.dataSize))
    case Submessage(desc) => Sub(WorstMsg(desc))
    case _ => Num(WorstNum(f.kind, f.dataSize))
  }

  /** n copies of a value */
  function Copies(v: Value, n: nat): (r: seq<Value>)
    ensures |r| == n && forall k :: 0 <= k < n ==> r[k] == v
  {
    if n == 0 then [] else [v] + Copies(v, n - 1)
  }

  function WorstSlot(f: Field): Slot
    decreases f, 1
  {
    match f.rule
    case Required | Singular => Single(WorstValue(f))
    case Optional => Flagged(true, WorstValue(f))
    case Repeated => Items(Copies(WorstValue(f), f.arraySize))
    case Oneof(_) => InUnion
  }

  /** The first member that fills union u, among those from the n-th on */
  function FillingMember(d: MsgDesc, u: nat, n: nat): (r: Option<nat>)
    requires n <= |d.fields|
    ensures r.Some? ==> r.value < |d.fields| && Fills(d, u, r.value)
    ensures r.None? ==> forall i :: n <= i < |d.fields| ==> !Fills(d, u, i)
    decreases |d.fields| - n
  {
    if n == |d.fields| then None else if Fills(d, u, n) then Some(n) else FillingMember(d, u, n + 1)
  }

  function WorstUnion(d: MsgDesc, u: nat): Union
    decreases d, 1
  {
    match FillingMember(d, u, 0)
    case None => NO_MEMBER
    case Some(i) => Union(d.fields[i].tag, WorstValue(d.fields[i]))
  }

  function WorstMsg(d: MsgDesc): (m: Msg)
    ensures Shaped(d, m)
    decreases d, 2
  {
    Msg(seq(|d.fields|, i requires 0 <= i < |d.fields| => WorstSlot(d.fields[i])),
        seq(d.unions, u requires 0 <= u < d.unions => WorstUnion(d, u)))
  }

  lemma {:induction false} WorstNotZero(f: Field)
    requires ValidKind(f.kind, f.dataSize) && Varies(f) && NestedAttains(f)
    ensures !ZeroValue(f, WorstValue(f))
    decreases f, 0
  {
    if f.kind.Submessage? { WorstMsgNotZero(f.kind.desc); }
  }

  /** A union with members has one that fills it. */
  lemma UnionFilled(d: MsgDesc, u: nat)
    requires Attains(d) && u < d.unions
    ensures FillingMember(d, u, 0).None? ==> MaxMember(d, u, |d.fields|) == 0
  {
    assert UnionAttains(d, u);
  }

  lemma {:induction false} WorstMsgNotZero(d: MsgDesc)
    requires ValidDesc(d) && MsgVaries(d) && Attains(d)
    ensures !ZeroMsg(d, WorstMsg(d))
    decreases d
  {
    var i: nat :| i < |d.fields| && CanBeWritten(d.fields[i]);
    var f := d.fields[i];
    match f.rule {
      case Singular => WorstNotZero(f);
      case Oneof(u) =>
        MemberWithin(d, u, i, |d.fields|);
        UnionFilled(d, u);
      case _ =>
    }
    assert !ZeroSlot(d, WorstMsg(d), i);
  }

  /** A kind that does not vary has only zero values. */
  lemma {:induction false} OnlyZero(f: Field, v: Value)
    requires ValidKind(f.kind, f.dataSize) && ValueTyped(f, v) && EncodeContent(f, v).Some? && !Varies(f)
    ensures ZeroValue(f, v)
    decreases f, 0
  {
    if f.kind.Submessage? {
      var d, m := f.kind.desc, v.m;
      forall i | 0 <= i < |d.fields| ensures ZeroSlot(d, m, i) {
        assert !CanBeWritten(d.fields[i]) && SlotTyped(d.fields[i], m.slots[i]);
        FieldWithin(d, m, i, 0);
        if !ZeroValue(d.fields[i], m.slots[i].v) { OnlyZero(d.fields[i], m.slots[i].v); }
      }
    }
  }

  lemma VarintLenAtLeast(v: nat, k: nat)
    requires k == 2 || k == 3 || k == 5 || k == 10
    requires v >= (match k case 2 => 0x80 case 3 => 0x4000 case 5 => 0x1000_0000 case _ => TWO63)
    ensures |VarintBytes(v)| >= k
  {
    VarintBytesLen(v, k - 1);
    assert Pow128(1) == 128 && Pow128(2) == 128 * 128;
    assert Pow128(4) == 128 * 128 * Pow128(2);
    assert Pow128(6) == 128 * 128 * Pow128(4);
    assert Pow128(9) == 128 * 128 * 128 * Pow128(6);
  }

  lemma WorstNumLength(k: Kind, size: nat)
    requires Packable(k) && ValidKind(k, size)
    ensures InRange(k, size, WorstNum(k, size))
    ensures |EncodeNum(k, size, WorstNum(k, size))| == MaxNum(k, size)
  {
    var n := WorstNum(k, size);
    NumWithin(k, size, n);
    match k
    case UVarint => VarintLenAtLeast(n, MaxNum(k, size));
    case SVarint => VarintLenAtLeast(Zigzag(n), MaxNum(k, size));
    case Varint => VarintLenAtLeast(Unsigned64(n), 10);
    case _ =>
  }

  lemma {:induction false} WorstContent(f: Field)
    requires ValidKind(f.kind, f.dataSize) && NestedAttains(f)
    ensures ValueTyped(f, WorstValue(f))
    ensures EncodeContent(f, WorstValue(f)).Some? && |EncodeContent(f, WorstValue(f)).value| == MaxContent(f)
    ensures EncodeBasic(f, WorstValue(f)).Some? && |EncodeBasic(f, WorstValue(f)).value| == MaxBasic(f)
    decreases f, 0
  {
    if Packable(f.kind) {
      WorstNumLength(f.kind, f.dataSize);
    } else if f.kind.Submessage? {
      MaximumAttained(f.kind.desc);
    }
  }

  lemma {:induction false} WorstItems(f: Field, n: nat)
    requires ValidKind(f.kind, f.dataSize) && NestedAttains(f)
    ensures var e := EncodeItems(f, Copies(WorstValue(f), n)); e.Some? && |e.value| == Times(n, MaxBasic(f))
    decreases f, 1, n
  {
    if n > 0 {
      WorstContent(f);
      WorstItems(f, n - 1);
      assert Copies(WorstValue(f), n)[1..] == Copies(WorstValue(f), n - 1);
    }
  }

  lemma {:induction false} WorstPacked(f: Field, n: nat)
    requires Packable(f.kind) && ValidKind(f.kind, f.dataSize)
    ensures var e := EncodePacked(f, Copies(WorstValue(f), n));
            e.Some? && |e.value| == Times(n, MaxNum(f.kind, f.dataSize))
  {
    if n > 0 {
      WorstNumLength(f.kind, f.dataSize);
      WorstPacked(f, n - 1);
      assert Copies(WorstValue(f), n)[1..] == Copies(WorstValue(f), n - 1);
    }
  }

  lemma {:induction false} WorstUnionHolds(d: MsgDesc, u: nat, i: nat)
    requires ValidDesc(d) && u < d.unions && i < |d.fields| && Holds(d.fields[i], u, WorstUnion(d, u))
    ensures WorstUnion(d, u) == Union(d.fields[i].tag, WorstValue(d.fields[i]))
    ensures FillingMember(d, u, 0) == Some(i)
  {
    var k := FillingMember(d, u, 0);
    FindTagUnique(d, i);
    if k.Some? { FindTagUnique(d, k.value); }
  }

  /** Field i of the worst message */
  lemma {:induction false} WorstField(d: MsgDesc, i: nat)
    requires ValidDesc(d) && Attains(d) && i < |d.fields|
    ensures SlotTyped(d.fields[i], WorstMsg(d).slots[i])
    ensures EncodeField(d, WorstMsg(d), i).Some?
    ensures var f := d.fields[i];
            if f.rule.Oneof? then
              WorstMsg(d).unions[f.rule.union].which == f.tag ==> Cost(d, WorstMsg(d), i) == MaxBasic(f)
            else Cost(d, WorstMsg(d), i) == MaxField(f)
    decreases d, 0
  {
    var f := d.fields[i];
    assert FieldAttains(f);
    match f.rule
    case Required | Optional => WorstContent(f);
    case Singular =>
      WorstContent(f);
      WorstNotZero(f);
    case Repeated =>
      WorstContent(f);
      if Packable(f.kind) { WorstPacked(f, f.arraySize); } else { WorstItems(f, f.arraySize); }
    case Oneof(u) =>
      if WorstMsg(d).unions[u].which == f.tag {
        WorstUnionHolds(d, u, i);
        WorstContent(f);
      }
  }

  lemma {:induction false} WorstPlain(d: MsgDesc, n: nat)
    requires ValidDesc(d) && Attains(d) && n <= |d.fields|
    ensures PlainCost(d, WorstMsg(d), n) == MaxFields(d, n)
    decreases d, 1, n
  {
    if n > 0 {
      WorstPlain(d, n - 1);
      WorstField(d, n - 1);
    }
  }

  lemma {:induction false} WorstUnionCost(d: MsgDesc, u: nat)
    requires ValidDesc(d) && Attains(d) && u < d.unions
    ensures UnionCost(d, WorstMsg(d), u, |d.fields|) == MaxMember(d, u, |d.fields|)
    decreases d, 1
  {
    OneMember(d, WorstMsg(d), u, |d.fields|);
    var i := FillingMember(d, u, 0);
    if i.Some? {
      FindTagUnique(d, i.value);
      WorstField(d, i.value);
    } else {
      UnionFilled(d, u);
    }
  }

  lemma {:induction false} WorstUnions(d: MsgDesc, k: nat)
    requires ValidDesc(d) && Attains(d) && k <= d.unions
    ensures UnionsCost(d, WorstMsg(d), k, |d.fields|) == MaxUnions(d, k)
    decreases d, 2, k
  {
    if k > 0 {
      WorstUnionCost(d, k - 1);
      WorstUnions(d, k - 1);
    }
  }

  lemma {:induction false} WorstEncodes(d: MsgDesc, i: nat)
    requires ValidDesc(d) && Attains(d) && i <= |d.fields|
    ensures EncodeFields(d, WorstMsg(d), i).Some?
    decreases d, 1, |d.fields| - i
  {
    if i < |d.fields| {
      WorstField(d, i);
      WorstEncodes(d, i + 1);
    }
  }

  /** Some well-typed message of the type encodes to exactly the declared maximum. */
  lemma {:induction false} MaximumAttained(d: MsgDesc)
    requires ValidDesc(d) && Attains(d)
    ensures Typed(d, WorstMsg(d))
    ensures EncodeMsg(d, WorstMsg(d)).Some? && |EncodeMsg(d, WorstMsg(d)).value| == MaxEncodedSize(d)
    decreases d, 2
  {
    var m := WorstMsg(d);
    forall i | 0 <= i < |d.fields| ensures SlotTyped(d.fields[i], m.slots[i]) {
      WorstField(d, i);
    }
    forall i, u | 0 <= i < |d.fields| && 0 <= u < d.unions && Holds(d.fields[i], u, m.unions[u])
      ensures ValueTyped(d.fields[i], m.unions[u].v)
    {
      WorstUnionHolds(d, u, i);
      WorstContent(d.fields[i]);
    }
    WorstEncodes(d, 0);
    EncodedLength(d, m);
    WorstPlain(d, |d.fields|);
    WorstUnions(d, d.unions);
  }

  //
  // Otherwise every message falls short.
  //

  lemma DelimitedLenStrict(a: nat, b: nat)
    requires a < b
    ensures DelimitedLen(a) < DelimitedLen(b)
  {
    VarintBytesMono(a, b);
  }

  lemma {:induction false} ContentMissed(f: Field, v: Value)
    requires ValidKind(f.kind, f.dataSize) && ValueTyped(f, v) && !NestedAttains(f)
    ensures EncodeBasic(f, v).Some? ==> |EncodeBasic(f, v).value| < MaxBasic(f)
    decreases f, 0
  {
    var desc := f.kind.desc;
    if EncodeMsg(desc, v.m).Some? {
      Missed(desc, v.m);
      DelimitedLenStrict(|EncodeMsg(desc, v.m).value|, MaxEncodedSize(desc));
    }
  }

  lemma {:induction false} ItemsMissed(f: Field, vs: seq<Value>)
    requires ValidKind(f.kind, f.dataSize) && AllTyped(f, vs) && !NestedAttains(f)
    ensures EncodeItems(f, vs).Some? ==> |EncodeItems(f, vs).value| + |vs| <= Times(|vs|, MaxBasic(f))
    decreases f, 1, |vs|
  {
    if vs != [] {
      assert ValueTyped(f, vs[0]);
      ContentMissed(f, vs[0]);
      ItemsMissed(f, vs[1..]);
    }
  }

  lemma {:induction false} ArrayMissed(f: Field, vs: seq<Value>)
    requires ValidKind(f.kind, f.dataSize) && f.rule.Repeated? && f.arraySize > 0
    requires AllTyped(f, vs) && !NestedAttains(f)
    ensures EncodeArray(f, vs).Some? ==> |EncodeArray(f, vs).value| < MaxField(f)
    decreases f, 2
  {
    ItemsMissed(f, vs);
    if |vs| <= f.arraySize { TimesMono(|vs|, f.arraySize, MaxBasic(f)); }
    TimesMono(1, f.arraySize, MaxBasic(f));
  }

  /** A singular field whose only value is zero costs nothing. */
  lemma {:induction false} NeverWritten(d: MsgDesc, m: Msg, i: nat)
    requires ValidDesc(d) && Typed(d, m) && EncodeMsg(d, m).Some?
    requires i < |d.fields| && !CanBeWritten(d.fields[i])
    ensures Cost(d, m, i) == 0
  {
    var f := d.fields[i];
    assert SlotTyped(f, m.slots[i]);
    FieldWithin(d, m, i, 0);
    if !ZeroValue(f, m.slots[i].v) { OnlyZero(f, m.slots[i].v); }
  }

  lemma {:induction false} FieldMissed(d: MsgDesc, m: Msg, i: nat)
    requires ValidDesc(d) && Typed(d, m) && EncodeMsg(d, m).Some? && i < |d.fields| && !FieldAttains(d.fields[i])
    ensures Cost(d, m, i) < MaxField(d.fields[i])
    decreases d, 0
  {
    var f := d.fields[i];
    assert SlotTyped(f, m.slots[i]);
    if !CanBeWritten(f) {
      NeverWritten(d, m, i);
    } else {
      match f.rule
      case Repeated => ArrayMissed(f, m.slots[i].vs);
      case Required | Optional | Singular => ContentMissed(f, m.slots[i].v);
      case Oneof(_) =>
    }
  }

  lemma {:induction false} PlainMissed(d: MsgDesc, m: Msg, i: nat, n: nat)
    requires ValidDesc(d) && Typed(d, m) && i < n <= |d.fields|
    requires !d.fields[i].rule.Oneof? && Cost(d, m, i) < MaxField(d.fields[i])
    ensures PlainCost(d, m, n) < MaxFields(d, n)
    decreases n
  {
    if i < n - 1 {
      PlainMissed(d, m, i, n - 1);
      PlainFieldWithin(d, m, n - 1);
    } else {
      PlainWithin(d, m, n - 1);
    }
  }

  lemma {:induction false} UnionMissed(d: MsgDesc, m: Msg, u: nat)
    requires ValidDesc(d) && Typed(d, m) && u < d.unions && !UnionAttains(d, u)
    ensures UnionCost(d, m, u, |d.fields|) < MaxMember(d, u, |d.fields|)
    decreases d, 0
  {
    OneMember(d, m, u, |d.fields|);
    var k := Member(d, u, m.unions[u]);
    if k.Some? {
      var f, v := d.fields[k.value], m.unions[u].v;
      assert !Fills(d, u, k.value);
      ContentWithin(f, v);
      MemberWithin(d, u, k.value, |d.fields|);
      if !NestedAttains(f) { ContentMissed(f, v); }
    }
  }

  lemma {:induction false} UnionsMissed(d: MsgDesc, m: Msg, u: nat, k: nat)
    requires ValidDesc(d) && Typed(d, m) && u < k <= d.unions
    requires UnionCost(d, m, u, |d.fields|) < MaxMember(d, u, |d.fields|)
    ensures UnionsCost(d, m, k, |d.fields|) < MaxUnions(d, k)
    decreases k
  {
    UnionsWithin(d, m, k - 1);
    if u < k - 1 {
      UnionsMissed(d, m, u, k - 1);
      UnionWithin(d, m, k - 1);
    }
  }

  lemma {:induction false} Missed(d: MsgDesc, m: Msg)
    requires ValidDesc(d) && Typed(d, m) && EncodeMsg(d, m).Some? && !Attains(d)
    ensures |EncodeMsg(d, m).value| < MaxEncodedSize(d)
    decreases d, 1
  {
    EncodedLength(d, m);
    PlainWithin(d, m, |d.fields|);
    UnionsWithin(d, m, d.unions);
    if i: nat :| i < |d.fields| && !FieldAttains(d.fields[i]) {
      FieldMissed(d, m, i);
      PlainMissed(d, m, i, |d.fields|);
    } else {
      var u: nat :| u < d.unions && !UnionAttains(d, u);
      UnionMissed(d, m, u);
      UnionsMissed(d, m, u, d.unions);
    }
  }

  /** Exactly which types have a message that encodes to the declared maximum */
  lemma AttainedExactly(d: MsgDesc)
    requires ValidDesc(d)
    ensures (exists m :: Typed(d, m) && EncodeMsg(d, m).Some? && |EncodeMsg(d, m).value| == MaxEncodedSize(d))
            <==> Attains(d)
  {
    if Attains(d) {
      MaximumAttained(d);
    } else {
      forall m | Typed(d, m) && EncodeMsg(d, m).Some? ensures |EncodeMsg(d, m).value| < MaxEncodedSize(d) {
        Missed(d, m);
      }
    }
  }
}
