/** What it means to decode an encoded message into another one: scalars take the new value,
    repeated fields grow, submessages merge, a oneof switches to the new member. */
module Merge {
  import opened Wire
  import opened Schema
  import opened Numbers
  import opened EncodeSpec
  import opened DecodeSpec
  import opened FieldSteps
  import opened Lengths
  import opened Packed
  import Varints

  //
  // The merge of b into a
  //

  function MergeValue(f: Field, a: Value, b: Value): Value
    decreases f, 0
  {
    if f.kind.Submessage? && b.Sub? && Shaped(f.kind.desc, b.m)
    then Sub(Merged(f.kind.desc, MsgIn(f.kind.desc, a), b.m)) else b
  }

  function MergeSlot(f: Field, a: Slot, b: Slot): Slot
    decreases f, 1
  {
    match b
    case Single(w) => if f.rule.Singular? && ZeroValue(f, w) then a else Single(MergeValue(f, Held(f, a), w))
    case Flagged(has, w) => if has then Flagged(true, MergeValue(f, Held(f, a), w)) else a
    case Items(ws) => if ws == [] then a else Items(ItemsIn(a) + CanonItems(f, ws))
    case InUnion => a
  }

  /** Member f of a union, from b */
  function MergeMember(f: Field, a: Union, b: Union): Union
    decreases f, 1
  {
    Union(f.tag, MergeValue(f, HeldInUnion(f, a), b.v))
  }

  function MergeUnion(d: MsgDesc, u: nat, a: Union, b: Union): Union
    decreases d, 0
  {
    match Member(d, u, b)
    case None => a
    case Some(k) => MergeMember(d.fields[k], a, b)
  }

  function Merged(d: MsgDesc, a: Msg, b: Msg): (r: Msg)
    requires Shaped(d, a) && Shaped(d, b)
    ensures Shaped(d, r)
    decreases d, 1
  {
    Msg(seq(|d.fields|, i requires 0 <= i < |d.fields| => MergeSlot(d.fields[i], a.slots[i], b.slots[i])),
        seq(d.unions, u requires 0 <= u < d.unions => MergeUnion(d, u, a.unions[u], b.unions[u])))
  }

  //
  // Is there room for it?
  //

  predicate ValueRoom(f: Field, a: Value, b: Value)
    decreases f, 0
  {
    f.kind.Submessage? && b.Sub? && Shaped(f.kind.desc, b.m) ==> MsgRoom(f.kind.desc, MsgIn(f.kind.desc, a), b.m)
  }

  /** The arrays of a, at every depth that field i of b merges into, have room for those of b. */
  predicate FieldRoom(d: MsgDesc, a: Msg, b: Msg, i: nat)
    requires Shaped(d, a) && Shaped(d, b) && i < |d.fields|
    decreases d, 0
  {
    var f := d.fields[i];
    match (f.rule, b.slots[i])
    case (Required, Single(w)) => ValueRoom(f, Held(f, a.slots[i]), w)
    case (Singular, Single(w)) => ZeroValue(f, w) || ValueRoom(f, Held(f, a.slots[i]), w)
    case (Optional, Flagged(has, w)) => has ==> ValueRoom(f, Held(f, a.slots[i]), w)
    case (Repeated, Items(ws)) => Room(f, |ItemsIn(a.slots[i])|, |ws|)
    case (Oneof(u), InUnion) =>
      u < d.unions && b.unions[u].which == f.tag ==> ValueRoom(f, HeldInUnion(f, a.unions[u]), b.unions[u].v)
    case _ => true
  }

  predicate MsgRoom(d: MsgDesc, a: Msg, b: Msg)
    requires Shaped(d, a) && Shaped(d, b)
    decreases d, 1
  {
    forall i :: 0 <= i < |d.fields| ==> FieldRoom(d, a, b, i)
  }

  /** The length of v fits 32 bits, and so do those inside it, and there is room for it. */
  predicate ValueArrives(f: Field, a: Value, v: Value) {
    ValueObeys(Fits32, f, v) && ValueRoom(f, a, v)
  }

  predicate FieldArrives(d: MsgDesc, a: Msg, b: Msg, i: nat)
    requires Shaped(d, a) && Shaped(d, b) && i < |d.fields|
  {
    FieldObeys(Fits32, d, b, i) && FieldRoom(d, a, b, i)
  }

  //
  // Merging into the default message
  //

  /** A value that the encoder leaves out as zero is the default. */
  lemma {:induction false} ZeroValueIsDefault(f: Field, v: Value)
    requires ValidKind(f.kind, f.dataSize) && ValueTyped(f, v) && ZeroValue(f, v)
    ensures CanonValue(f, v) == DefaultValue(f)
    decreases f, 0
  {
    if f.kind.Submessage? { ZeroMsgIsDefault(f.kind.desc, v.m); }
  }

  lemma {:induction false} ZeroMsgIsDefault(d: MsgDesc, m: Msg)
    requires ValidDesc(d) && Typed(d, m) && ZeroMsg(d, m)
    ensures Canon(d, m) == DefaultMsg(d)
    decreases d
  {
    forall i | 0 <= i < |d.fields| ensures CanonSlot(d.fields[i], m.slots[i]) == DefaultSlot(d.fields[i]) {
      assert ZeroSlot(d, m, i);
      assert SlotTyped(d.fields[i], m.slots[i]);
      if d.fields[i].rule.Singular? { ZeroValueIsDefault(d.fields[i], m.slots[i].v); }
    }
    forall u | 0 <= u < d.unions ensures CanonUnion(d, u, m.unions[u]) == NO_MEMBER {
      var k := Member(d, u, m.unions[u]);
      assert k.Some? ==> ZeroSlot(d, m, k.value);
    }
  }

  /** A value that encodes fits on top of the default, and is the same there, unused parts of
      submessages at their defaults. */
  lemma {:induction false} ValueOnDefault(f: Field, v: Value)
    requires ValidKind(f.kind, f.dataSize) && ValueTyped(f, v)
    ensures MergeValue(f, DefaultValue(f), v) == CanonValue(f, v)
    ensures EncodeContent(f, v).Some? ==> ValueRoom(f, DefaultValue(f), v)
    decreases f, 0
  {
    if f.kind.Submessage? { MergeOnDefault(f.kind.desc, v.m); }
  }

  lemma {:induction false} SlotOnDefault(f: Field, slot: Slot)
    requires ValidKind(f.kind, f.dataSize) && SlotTyped(f, slot)
    ensures MergeSlot(f, DefaultSlot(f), slot) == CanonSlot(f, slot)
    decreases f, 1
  {
    match slot
    case Single(v) =>
      ValueOnDefault(f, v);
      if ZeroValue(f, v) { ZeroValueIsDefault(f, v); }
    case Flagged(has, v) => ValueOnDefault(f, v);
    case Items(vs) => assert [] + CanonItems(f, vs) == CanonItems(f, vs);
    case InUnion =>
  }

  /** A message that encodes fits into the default message, and gives its canonical form. */
  lemma {:induction false} MergeOnDefault(d: MsgDesc, m: Msg)
    requires ValidDesc(d) && Typed(d, m)
    ensures Merged(d, DefaultMsg(d), m) == Canon(d, m)
    ensures EncodeMsg(d, m).Some? ==> MsgRoom(d, DefaultMsg(d), m)
    decreases d, 1
  {
    var a := DefaultMsg(d);
    forall i | 0 <= i < |d.fields|
      ensures MergeSlot(d.fields[i], a.slots[i], m.slots[i]) == CanonSlot(d.fields[i], m.slots[i])
    {
      SlotOnDefault(d.fields[i], m.slots[i]);
    }
    forall u | 0 <= u < d.unions ensures MergeUnion(d, u, a.unions[u], m.unions[u]) == CanonUnion(d, u, m.unions[u]) {
      var k := Member(d, u, m.unions[u]);
      if k.Some? {
        assert Holds(d.fields[k.value], u, m.unions[u]);
        ValueOnDefault(d.fields[k.value], m.unions[u].v);
      }
    }
    assert Merged(d, a, m).slots == Canon(d, m).slots && Merged(d, a, m).unions == Canon(d, m).unions;
    if EncodeMsg(d, m).Some? {
      forall i | 0 <= i < |d.fields| ensures FieldRoom(d, a, m, i) {
        FieldWithin(d, m, i, 0);
        RoomOnDefault(d, m, i);
      }
    }
  }

  lemma {:induction false} RoomOnDefault(d: MsgDesc, m: Msg, i: nat)
    requires ValidDesc(d) && Typed(d, m) && i < |d.fields| && EncodeField(d, m, i).Some?
    ensures FieldRoom(d, DefaultMsg(d), m, i)
    decreases d, 0
  {
    var f, slot := d.fields[i], m.slots[i];
    assert SlotTyped(f, slot);
    match f.rule
    case Repeated =>
    case Oneof(u) =>
      if m.unions[u].which == f.tag {
        assert Holds(f, u, m.unions[u]);
        ValueOnDefault(f, m.unions[u].v);
      }
    case _ => ValueOnDefault(f, slot.v);
  }

  //
  // The message grows field by field.
  //

  function SlotAfter(d: MsgDesc, a: Msg, b: Msg, n: nat, i: nat): Slot
    requires Shaped(d, a) && Shaped(d, b) && i < |d.fields|
  {
    if i < n then MergeSlot(d.fields[i], a.slots[i], b.slots[i]) else a.slots[i]
  }

  function UnionAfter(d: MsgDesc, a: Msg, b: Msg, n: nat, u: nat): Union
    requires Shaped(d, a) && Shaped(d, b) && u < d.unions
  {
    match Member(d, u, b.unions[u])
    case None => a.unions[u]
    case Some(k) => if k < n then MergeMember(d.fields[k], a.unions[u], b.unions[u]) else a.unions[u]
  }

  /** The message once the first n fields of b have arrived */
  function MergedUpTo(d: MsgDesc, a: Msg, b: Msg, n: nat): (r: Msg)
    requires Shaped(d, a) && Shaped(d, b)
    ensures Shaped(d, r)
  {
    Msg(seq(|d.fields|, i requires 0 <= i < |d.fields| => SlotAfter(d, a, b, n, i)),
        seq(d.unions, u requires 0 <= u < d.unions => UnionAfter(d, a, b, n, u)))
  }

  lemma MergeEnds(d: MsgDesc, a: Msg, b: Msg)
    requires Shaped(d, a) && Shaped(d, b)
    ensures MergedUpTo(d, a, b, 0) == a
    ensures MergedUpTo(d, a, b, |d.fields|) == Merged(d, a, b)
  {
    var p, q := MergedUpTo(d, a, b, 0), MergedUpTo(d, a, b, |d.fields|);
    assert p.slots == a.slots && p.unions == a.unions;
    assert q.slots == Merged(d, a, b).slots && q.unions == Merged(d, a, b).unions;
  }

  lemma NextSlot(d: MsgDesc, a: Msg, b: Msg, i: nat)
    requires Shaped(d, a) && Shaped(d, b) && i < |d.fields|
    requires forall u :: 0 <= u < d.unions ==> !Holds(d.fields[i], u, b.unions[u])
    ensures var p := MergedUpTo(d, a, b, i);
            MergedUpTo(d, a, b, i + 1) == p.(slots := p.slots[i := MergeSlot(d.fields[i], a.slots[i], b.slots[i])])
    ensures MergedUpTo(d, a, b, i).slots[i] == a.slots[i]
  {
    var p, q := MergedUpTo(d, a, b, i), MergedUpTo(d, a, b, i + 1);
    forall u | 0 <= u < d.unions ensures q.unions[u] == p.unions[u] {
      assert Member(d, u, b.unions[u]) != Some(i);
    }
    assert q.unions == p.unions;
    assert q.slots == p.slots[i := MergeSlot(d.fields[i], a.slots[i], b.slots[i])];
  }

  lemma NextMember(d: MsgDesc, a: Msg, b: Msg, i: nat, u: nat)
    requires ValidDesc(d) && Shaped(d, a) && Shaped(d, b) && i < |d.fields| && u < d.unions
    requires b.slots[i].InUnion? && Holds(d.fields[i], u, b.unions[u])
    ensures var p := MergedUpTo(d, a, b, i);
            && p.unions[u] == a.unions[u]
            && MergedUpTo(d, a, b, i + 1)
               == p.(unions := p.unions[u := MergeMember(d.fields[i], a.unions[u], b.unions[u])])
  {
    var p, q := MergedUpTo(d, a, b, i), MergedUpTo(d, a, b, i + 1);
    FindTagUnique(d, i);
    assert Member(d, u, b.unions[u]) == Some(i);
    forall w | 0 <= w < d.unions && w != u ensures q.unions[w] == p.unions[w] {
      var k := Member(d, w, b.unions[w]);
      assert k.Some? ==> Holds(d.fields[k.value], w, b.unions[w]);
      assert k != Some(i);
    }
    assert q.unions == p.unions[u := MergeMember(d.fields[i], a.unions[u], b.unions[u])];
    assert q.slots == p.slots;
  }

  //
  // Values
  //

  lemma {:induction false} UpToNulIdentity(s: seq<byte>)
    requires 0 !in s
    ensures UpToNul(s) == s
  {
    if s != [] {
      UpToNulIdentity(s[1..]);
      assert s == [s[0]] + s[1..];
    }
  }

  /** Strings and byte arrays take the new value. */
  lemma TextPayload(f: Field, prior: Value, s: seq<byte>)
    requires ValidKind(f.kind, f.dataSize) && ValueTyped(f, Str(s)) && EncodeContent(f, Str(s)).Some?
    ensures DecodePayload(f, prior, s) == Some(Str(s))
  {
    if f.kind.String? {
      UpToNulIdentity(s);
    } else if f.kind.FixedLengthBytes? {
      assert s == [] ==> Zeros(0) == s;
    }
  }

  lemma TextArrives(f: Field, prior: Value, s: seq<byte>, t: seq<byte>)
    requires ValidKind(f.kind, f.dataSize) && ValueTyped(f, Str(s))
    requires EncodeContent(f, Str(s)).Some?
    ensures DecodeBasic(f, WT_STRING, prior, EncodeContent(f, Str(s)).value + t) == Ok(Str(s), t)
  {
    assert EncodeContent(f, Str(s)).value == Delimited(s);
    PayloadOfDelimited(s, t);
    TextPayload(f, prior, s);
  }

  /** A length of 2^32 or more that is not misread is refused. */
  lemma TooLong(p: seq<byte>, t: seq<byte>)
    requires |p| >= TWO32 && !Varints.MisreadLength(|p|)
    ensures Payload(Delimited(p) + t) == Fail
  {
    Varints.LongLength(|p|, p + t);
    assert Delimited(p) + t == VarintBytes(|p|) + (p + t);
  }

  /** One encoded value, decoded on top of another one */
  lemma {:induction false} ValueMerges(f: Field, prior: Value, v: Value, t: seq<byte>)
    requires ValidKind(f.kind, f.dataSize) && ValueTyped(f, v)
    requires EncodeContent(f, v).Some? && ValueObeys(NotMisread, f, v)
    ensures DecodeBasic(f, WireType(f.kind), prior, EncodeContent(f, v).value + t)
            == if ValueArrives(f, prior, v) then Ok(MergeValue(f, prior, v), t) else Fail
    decreases f, 0
  {
    match v
    case Num(n) => NumRoundTrip(f.kind, f.dataSize, n, t);
    case Str(s) => TextArrives(f, prior, s, t);
    case Sub(m) =>
      var p := EncodeMsg(f.kind.desc, m).value;
      if |p| < TWO32 {
        PayloadOfDelimited(p, t);
        MergeDecodes(f.kind.desc, MsgIn(f.kind.desc, prior), m);
      } else {
        TooLong(p, t);
      }
  }

  //
  // Fields
  //

  /** The step that a single encoded value makes */
  lemma {:induction false} ValueStep(d: MsgDesc, st: State, i: nat, prior: Value, v: Value, t: seq<byte>)
    requires ValidDesc(d) && Shaped(d, st.m) && i < |d.fields| && ValueTyped(d.fields[i], v)
    requires EncodeBasic(d.fields[i], v).Some? && ValueObeys(NotMisread, d.fields[i], v)
    ensures var f := d.fields[i];
            var s := EncodeContent(f, v).value + t;
            && Step(d, st, EncodeBasic(f, v).value + t) == FieldStep(d, st, i, WireType(f.kind), s)
            && DecodeBasic(f, WireType(f.kind), prior, s)
               == if ValueArrives(f, prior, v) then Ok(MergeValue(f, prior, v), t) else Fail
    decreases d.fields[i], 1
  {
    var f := d.fields[i];
    var c := EncodeContent(f, v).value;
    assert EncodeBasic(f, v).value + t == TagBytes(f.tag, WireType(f.kind)) + (c + t);
    KnownStep(d, st, i, WireType(f.kind), c + t);
    ValueMerges(f, prior, v, t);
  }

  /** A field outside oneofs that is present */
  lemma {:induction false} SingleMerges(
    d: MsgDesc, a: Msg, b: Msg, i: nat, v: Value, seen: set<nat>, t: seq<byte>, nullTerm: bool)
    requires ValidDesc(d) && Shaped(d, a) && Shaped(d, b) && i < |d.fields| && ValueTyped(d.fields[i], v)
    requires match d.fields[i].rule
             case Required => b.slots[i] == Single(v)
             case Singular => b.slots[i] == Single(v) && !ZeroValue(d.fields[i], v)
             case Optional => b.slots[i] == Flagged(true, v)
             case _ => false
    requires EncodeBasic(d.fields[i], v).Some? && ValueObeys(NotMisread, d.fields[i], v)
    ensures Loop(d, State(MergedUpTo(d, a, b, i), seen), EncodeBasic(d.fields[i], v).value + t, nullTerm)
            == if FieldArrives(d, a, b, i)
               then Loop(d, State(MergedUpTo(d, a, b, i + 1), Seen(d, seen, i)), t, nullTerm) else Fail
    decreases d.fields[i], 2
  {
    var f, st := d.fields[i], State(MergedUpTo(d, a, b, i), seen);
    NextSlot(d, a, b, i);
    ValueStep(d, st, i, Held(f, a.slots[i]), v, t);
    LoopField(d, st, i, EncodeBasic(f, v).value + t, EncodeContent(f, v).value + t, nullTerm);
  }

  lemma MemberArrives(d: MsgDesc, a: Msg, b: Msg, i: nat, u: nat)
    requires Shaped(d, a) && Shaped(d, b) && i < |d.fields| && u < d.unions
    requires b.slots[i].InUnion? && Holds(d.fields[i], u, b.unions[u])
    ensures FieldArrives(d, a, b, i)
            <==> ValueArrives(d.fields[i], HeldInUnion(d.fields[i], a.unions[u]), b.unions[u].v)
  {
  }

  lemma {:induction false} MemberApplies(d: MsgDesc, m: Msg, i: nat, u: nat, v: Value, t: seq<byte>)
    requires ValidDesc(d) && Shaped(d, m) && i < |d.fields| && ValueTyped(d.fields[i], v)
    requires u < d.unions && d.fields[i].rule == Oneof(u)
    requires EncodeContent(d.fields[i], v).Some? && ValueObeys(NotMisread, d.fields[i], v)
    ensures var f, un := d.fields[i], m.unions[u];
            ApplyField(d, m, i, WireType(f.kind), EncodeContent(f, v).value + t)
            == if ValueArrives(f, HeldInUnion(f, un), v)
               then Ok(m.(unions := m.unions[u := MergeMember(f, un, Union(f.tag, v))]), t) else Fail
    decreases d.fields[i], 1
  {
    ValueMerges(d.fields[i], HeldInUnion(d.fields[i], m.unions[u]), v, t);
  }

  /** A value for a member of a oneof, behind any state */
  lemma {:induction false} MemberLoop(d: MsgDesc, st: State, i: nat, u: nat, v: Value, t: seq<byte>, nullTerm: bool)
    requires ValidDesc(d) && Shaped(d, st.m) && i < |d.fields| && ValueTyped(d.fields[i], v)
    requires u < d.unions && d.fields[i].rule == Oneof(u)
    requires EncodeBasic(d.fields[i], v).Some? && ValueObeys(NotMisread, d.fields[i], v)
    ensures var f, un := d.fields[i], st.m.unions[u];
            Loop(d, st, EncodeBasic(f, v).value + t, nullTerm)
            == if ValueArrives(f, HeldInUnion(f, un), v)
               then Loop(d, State(st.m.(unions := st.m.unions[u := MergeMember(f, un, Union(f.tag, v))]),
                                  Seen(d, st.seen, i)), t, nullTerm)
               else Fail
    decreases d.fields[i], 2
  {
    var f := d.fields[i];
    var c := EncodeContent(f, v).value + t;
    assert EncodeBasic(f, v).value + t == TagBytes(f.tag, WireType(f.kind)) + c;
    KnownStep(d, st, i, WireType(f.kind), c);
    MemberApplies(d, st.m, i, u, v, t);
    LoopField(d, st, i, EncodeBasic(f, v).value + t, c, nullTerm);
  }

  /** The member that a oneof of b holds */
  lemma {:induction false} MemberMerges(
    d: MsgDesc, a: Msg, b: Msg, i: nat, u: nat, seen: set<nat>, t: seq<byte>, nullTerm: bool)
    requires ValidDesc(d) && Shaped(d, a) && Shaped(d, b) && i < |d.fields| && u < d.unions
    requires b.slots[i].InUnion? && Holds(d.fields[i], u, b.unions[u]) && ValueTyped(d.fields[i], b.unions[u].v)
    requires EncodeBasic(d.fields[i], b.unions[u].v).Some? && ValueObeys(NotMisread, d.fields[i], b.unions[u].v)
    ensures Loop(d, State(MergedUpTo(d, a, b, i), seen), EncodeBasic(d.fields[i], b.unions[u].v).value + t, nullTerm)
            == if FieldArrives(d, a, b, i)
               then Loop(d, State(MergedUpTo(d, a, b, i + 1), Seen(d, seen, i)), t, nullTerm) else Fail
    decreases d.fields[i], 3
  {
    NextMember(d, a, b, i, u);
    MemberArrives(d, a, b, i, u);
    MemberLoop(d, State(MergedUpTo(d, a, b, i), seen), i, u, b.unions[u].v, t, nullTerm);
  }

  lemma {:induction false} CanonItemsCons(f: Field, vs: seq<Value>)
    requires vs != []
    ensures CanonItems(f, vs) == [CanonValue(f, vs[0])] + CanonItems(f, vs[1..])
    decreases |vs|
  {
    if |vs| == 1 {
      assert vs[..0] == [] && vs[1..] == [];
    } else {
      var front := vs[..|vs| - 1];
      CanonItemsCons(f, front);
      assert front[1..] == vs[1..][..|vs| - 2];
    }
  }

  lemma {:induction false} ItemApplies(f: Field, vs: seq<Value>, v: Value, t: seq<byte>)
    requires ValidKind(f.kind, f.dataSize) && !Packable(f.kind) && ValueTyped(f, v)
    requires EncodeContent(f, v).Some? && ValueObeys(NotMisread, f, v)
    ensures ApplyRepeated(f, vs, WireType(f.kind), EncodeContent(f, v).value + t)
            == if ValueObeys(Fits32, f, v) && |vs| < f.arraySize then Ok(vs + [CanonValue(f, v)], t) else Fail
    decreases f, 1
  {
    ValueMerges(f, DefaultValue(f), v, t);
    ValueOnDefault(f, v);
  }

  /** One element is appended, or there is no room for it. */
  lemma {:induction false} ItemAppends(d: MsgDesc, st: State, i: nat, v: Value, t: seq<byte>, nullTerm: bool)
    requires ValidDesc(d) && Shaped(d, st.m) && i < |d.fields| && d.fields[i].rule.Repeated?
    requires !Packable(d.fields[i].kind) && ValueTyped(d.fields[i], v)
    requires EncodeBasic(d.fields[i], v).Some? && ValueObeys(NotMisread, d.fields[i], v)
    ensures Loop(d, st, EncodeBasic(d.fields[i], v).value + t, nullTerm)
            == if ValueObeys(Fits32, d.fields[i], v) && |ItemsIn(st.m.slots[i])| < d.fields[i].arraySize
               then Loop(d, Appended(st, i, [CanonValue(d.fields[i], v)]), t, nullTerm) else Fail
    decreases d.fields[i], 2
  {
    var f := d.fields[i];
    var c := EncodeContent(f, v).value + t;
    assert EncodeBasic(f, v).value + t == TagBytes(f.tag, WireType(f.kind)) + c;
    KnownStep(d, st, i, WireType(f.kind), c);
    ItemApplies(f, ItemsIn(st.m.slots[i]), v, t);
    LoopField(d, st, i, EncodeBasic(f, v).value + t, c, nullTerm);
  }

  lemma FirstOfItems(f: Field, n: nat, ws: seq<Value>)
    requires ws != []
    ensures AllObey(Fits32, f, ws) && Room(f, n, |ws|)
            <==> && ValueObeys(Fits32, f, ws[0]) && n < f.arraySize
                 && AllObey(Fits32, f, ws[1..]) && Room(f, n + 1, |ws| - 1)
  {
    if AllObey(Fits32, f, ws[1..]) {
      forall k | 0 < k < |ws| ensures ValueObeys(Fits32, f, ws[k]) {
        assert ValueObeys(Fits32, f, ws[1..][k - 1]);
      }
    }
  }

  /** Elements under their own tags are appended, or there is no room for them. */
  lemma {:induction false} ItemsMerge(d: MsgDesc, st: State, i: nat, ws: seq<Value>, t: seq<byte>, nullTerm: bool)
    requires ValidDesc(d) && Shaped(d, st.m) && i < |d.fields| && d.fields[i].rule.Repeated?
    requires !Packable(d.fields[i].kind) && ws != [] && AllTyped(d.fields[i], ws)
    requires EncodeItems(d.fields[i], ws).Some? && AllObey(NotMisread, d.fields[i], ws)
    ensures Loop(d, st, EncodeItems(d.fields[i], ws).value + t, nullTerm)
            == if AllObey(Fits32, d.fields[i], ws) && Room(d.fields[i], |ItemsIn(st.m.slots[i])|, |ws|)
               then Loop(d, Appended(st, i, CanonItems(d.fields[i], ws)), t, nullTerm) else Fail
    decreases d.fields[i], 3, |ws|
  {
    var f, first := d.fields[i], [CanonValue(d.fields[i], ws[0])];
    assert ValueTyped(f, ws[0]);
    var rest := EncodeItems(f, ws[1..]).value + t;
    assert EncodeItems(f, ws).value + t == EncodeBasic(f, ws[0]).value + rest;
    ItemAppends(d, st, i, ws[0], rest, nullTerm);
    CanonItemsCons(f, ws);
    FirstOfItems(f, |ItemsIn(st.m.slots[i])|, ws);
    if |ws| == 1 {
      assert rest == t && CanonItems(f, ws) == first;
    } else {
      ItemsMerge(d, Appended(st, i, first), i, ws[1..], t, nullTerm);
      AppendedTwice(st, i, first, CanonItems(f, ws[1..]));
    }
  }

  lemma {:induction false} CanonNumbers(f: Field, vs: seq<Value>)
    requires !f.kind.Submessage?
    ensures CanonItems(f, vs) == vs
  {
    if vs != [] {
      CanonNumbers(f, vs[..|vs| - 1]);
      assert vs == vs[..|vs| - 1] + [vs[|vs| - 1]];
    }
  }

  /** A packed array is appended, or there is no room for it. */
  lemma NumbersMerge(d: MsgDesc, st: State, i: nat, ws: seq<Value>, t: seq<byte>, nullTerm: bool)
    requires RepeatedNumbers(d, i) && Shaped(d, st.m) && ws != [] && AllTyped(d.fields[i], ws)
    requires EncodeArray(d.fields[i], ws).Some?
    ensures Loop(d, st, EncodeArray(d.fields[i], ws).value + t, nullTerm)
            == if Room(d.fields[i], |ItemsIn(st.m.slots[i])|, |ws|)
               then Loop(d, Appended(st, i, CanonItems(d.fields[i], ws)), t, nullTerm) else Fail
  {
    var f := d.fields[i];
    ArrayIsOneRun(f, ws);
    OnePiece(f, Run(ws));
    PieceStep(d, st, i, Run(ws), t);
    CanonNumbers(f, ws);
    LoopStep(d, st, EncodeArray(f, ws).value + t, nullTerm);
  }

  /** A repeated field that is not empty in b */
  lemma {:induction false} ArrayMerges(d: MsgDesc, a: Msg, b: Msg, i: nat, seen: set<nat>, t: seq<byte>, nullTerm: bool)
    requires ValidDesc(d) && Shaped(d, a) && Typed(d, b) && i < |d.fields| && d.fields[i].rule.Repeated?
    requires b.slots[i].Items? && b.slots[i].vs != []
    requires EncodeField(d, b, i).Some? && FieldObeys(NotMisread, d, b, i)
    ensures Loop(d, State(MergedUpTo(d, a, b, i), seen), EncodeField(d, b, i).value + t, nullTerm)
            == if FieldArrives(d, a, b, i)
               then Loop(d, State(MergedUpTo(d, a, b, i + 1), seen), t, nullTerm) else Fail
    decreases d.fields[i], 4
  {
    var f, ws, st := d.fields[i], b.slots[i].vs, State(MergedUpTo(d, a, b, i), seen);
    NextSlot(d, a, b, i);
    assert SlotTyped(f, b.slots[i]);
    assert State(MergedUpTo(d, a, b, i + 1), seen) == Appended(st, i, CanonItems(f, ws));
    if Packable(f.kind) {
      OthersObey(Fits32, f, ws);
      NumbersMerge(d, st, i, ws, t, nullTerm);
    } else {
      ItemsMerge(d, st, i, ws, t, nullTerm);
    }
  }

  /** A field that the encoder leaves out changes nothing. */
  lemma AbsentMerges(d: MsgDesc, a: Msg, b: Msg, i: nat)
    requires ValidDesc(d) && Shaped(d, a) && Typed(d, b) && i < |d.fields| && Absent(d, b, i)
    ensures MergedUpTo(d, a, b, i + 1) == MergedUpTo(d, a, b, i) && FieldArrives(d, a, b, i)
  {
    assert SlotTyped(d.fields[i], b.slots[i]);
    NextSlot(d, a, b, i);
    var p := MergedUpTo(d, a, b, i);
    assert MergeSlot(d.fields[i], a.slots[i], b.slots[i]) == p.slots[i];
    assert p.slots[i := p.slots[i]] == p.slots;
  }

  //
  // Messages
  //

  /** Field i of b */
  lemma {:induction false} FieldMerges(d: MsgDesc, a: Msg, b: Msg, i: nat, seen: set<nat>, t: seq<byte>, nullTerm: bool)
    requires ValidDesc(d) && Shaped(d, a) && Typed(d, b) && i < |d.fields|
    requires EncodeField(d, b, i).Some? && FieldObeys(NotMisread, d, b, i)
    ensures Loop(d, State(MergedUpTo(d, a, b, i), seen), EncodeField(d, b, i).value + t, nullTerm)
            == if FieldArrives(d, a, b, i)
               then Loop(d, State(MergedUpTo(d, a, b, i + 1), Seen(d, seen, i)), t, nullTerm) else Fail
    decreases d, 0
  {
    var f, slot := d.fields[i], b.slots[i];
    assert SlotTyped(f, slot);
    if Absent(d, b, i) {
      AbsentMerges(d, a, b, i);
      assert EncodeField(d, b, i).value + t == t;
    } else {
      match f.rule
      case Repeated => ArrayMerges(d, a, b, i, seen, t, nullTerm);
      case Oneof(u) =>
        assert Holds(f, u, b.unions[u]);
        MemberMerges(d, a, b, i, u, seen, t, nullTerm);
      case _ => SingleMerges(d, a, b, i, slot.v, seen, t, nullTerm);
    }
  }

  predicate ArrivesFrom(d: MsgDesc, a: Msg, b: Msg, i: nat)
    requires Shaped(d, a) && Shaped(d, b) && i <= |d.fields|
  {
    forall j :: i <= j < |d.fields| ==> FieldArrives(d, a, b, j)
  }

  lemma ArrivesStep(d: MsgDesc, a: Msg, b: Msg, i: nat)
    requires Shaped(d, a) && Shaped(d, b) && i < |d.fields|
    ensures ArrivesFrom(d, a, b, i) <==> FieldArrives(d, a, b, i) && ArrivesFrom(d, a, b, i + 1)
  {
  }

  /** The fields seen once all from field i on have arrived */
  function SeenFrom(d: MsgDesc, seen: set<nat>, i: nat): set<nat>
    requires i <= |d.fields|
    decreases |d.fields| - i
  {
    if i == |d.fields| then seen else SeenFrom(d, Seen(d, seen, i), i + 1)
  }

  lemma {:induction false} AllSeen(d: MsgDesc, seen: set<nat>, i: nat)
    requires i <= |d.fields|
    requires forall j :: 0 <= j < i && d.fields[j].rule.Required? ==> j in seen
    ensures RequiredSeen(d, SeenFrom(d, seen, i))
    decreases |d.fields| - i
  {
    if i < |d.fields| { AllSeen(d, Seen(d, seen, i), i + 1); }
  }

  /** The fields of b from field i on */
  lemma {:induction false} FieldsMerge(d: MsgDesc, a: Msg, b: Msg, i: nat, seen: set<nat>, t: seq<byte>, nullTerm: bool)
    requires ValidDesc(d) && Shaped(d, a) && Typed(d, b) && i <= |d.fields|
    requires EncodeFields(d, b, i).Some? && Readable(d, b)
    ensures Loop(d, State(MergedUpTo(d, a, b, i), seen), EncodeFields(d, b, i).value + t, nullTerm)
            == if ArrivesFrom(d, a, b, i)
               then Loop(d, State(MergedUpTo(d, a, b, |d.fields|), SeenFrom(d, seen, i)), t, nullTerm) else Fail
    decreases d, 1, |d.fields| - i
  {
    if i == |d.fields| {
      assert [] + t == t;
    } else {
      var y := EncodeFields(d, b, i + 1).value;
      assert EncodeFields(d, b, i).value + t == EncodeField(d, b, i).value + (y + t);
      FieldMerges(d, a, b, i, seen, y + t, nullTerm);
      ArrivesStep(d, a, b, i);
      FieldsMerge(d, a, b, i + 1, Seen(d, seen, i), t, nullTerm);
    }
  }

  lemma ArrivesWhenRoom(d: MsgDesc, a: Msg, b: Msg)
    requires Shaped(d, a) && Shaped(d, b)
    ensures ArrivesFrom(d, a, b, 0) <==> Short(d, b) && MsgRoom(d, a, b)
  {
    if ArrivesFrom(d, a, b, 0) {
      forall i | 0 <= i < |d.fields| ensures FieldObeys(Fits32, d, b, i) && FieldRoom(d, a, b, i) {
        assert FieldArrives(d, a, b, i);
      }
      assert Obeys(Fits32, d, b) && MsgRoom(d, a, b);
    }
    if Short(d, b) && MsgRoom(d, a, b) {
      forall i | 0 <= i < |d.fields| ensures FieldArrives(d, a, b, i) {
        assert FieldObeys(Fits32, d, b, i) && FieldRoom(d, a, b, i);
      }
    }
  }

  /** Decoding an encoded message into any message gives their merge, if its nested lengths fit
      32 bits and there is room for it, and fails otherwise. */
  lemma {:induction false} MergeDecodes(d: MsgDesc, a: Msg, b: Msg)
    requires ValidDesc(d) && Typed(d, b) && Shaped(d, a)
    requires EncodeMsg(d, b).Some? && Readable(d, b)
    ensures DecodeInner(d, a, EncodeMsg(d, b).value, false)
            == if Short(d, b) && MsgRoom(d, a, b) then Ok(Merged(d, a, b), []) else Fail
    ensures DecodeInto(d, a, EncodeMsg(d, b).value)
            == if Short(d, b) && MsgRoom(d, a, b) then Some(Merged(d, a, b)) else None
    decreases d, 2
  {
    var e := EncodeMsg(d, b).value;
    FieldsMerge(d, a, b, 0, {}, [], false);
    AllSeen(d, {}, 0);
    MergeEnds(d, a, b);
    assert e + [] == e;
    ArrivesWhenRoom(d, a, b);
  }

  //
  // The merge, field by field
  //

  /** The content of b on top of that of a: submessages merge, anything else is replaced. */
  function OnTop(f: Field, a: Value, b: Value): Value {
    match (f.kind, a, b)
    case (Submessage(desc), Sub(x), Sub(y)) => if Shaped(desc, x) && Shaped(desc, y) then Sub(Merged(desc, x, y)) else b
    case _ => b
  }

  lemma MergeIsOnTop(f: Field, a: Value, b: Value)
    requires ValueTyped(f, a) && ValueTyped(f, b)
    ensures MergeValue(f, a, b) == OnTop(f, a, b)
  {
  }

  lemma {:induction false} CanonItem(f: Field, vs: seq<Value>, k: nat)
    requires k < |vs|
    ensures CanonItems(f, vs)[k] == CanonValue(f, vs[k])
    decreases |vs|
  {
    if k < |vs| - 1 { CanonItem(f, vs[..|vs| - 1], k); }
  }

  /** A field of the merge that is not a union member: the one in b if it is present there, on top
      of that in a; for an array, the elements of both in order. */
  lemma MergedField(d: MsgDesc, a: Msg, b: Msg, i: nat)
    requires ValidDesc(d) && Typed(d, a) && Typed(d, b) && i < |d.fields|
    ensures var f, x, y, z := d.fields[i], a.slots[i], b.slots[i], Merged(d, a, b).slots[i];
            match (f.rule, x, y)
            case (Required, Single(v), Single(w)) => z == Single(OnTop(f, v, w))
            case (Singular, Single(v), Single(w)) => z == if ZeroValue(f, w) then x else Single(OnTop(f, v, w))
            case (Optional, Flagged(_, v), Flagged(has, w)) => z == if has then Flagged(true, OnTop(f, v, w)) else x
            case (Repeated, Items(vs), Items(ws)) =>
              && z.Items? && |z.vs| == |vs| + |ws|
              && (forall k :: 0 <= k < |vs| ==> z.vs[k] == vs[k])
              && forall k :: 0 <= k < |ws| ==> z.vs[|vs| + k] == CanonValue(f, ws[k])
            case (Oneof(_), InUnion, InUnion) => z == InUnion
            case _ => false
  {
    var f, x, y := d.fields[i], a.slots[i], b.slots[i];
    assert SlotTyped(f, x) && SlotTyped(f, y);
    if f.rule.Repeated? {
      forall k | 0 <= k < |y.vs| ensures CanonItems(f, y.vs)[k] == CanonValue(f, y.vs[k]) { CanonItem(f, y.vs, k); }
    } else if !f.rule.Oneof? {
      MergeIsOnTop(f, x.v, y.v);
    }
  }

  /** A union of the merge: the member that b holds, on top of its content in a if a holds the
      same one, and by itself otherwise. */
  lemma MergedUnion(d: MsgDesc, a: Msg, b: Msg, i: nat, u: nat)
    requires ValidDesc(d) && Typed(d, a) && Typed(d, b) && i < |d.fields| && u < d.unions
    requires Holds(d.fields[i], u, b.unions[u])
    ensures var f, x, y := d.fields[i], a.unions[u], b.unions[u];
            Merged(d, a, b).unions[u]
            == Union(f.tag, if x.which == f.tag then OnTop(f, x.v, y.v) else CanonValue(f, y.v))
  {
    var f, x, y := d.fields[i], a.unions[u], b.unions[u];
    FindTagUnique(d, i);
    assert Member(d, u, y) == Some(i) && ValueTyped(f, y.v);
    assert Merged(d, a, b).unions[u] == MergeMember(f, x, y);
    if x.which == f.tag {
      assert Holds(f, u, x) && ValueTyped(f, x.v);
      MergeIsOnTop(f, x.v, y.v);
    } else {
      ValueOnDefault(f, y.v);
    }
  }

  /** A union of which b holds no member stays as it is in a. */
  lemma UnionKept(d: MsgDesc, a: Msg, b: Msg, u: nat)
    requires Shaped(d, a) && Shaped(d, b) && u < d.unions
    requires forall i :: 0 <= i < |d.fields| ==> !Holds(d.fields[i], u, b.unions[u])
    ensures Merged(d, a, b).unions[u] == a.unions[u]
  {
  }
}
