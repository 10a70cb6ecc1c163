/** What a successful decode of arbitrary bytes guarantees of the message, and exactly when a
    message can be encoded. */
module Integrity {
  import opened Wire
  import opened Schema
  import opened Numbers
  import opened EncodeSpec
  import opened DecodeSpec
  import opened MaxSize
  import opened Lengths
  import opened RoundTrip

  //
  // Messages within the capacities of their struct
  //

  predicate ValueFits(f: Field, v: Value)
    decreases f, 0
  {
    match (f.kind, v)
    case (String, Str(s)) => |s| < f.dataSize
    case (Bytes, Str(s)) => |s| + 2 <= f.dataSize
    case (Submessage(desc), Sub(m)) => Shaped(desc, m) && Fits(desc, m)
    case _ => true
  }

  /** What is present in a slot is within its capacity. */
  predicate SlotFits(f: Field, slot: Slot)
    decreases f, 1
  {
    match (f.rule, slot)
    case (Required, Single(v)) => ValueFits(f, v)
    case (Singular, Single(v)) => ZeroValue(f, v) || ValueFits(f, v)
    case (Optional, Flagged(has, v)) => has ==> ValueFits(f, v)
    case (Repeated, Items(vs)) => |vs| <= f.arraySize && forall k :: 0 <= k < |vs| ==> ValueFits(f, vs[k])
    case _ => true
  }

  /** Every string has its NUL inside its buffer, every byte array and every count is within
      its capacity, in everything that is present. */
  predicate Fits(d: MsgDesc, m: Msg)
    requires Shaped(d, m)
    decreases d
  {
    && (forall i :: 0 <= i < |d.fields| ==> SlotFits(d.fields[i], m.slots[i]))
    && forall i, u :: 0 <= i < |d.fields| && 0 <= u < d.unions && Holds(d.fields[i], u, m.unions[u])
        ==> ValueFits(d.fields[i], m.unions[u].v)
  }

  /** Every which-tag is 0 or that of a member of its union. */
  predicate Declared(d: MsgDesc, m: Msg)
    requires Shaped(d, m)
  {
    forall u :: 0 <= u < d.unions ==> m.unions[u].which == 0 || Member(d, u, m.unions[u]).Some?
  }

  //
  // Encoding succeeds exactly on messages that fit.
  //

  lemma {:induction false} ContentExactlyWhenFits(f: Field, v: Value)
    requires ValidKind(f.kind, f.dataSize) && ValueTyped(f, v)
    ensures EncodeContent(f, v).Some? <==> ValueFits(f, v)
    ensures EncodeBasic(f, v).Some? <==> ValueFits(f, v)
    decreases f, 0
  {
    if f.kind.Submessage? { EncodesExactlyWhenFits(f.kind.desc, v.m); }
  }

  lemma {:induction false} ItemsExactlyWhenFit(f: Field, vs: seq<Value>)
    requires ValidKind(f.kind, f.dataSize) && forall k :: 0 <= k < |vs| ==> ValueTyped(f, vs[k])
    ensures EncodeItems(f, vs).Some? <==> forall k :: 0 <= k < |vs| ==> ValueFits(f, vs[k])
    decreases f, 1, |vs|
  {
    if vs != [] {
      ContentExactlyWhenFits(f, vs[0]);
      ItemsExactlyWhenFit(f, vs[1..]);
      assert forall k :: 1 <= k < |vs| ==> vs[k] == vs[1..][k - 1];
    }
  }

  lemma {:induction false} PackedAlwaysEncodes(f: Field, vs: seq<Value>)
    requires Packable(f.kind) && forall k :: 0 <= k < |vs| ==> ValueTyped(f, vs[k])
    ensures EncodePacked(f, vs).Some?
  {
    if vs != [] { PackedAlwaysEncodes(f, vs[1..]); }
  }

  predicate FieldFits(d: MsgDesc, m: Msg, i: nat)
    requires Shaped(d, m) && i < |d.fields|
  {
    && SlotFits(d.fields[i], m.slots[i])
    && forall u :: 0 <= u < d.unions && Holds(d.fields[i], u, m.unions[u]) ==> ValueFits(d.fields[i], m.unions[u].v)
  }

  lemma {:induction false} FieldExactlyWhenFits(d: MsgDesc, m: Msg, i: nat)
    requires ValidDesc(d) && Typed(d, m) && i < |d.fields|
    ensures EncodeField(d, m, i).Some? <==> FieldFits(d, m, i)
    decreases d, 0
  {
    var f, slot := d.fields[i], m.slots[i];
    assert SlotTyped(f, slot);
    match f.rule
    case Required | Singular | Optional => ContentExactlyWhenFits(f, slot.v);
    case Repeated =>
      if Packable(f.kind) {
        PackedAlwaysEncodes(f, slot.vs);
        assert forall k :: 0 <= k < |slot.vs| ==> ValueTyped(f, slot.vs[k]) && ValueFits(f, slot.vs[k]);
      } else {
        ItemsExactlyWhenFit(f, slot.vs);
      }
    case Oneof(u) =>
      if Holds(f, u, m.unions[u]) { ContentExactlyWhenFits(f, m.unions[u].v); }
  }

  predicate Encodes(d: MsgDesc, m: Msg, i: nat)
    requires Shaped(d, m) && i < |d.fields|
  {
    EncodeField(d, m, i).Some?
  }

  lemma {:induction false} FieldsExactlyWhenFit(d: MsgDesc, m: Msg, i: nat)
    requires Shaped(d, m) && i <= |d.fields|
    ensures EncodeFields(d, m, i).Some? <==> forall j :: i <= j < |d.fields| ==> Encodes(d, m, j)
    decreases |d.fields| - i
  {
    if i < |d.fields| {
      FieldsExactlyWhenFit(d, m, i + 1);
      assert EncodeFields(d, m, i).Some? <==> Encodes(d, m, i) && EncodeFields(d, m, i + 1).Some?;
    }
  }

  lemma FitsByField(d: MsgDesc, m: Msg)
    requires Shaped(d, m)
    ensures Fits(d, m) <==> forall i :: 0 <= i < |d.fields| ==> FieldFits(d, m, i)
  {
    if forall i :: 0 <= i < |d.fields| ==> FieldFits(d, m, i) {
      forall i | 0 <= i < |d.fields| ensures SlotFits(d.fields[i], m.slots[i]) {
        assert FieldFits(d, m, i);
      }
      forall i, u | 0 <= i < |d.fields| && 0 <= u < d.unions && Holds(d.fields[i], u, m.unions[u])
        ensures ValueFits(d.fields[i], m.unions[u].v)
      {
        assert FieldFits(d, m, i);
      }
    }
  }

  /** pb_encode (without a buffer limit) fails exactly on a struct that breaks a capacity. */
  lemma {:induction false} EncodesExactlyWhenFits(d: MsgDesc, m: Msg)
    requires ValidDesc(d) && Typed(d, m)
    ensures EncodeMsg(d, m).Some? <==> Fits(d, m)
    decreases d, 1
  {
    FieldsExactlyWhenFit(d, m, 0);
    forall i | 0 <= i < |d.fields| ensures Encodes(d, m, i) <==> FieldFits(d, m, i) {
      FieldExactlyWhenFits(d, m, i);
    }
    FitsByField(d, m);
  }

  //
  // Messages that a decoder may leave behind
  //

  predicate SoundValue(f: Field, v: Value)
    decreases f, 0
  {
    ValueTyped(f, v) && ValueFits(f, v) && (f.kind.Submessage? ==> v.Sub? && Sound(f.kind.desc, v.m))
  }

  predicate SoundSlot(f: Field, slot: Slot)
    decreases f, 1
  {
    match f.rule
    case Required | Singular => slot.Single? && SoundValue(f, slot.v)
    case Optional => slot.Flagged? && SoundValue(f, slot.v)
    case Repeated =>
      slot.Items? && |slot.vs| <= f.arraySize && forall k :: 0 <= k < |slot.vs| ==> SoundValue(f, slot.vs[k])
    case Oneof(_) => slot.InUnion?
  }

  predicate SoundUnion(d: MsgDesc, u: nat, un: Union)
    decreases d, 0
  {
    match Member(d, u, un)
    case None => un.which == 0
    case Some(i) => SoundValue(d.fields[i], un.v)
  }

  /** Counts within capacity, strings terminated in their buffers, which-tags 0 or declared,
      in the message and in every submessage it holds. */
  predicate Sound(d: MsgDesc, m: Msg)
    decreases d, 1
  {
    && Shaped(d, m)
    && (forall i :: 0 <= i < |d.fields| ==> SoundSlot(d.fields[i], m.slots[i]))
    && forall u :: 0 <= u < d.unions ==> SoundUnion(d, u, m.unions[u])
  }

  lemma MemberIsTheHolder(d: MsgDesc, i: nat, u: nat, un: Union)
    requires ValidDesc(d) && i < |d.fields| && Holds(d.fields[i], u, un)
    ensures Member(d, u, un) == Some(i)
  {
    FindTagUnique(d, i);
  }

  /** A sound message is well typed and within its capacities, so it can be encoded. */
  lemma SoundMessages(d: MsgDesc, m: Msg)
    requires ValidDesc(d) && Sound(d, m)
    ensures Typed(d, m) && Fits(d, m) && Declared(d, m)
    ensures EncodeMsg(d, m).Some?
  {
    forall i | 0 <= i < |d.fields| ensures SlotTyped(d.fields[i], m.slots[i]) && SlotFits(d.fields[i], m.slots[i]) {
      assert SoundSlot(d.fields[i], m.slots[i]);
    }
    forall i, u | 0 <= i < |d.fields| && 0 <= u < d.unions && Holds(d.fields[i], u, m.unions[u])
      ensures ValueTyped(d.fields[i], m.unions[u].v) && ValueFits(d.fields[i], m.unions[u].v)
    {
      MemberIsTheHolder(d, i, u, m.unions[u]);
      assert SoundUnion(d, u, m.unions[u]);
      assert SoundValue(d.fields[i], m.unions[u].v);
    }
    forall u | 0 <= u < d.unions ensures m.unions[u].which == 0 || Member(d, u, m.unions[u]).Some? {
      assert SoundUnion(d, u, m.unions[u]);
    }
    EncodesExactlyWhenFits(d, m);
  }

  //
  // Decoding keeps a message sound, and canonical if it was (c).
  //

  predicate GoodValue(f: Field, v: Value, c: bool) {
    SoundValue(f, v) && (c ==> CanonValue(f, v) == v)
  }

  predicate GoodItems(f: Field, vs: seq<Value>, c: bool) {
    |vs| <= f.arraySize && forall k :: 0 <= k < |vs| ==> GoodValue(f, vs[k], c)
  }

  predicate GoodSlot(f: Field, slot: Slot, c: bool) {
    SoundSlot(f, slot) && (c ==> CanonSlot(f, slot) == slot)
  }

  predicate GoodUnion(d: MsgDesc, u: nat, un: Union, c: bool) {
    SoundUnion(d, u, un) && (c ==> CanonUnion(d, u, un) == un)
  }

  predicate Good(d: MsgDesc, m: Msg, c: bool) {
    && Shaped(d, m)
    && (forall i :: 0 <= i < |d.fields| ==> GoodSlot(d.fields[i], m.slots[i], c))
    && forall u :: 0 <= u < d.unions ==> GoodUnion(d, u, m.unions[u], c)
  }

  lemma GoodMessages(d: MsgDesc, m: Msg, c: bool)
    ensures Good(d, m, c) <==> Sound(d, m) && (c ==> Canon(d, m) == m)
  {
    if Good(d, m, c) {
      assert forall i :: 0 <= i < |d.fields| ==>
          GoodSlot(d.fields[i], m.slots[i], c) && SoundSlot(d.fields[i], m.slots[i]);
      assert forall u :: 0 <= u < d.unions ==> GoodUnion(d, u, m.unions[u], c) && SoundUnion(d, u, m.unions[u]);
      if c {
        assert Canon(d, m).slots == m.slots;
        assert Canon(d, m).unions == m.unions;
      }
    }
    if Sound(d, m) && (c ==> Canon(d, m) == m) {
      forall i | 0 <= i < |d.fields| ensures GoodSlot(d.fields[i], m.slots[i], c) {
        assert c ==> Canon(d, m).slots[i] == m.slots[i];
      }
      forall u | 0 <= u < d.unions ensures GoodUnion(d, u, m.unions[u], c) {
        assert c ==> Canon(d, m).unions[u] == m.unions[u];
      }
    }
  }

  lemma {:induction false} GoodItemsCanon(f: Field, vs: seq<Value>)
    ensures CanonItems(f, vs) == vs <==> forall k :: 0 <= k < |vs| ==> CanonValue(f, vs[k]) == vs[k]
  {
    if vs != [] {
      var n := |vs| - 1;
      GoodItemsCanon(f, vs[..n]);
      assert vs == vs[..n] + [vs[n]];
      assert CanonItems(f, vs)[..n] == CanonItems(f, vs[..n]);
      assert forall k :: 0 <= k < n ==> vs[k] == vs[..n][k];
    }
  }

  lemma {:induction false} DefaultValueGood(f: Field)
    requires ValidKind(f.kind, f.dataSize)
    ensures GoodValue(f, DefaultValue(f), true)
    decreases f, 0
  {
    if f.kind.Submessage? { DefaultMsgGood(f.kind.desc); }
  }

  lemma {:induction false} DefaultMsgGood(d: MsgDesc)
    requires ValidDesc(d)
    ensures Good(d, DefaultMsg(d), true)
    ensures Sound(d, DefaultMsg(d)) && Canon(d, DefaultMsg(d)) == DefaultMsg(d)
    ensures Typed(d, DefaultMsg(d)) && Fits(d, DefaultMsg(d))
    decreases d, 1
  {
    forall i | 0 <= i < |d.fields| ensures GoodSlot(d.fields[i], DefaultMsg(d).slots[i], true) {
      DefaultValueGood(d.fields[i]);
    }
    forall u | 0 <= u < d.unions ensures GoodUnion(d, u, NO_MEMBER, true) {
      assert Member(d, u, NO_MEMBER).None?;
    }
    GoodMessages(d, DefaultMsg(d), true);
    SoundMessages(d, DefaultMsg(d));
  }

  lemma {:induction false} PayloadKeepsGood(f: Field, prior: Value, p: seq<byte>, c: bool)
    requires ValidKind(f.kind, f.dataSize) && GoodValue(f, prior, c)
    ensures var r := DecodePayload(f, prior, p); r.Some? ==> GoodValue(f, r.value, c)
    decreases |p|, 6
  {
    if f.kind.Submessage? {
      var desc := f.kind.desc;
      GoodMessages(desc, prior.m, c);
      DecodeKeepsGood(desc, prior.m, p, false, c);
      var r := DecodeInner(desc, prior.m, p, false);
      if r.Ok? {
        GoodMessages(desc, r.value, c);
        SoundMessages(desc, r.value);
      }
    }
  }

  lemma {:induction false} BasicKeepsGood(f: Field, wt: nat, prior: Value, s: seq<byte>, c: bool)
    requires ValidKind(f.kind, f.dataSize) && GoodValue(f, prior, c)
    ensures var r := DecodeBasic(f, wt, prior, s); r.Ok? ==> GoodValue(f, r.value, c)
    decreases |s|, 0
  {
    if Payload(s).Ok? { PayloadKeepsGood(f, prior, Payload(s).value, c); }
  }

  lemma {:induction false} PackedKeepsGood(f: Field, vs: seq<Value>, p: seq<byte>, c: bool)
    requires ValidKind(f.kind, f.dataSize) && GoodItems(f, vs, c)
    ensures var r := DecodePacked(f, vs, p); r.Some? ==> GoodItems(f, r.value, c)
    decreases |p|
  {
    if p != [] && |vs| < f.arraySize && Packable(f.kind) {
      var r := DecodeNum(f.kind, f.dataSize, p);
      if r.Ok? { PackedKeepsGood(f, vs + [Num(r.value)], r.rest, c); }
    }
  }

  lemma {:induction false} RepeatedKeepsGood(f: Field, vs: seq<Value>, wt: nat, s: seq<byte>, c: bool)
    requires ValidKind(f.kind, f.dataSize) && GoodItems(f, vs, c)
    ensures var r := ApplyRepeated(f, vs, wt, s); r.Ok? ==> GoodItems(f, r.value, c)
    decreases |s|, 1
  {
    if wt == WT_STRING && Packable(f.kind) {
      if Payload(s).Ok? { PackedKeepsGood(f, vs, Payload(s).value, c); }
    } else {
      DefaultValueGood(f);
      BasicKeepsGood(f, wt, DefaultValue(f), s, c);
    }
  }

  lemma GoodWithSlot(d: MsgDesc, m: Msg, i: nat, slot: Slot, c: bool)
    requires Good(d, m, c) && i < |d.fields| && GoodSlot(d.fields[i], slot, c)
    ensures Good(d, m.(slots := m.slots[i := slot]), c)
  {
  }

  lemma {:induction false} ArrayKeepsGood(d: MsgDesc, m: Msg, i: nat, wt: nat, s: seq<byte>, c: bool)
    requires ValidDesc(d) && Good(d, m, c) && i < |d.fields| && d.fields[i].rule.Repeated?
    ensures var r := ApplyField(d, m, i, wt, s); r.Ok? ==> Good(d, r.value, c)
    decreases |s|, 2
  {
    var f := d.fields[i];
    assert GoodSlot(f, m.slots[i], c);
    var r := ApplyRepeated(f, m.slots[i].vs, wt, s);
    GoodItemsCanon(f, m.slots[i].vs);
    RepeatedKeepsGood(f, m.slots[i].vs, wt, s, c);
    if r.Ok? {
      GoodItemsCanon(f, r.value);
      GoodWithSlot(d, m, i, Items(r.value), c);
    }
  }

  lemma GoodWithUnion(d: MsgDesc, m: Msg, u: nat, un: Union, c: bool)
    requires Good(d, m, c) && u < d.unions && GoodUnion(d, u, un, c)
    ensures Good(d, m.(unions := m.unions[u := un]), c)
  {
  }

  lemma HeldInUnionGood(d: MsgDesc, i: nat, u: nat, un: Union, c: bool)
    requires ValidDesc(d) && i < |d.fields| && d.fields[i].rule == Oneof(u) && GoodUnion(d, u, un, c)
    ensures GoodValue(d.fields[i], HeldInUnion(d.fields[i], un), c)
  {
    DefaultValueGood(d.fields[i]);
    if un.which == d.fields[i].tag { MemberIsTheHolder(d, i, u, un); }
  }

  lemma {:induction false} MemberKeepsGood(d: MsgDesc, m: Msg, i: nat, u: nat, wt: nat, s: seq<byte>, c: bool)
    requires ValidDesc(d) && Good(d, m, c) && i < |d.fields| && d.fields[i].rule == Oneof(u)
    ensures var r := ApplyField(d, m, i, wt, s); r.Ok? ==> Good(d, r.value, c)
    decreases |s|, 2
  {
    var f := d.fields[i];
    assert GoodUnion(d, u, m.unions[u], c);
    HeldInUnionGood(d, i, u, m.unions[u], c);
    var r := DecodeBasic(f, wt, HeldInUnion(f, m.unions[u]), s);
    BasicKeepsGood(f, wt, HeldInUnion(f, m.unions[u]), s, c);
    if r.Ok? {
      MemberIsTheHolder(d, i, u, Union(f.tag, r.value));
      GoodWithUnion(d, m, u, Union(f.tag, r.value), c);
    }
  }

  lemma {:induction false} FieldKeepsGood(d: MsgDesc, m: Msg, i: nat, wt: nat, s: seq<byte>, c: bool)
    requires ValidDesc(d) && Good(d, m, c) && i < |d.fields|
    ensures var r := ApplyField(d, m, i, wt, s); r.Ok? ==> Good(d, r.value, c)
    decreases |s|, 3
  {
    match d.fields[i].rule
    case Required | Singular | Optional => SingleKeepsGood(d, m, i, wt, s, c);
    case Repeated => ArrayKeepsGood(d, m, i, wt, s, c);
    case Oneof(u) => MemberKeepsGood(d, m, i, u, wt, s, c);
  }

  lemma {:induction false} SingleKeepsGood(d: MsgDesc, m: Msg, i: nat, wt: nat, s: seq<byte>, c: bool)
    requires ValidDesc(d) && Good(d, m, c) && i < |d.fields|
    requires !d.fields[i].rule.Repeated? && !d.fields[i].rule.Oneof?
    ensures var r := ApplyField(d, m, i, wt, s); r.Ok? ==> Good(d, r.value, c)
    decreases |s|, 1
  {
    var f := d.fields[i];
    assert GoodSlot(f, m.slots[i], c);
    DefaultValueGood(f);
    BasicKeepsGood(f, wt, Held(f, m.slots[i]), s, c);
    var r := DecodeBasic(f, wt, Held(f, m.slots[i]), s);
    if r.Ok? {
      GoodWithSlot(d, m, i, if f.rule.Optional? then Flagged(true, r.value) else Single(r.value), c);
    }
  }

  lemma {:induction false} LoopKeepsGood(d: MsgDesc, st: State, s: seq<byte>, nullTerm: bool, c: bool)
    requires ValidDesc(d) && Good(d, st.m, c)
    ensures var r := Loop(d, st, s, nullTerm); r.Ok? ==> Good(d, r.value.m, c)
    decreases |s|, 4
  {
    if s != [] && Varint32(s).Ok? {
      var v, s1 := Varint32(s).value, Varint32(s).rest;
      var i := FindTag(d.fields, v / 8);
      if i.Some? { FieldKeepsGood(d, st.m, i.value, v % 8, s1, c); }
      var r := Step(d, st, s);
      if r.Next? { LoopKeepsGood(d, r.st, r.rest, nullTerm, c); }
    }
  }

  lemma {:induction false} DecodeKeepsGood(d: MsgDesc, m: Msg, s: seq<byte>, nullTerm: bool, c: bool)
    requires ValidDesc(d) && Good(d, m, c)
    ensures var r := DecodeInner(d, m, s, nullTerm); r.Ok? ==> Good(d, r.value, c)
    decreases |s|, 5
  {
    LoopKeepsGood(d, State(m, {}), s, nullTerm, c);
  }

  //
  // Main results
  //

  /** Decoding any bytes on top of a sound message leaves a sound message. */
  lemma DecodeIsSound(d: MsgDesc, m: Msg, s: seq<byte>)
    requires ValidDesc(d) && Sound(d, m) && DecodeInto(d, m, s).Some?
    ensures Sound(d, DecodeInto(d, m, s).value)
  {
    GoodMessages(d, m, false);
    DecodeKeepsGood(d, m, s, false, false);
    GoodMessages(d, DecodeInto(d, m, s).value, false);
  }

  /** Whatever bytes were decoded, the message encodes again, and those bytes decode to the
      very same message if its nested lengths fit 32 bits, and are refused otherwise, unless
      one of the lengths is misread. */
  lemma DecodedMessagesReencode(d: MsgDesc, s: seq<byte>)
    requires ValidDesc(d) && Decode(d, s).Some?
    ensures var m := Decode(d, s).value;
            && Sound(d, m)
            && EncodeMsg(d, m).Some?
            && (Readable(d, m) ==> Decode(d, EncodeMsg(d, m).value) == if Short(d, m) then Some(m) else None)
  {
    DefaultMsgGood(d);
    DecodeKeepsGood(d, DefaultMsg(d), s, false, true);
    var m := Decode(d, s).value;
    GoodMessages(d, m, true);
    SoundMessages(d, m);
    if Readable(d, m) { MessageRoundTrip(d, m); }
  }

  /** For a type whose maximum size fits 32 bits, without condition: whatever was decoded
      encodes to bytes that decode to the very same message. */
  lemma BoundedReencode(d: MsgDesc, s: seq<byte>)
    requires ValidDesc(d) && MaxEncodedSize(d) < TWO32 && Decode(d, s).Some?
    ensures EncodeMsg(d, Decode(d, s).value).Some?
    ensures Decode(d, EncodeMsg(d, Decode(d, s).value).value) == Decode(d, s)
  {
    DecodedMessagesReencode(d, s);
    SoundMessages(d, Decode(d, s).value);
    BoundedIsShort(d, Decode(d, s).value);
  }
}
