/** The bytes that the encoder writes, taken apart again: tags, lengths and contents, with all
    constants written out. */
module OnTheWire {
  import opened Wire
  import opened Schema
  import opened EncodeSpec
  import opened Acceptance

  /** A value begins with one number, eight times its tag plus its wire type, and goes on with
      its content. */
  lemma TagOnWire(f: Field, v: Value)
    requires EncodeBasic(f, v).Some?
    ensures EncodeContent(f, v).Some?
    ensures RawVarint(EncodeBasic(f, v).value) == Ok(8 * f.tag + GuideWireType(f.kind), EncodeContent(f, v).value)
  {
    RawOfBytes(8 * f.tag + GuideWireType(f.kind), EncodeContent(f, v).value);
  }

  /** Strings and byte arrays are written behind their length. */
  lemma TextOnWire(f: Field, v: Value)
    requires (f.kind.Bytes? || f.kind.String? || f.kind.FixedLengthBytes?) && EncodeContent(f, v).Some?
    ensures v.Str? && RawVarint(EncodeContent(f, v).value) == Ok(|v.s|, v.s)
  {
    RawOfBytes(|v.s|, v.s);
  }

  /** So are submessages. */
  lemma SubmessageOnWire(f: Field, v: Value)
    requires f.kind.Submessage? && EncodeContent(f, v).Some?
    ensures v.Sub? && Shaped(f.kind.desc, v.m) && EncodeMsg(f.kind.desc, v.m).Some?
    ensures var e := EncodeMsg(f.kind.desc, v.m).value; RawVarint(EncodeContent(f, v).value) == Ok(|e|, e)
  {
    var e := EncodeMsg(f.kind.desc, v.m).value;
    RawOfBytes(|e|, e);
  }

  /** An array of numbers is one run of wire type 2, behind its length. */
  lemma RunOnWire(f: Field, vs: seq<Value>)
    requires Packable(f.kind) && vs != [] && EncodeArray(f, vs).Some?
    ensures EncodePacked(f, vs).Some?
    ensures var p, r := EncodePacked(f, vs).value, RawVarint(EncodeArray(f, vs).value);
            r.Ok? && r.value == 8 * f.tag + 2 && RawVarint(r.rest) == Ok(|p|, p)
  {
    var p := EncodePacked(f, vs).value;
    RawOfBytes(8 * f.tag + 2, Delimited(p));
    RawOfBytes(|p|, p);
  }

  /** A framed message: behind its length, or with a zero byte behind it */
  lemma FrameOnWire(d: MsgDesc, m: Msg)
    requires Shaped(d, m) && EncodeMsg(d, m).Some?
    ensures var e := EncodeMsg(d, m).value;
            && FramedBytes(d, m, Plain) == Some(e)
            && FramedBytes(d, m, NullTerminated) == Some(e + Zeros(1))
            && FramedBytes(d, m, WithLength).Some?
            && RawVarint(FramedBytes(d, m, WithLength).value) == Ok(|e|, e)
  {
    var e := EncodeMsg(d, m).value;
    RawOfBytes(|e|, e);
    assert Zeros(1) == [0];
  }

  //
  // What is not written
  //

  lemma ArrayNotSilent(f: Field, vs: seq<Value>)
    requires vs != []
    ensures EncodeArray(f, vs) != Some([])
  {
    assert EncodeBasic(f, vs[0]).Some? ==> EncodeBasic(f, vs[0]).value != [];
    assert EncodeItems(f, vs) == Join(EncodeBasic(f, vs[0]), EncodeItems(f, vs[1..]));
  }

  /** A field leaves no bytes exactly if it is absent. */
  lemma SilentExactly(d: MsgDesc, m: Msg, i: nat)
    requires Typed(d, m) && i < |d.fields|
    requires d.fields[i].rule.Oneof? ==> d.fields[i].rule.union < d.unions
    ensures EncodeField(d, m, i) == Some([]) <==> Absent(d, m, i)
  {
    var f := d.fields[i];
    assert SlotTyped(f, m.slots[i]);
    if f.rule.Repeated? && m.slots[i].vs != [] { ArrayNotSilent(f, m.slots[i].vs); }
  }

  lemma JoinSilent(a: Option<seq<byte>>, b: Option<seq<byte>>)
    ensures Join(a, b) == Some([]) <==> a == Some([]) && b == Some([])
  {
    if a.Some? && b.Some? && a.value + b.value == [] {
      assert |a.value + b.value| == 0;
    }
  }

  lemma SilentStep(d: MsgDesc, m: Msg, i: nat)
    requires ValidDesc(d) && Typed(d, m) && i < |d.fields|
    ensures EncodeFields(d, m, i) == Some([]) <==> Absent(d, m, i) && EncodeFields(d, m, i + 1) == Some([])
  {
    SilentExactly(d, m, i);
    JoinSilent(EncodeField(d, m, i), EncodeFields(d, m, i + 1));
  }

  lemma {:induction false} SilentFrom(d: MsgDesc, m: Msg, i: nat)
    requires ValidDesc(d) && Typed(d, m) && i <= |d.fields|
    ensures EncodeFields(d, m, i) == Some([]) <==> forall j :: i <= j < |d.fields| ==> Absent(d, m, j)
    decreases |d.fields| - i
  {
    if i < |d.fields| {
      SilentStep(d, m, i);
      SilentFrom(d, m, i + 1);
    }
  }

  /** A submessage counts as zero exactly if it is written as nothing and no oneof in it holds
      anything, declared or not. */
  lemma ZeroMsgExactly(d: MsgDesc, m: Msg)
    requires ValidDesc(d) && Typed(d, m)
    ensures ZeroMsg(d, m)
            <==> && EncodeMsg(d, m) == Some([])
                 && forall i :: 0 <= i < |d.fields| && d.fields[i].rule.Oneof?
                      ==> m.unions[d.fields[i].rule.union].which == 0
  {
    SilentFrom(d, m, 0);
    forall i | 0 <= i < |d.fields|
      ensures ZeroSlot(d, m, i)
              <==> Absent(d, m, i)
                   && (d.fields[i].rule.Oneof? ==> m.unions[d.fields[i].rule.union].which == 0)
    {
      assert SlotTyped(d.fields[i], m.slots[i]);
    }
  }

  /** Numbers count as zero if they are, strings and byte arrays if they are empty, arrays of
      fixed length only if that length is zero, and submessages if all their fields do. */
  lemma ZeroValueExactly(f: Field, v: Value)
    requires ValidKind(f.kind, f.dataSize) && ValueTyped(f, v)
    ensures ZeroValue(f, v)
            <==> (Packable(f.kind) && v == Num(0))
                 || ((f.kind.Bytes? || f.kind.String?) && v == Str([]))
                 || (f.kind.FixedLengthBytes? && f.dataSize == 0)
                 || (f.kind.Submessage? && v.Sub? && Shaped(f.kind.desc, v.m) && ZeroMsg(f.kind.desc, v.m))
  {
  }

  predicate IsZeroed(f: Field, v: Value) {
    match f.kind
    case Bytes | String => v == Str([])
    case FixedLengthBytes => v.Str? && |v.s| == f.dataSize && forall k :: 0 <= k < |v.s| ==> v.s[k] == 0
    case Submessage(desc) => v == Sub(DefaultMsg(desc))
    case _ => v == Num(0)
  }

  lemma DefaultIsZeroed(f: Field)
    ensures IsZeroed(f, DefaultValue(f))
  {
  }

  /** A message that was reset has zeros everywhere. */
  lemma DefaultsAreZero(d: MsgDesc, i: nat)
    requires i < |d.fields|
    ensures var f, slot := d.fields[i], DefaultMsg(d).slots[i];
            match f.rule
            case Required | Singular => slot.Single? && IsZeroed(f, slot.v)
            case Optional => slot.Flagged? && !slot.has && IsZeroed(f, slot.v)
            case Repeated => slot == Items([])
            case Oneof(u) => slot == InUnion && (u < d.unions ==> DefaultMsg(d).unions[u].which == 0)
  {
    DefaultIsZeroed(d.fields[i]);
  }
}
