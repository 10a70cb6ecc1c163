/** Fields with an undeclared tag leave no trace in the decoded message, wherever they stand. */
module UnknownFields {
  import opened Wire
  import opened Schema
  import opened DecodeSpec
  import opened Acceptance
  import opened Concatenation
  import opened Locality
  import opened FieldSteps
  import Varints

  /** u is one complete field with a nonzero tag that d does not declare. */
  predicate UnknownField(d: MsgDesc, u: seq<byte>) {
    && Varint32(u).Ok?
    && Varint32(u).value / 8 != 0
    && FindTag(d.fields, Varint32(u).value / 8).None?
    && SkipField(Varint32(u).value % 8, Varint32(u).rest) == Ok((), [])
  }

  /** Any undeclared tag below 2^29 and any content make such a field. */
  lemma UnknownFieldForms(d: MsgDesc, tag: nat, wt: nat, c: seq<byte>)
    requires 0 < tag < 0x2000_0000 && FindTag(d.fields, tag).None? && IsContent(wt, c)
    ensures UnknownField(d, TagBytes(tag, wt) + c)
  {
    ContentSkipped(wt, c, []);
    assert c + [] == c;
    Varints.Varint32OfBytes(8 * tag + wt, c);
  }

  /** Where an unknown field is put in: between x and y, or inside the submessage of field i
      that stands between x and y. */
  datatype Place =
    | Here(x: seq<byte>, u: seq<byte>, y: seq<byte>)
    | Inside(x: seq<byte>, i: nat, inner: Place, y: seq<byte>)

  /** One submessage field with payload p */
  function FieldBytes(f: Field, p: seq<byte>): seq<byte> {
    TagBytes(f.tag, WT_STRING) + Delimited(p)
  }

  /** The bytes without the unknown field, and with it */
  function Without(d: MsgDesc, p: Place): seq<byte>
    decreases p
  {
    match p
    case Here(x, u, y) => x + y
    case Inside(x, i, inner, y) =>
      if i < |d.fields| && d.fields[i].kind.Submessage?
      then x + (FieldBytes(d.fields[i], Without(d.fields[i].kind.desc, inner)) + y) else x + y
  }

  function With(d: MsgDesc, p: Place): seq<byte>
    decreases p
  {
    match p
    case Here(x, u, y) => x + (u + y)
    case Inside(x, i, inner, y) =>
      if i < |d.fields| && d.fields[i].kind.Submessage?
      then x + (FieldBytes(d.fields[i], With(d.fields[i].kind.desc, inner)) + y) else x + y
  }

  /** The value that field i decodes on top of */
  function Prior(d: MsgDesc, m: Msg, i: nat): Value
    requires Shaped(d, m) && i < |d.fields|
  {
    var f := d.fields[i];
    match f.rule
    case Repeated => DefaultValue(f)
    case Oneof(u) => if u < d.unions then HeldInUnion(f, m.unions[u]) else DefaultValue(f)
    case _ => Held(f, m.slots[i])
  }

  /** Decoding into m reaches the place, and what stands there is an unknown field. */
  predicate Reached(d: MsgDesc, m: Msg, p: Place)
    requires Shaped(d, m)
    decreases p
  {
    && Loop(d, State(m, {}), p.x, false).Ok?
    && match p
       case Here(x, u, y) => UnknownField(d, u)
       case Inside(x, i, inner, y) =>
         && i < |d.fields| && d.fields[i].kind.Submessage?
         && var desc := d.fields[i].kind.desc;
         && |Without(desc, inner)| < TWO32 && |With(desc, inner)| < TWO32
         && Reached(desc, MsgIn(desc, Prior(d, Loop(d, State(m, {}), x, false).value.m, i)), inner)
  }

  lemma UnknownStep(d: MsgDesc, st: State, u: seq<byte>, y: seq<byte>)
    requires Shaped(d, st.m) && UnknownField(d, u)
    ensures Step(d, st, u + y) == Next(st, y)
  {
    assert Step(d, st, u) == Next(st, []);
    StepExtend(d, st, u, y);
    assert [] + y == y;
  }

  lemma PayloadStep(d: MsgDesc, st: State, i: nat, p: seq<byte>, y: seq<byte>)
    requires ValidDesc(d) && Shaped(d, st.m) && i < |d.fields|
    ensures Step(d, st, FieldBytes(d.fields[i], p) + y) == FieldStep(d, st, i, WT_STRING, Delimited(p) + y)
  {
    KnownStep(d, st, i, WT_STRING, Delimited(p) + y);
    assert FieldBytes(d.fields[i], p) + y == TagBytes(d.fields[i].tag, WT_STRING) + (Delimited(p) + y);
  }

  lemma SubmessageApply(d: MsgDesc, m: Msg, i: nat, a: seq<byte>, b: seq<byte>, sa: seq<byte>, sb: seq<byte>)
    requires Shaped(d, m) && i < |d.fields| && d.fields[i].kind.Submessage?
    requires Payload(sa).Ok? && Payload(sb).Ok? && Payload(sa).rest == Payload(sb).rest
    requires Payload(sa).value == a && Payload(sb).value == b
    requires var desc := d.fields[i].kind.desc;
             var base := MsgIn(desc, Prior(d, m, i));
             DecodeInner(desc, base, a, false) == DecodeInner(desc, base, b, false)
    ensures ApplyField(d, m, i, WT_STRING, sa) == ApplyField(d, m, i, WT_STRING, sb)
  {
    var f := d.fields[i];
    assert DecodeBasic(f, WT_STRING, Prior(d, m, i), sa) == DecodeBasic(f, WT_STRING, Prior(d, m, i), sb);
  }

  /** A submessage field acts through what its payload decodes to, and through nothing else. */
  lemma SubmessageStep(d: MsgDesc, st: State, i: nat, a: seq<byte>, b: seq<byte>, y: seq<byte>)
    requires ValidDesc(d) && Shaped(d, st.m) && i < |d.fields| && d.fields[i].kind.Submessage?
    requires |a| < TWO32 && |b| < TWO32
    requires var desc := d.fields[i].kind.desc;
             var m := MsgIn(desc, Prior(d, st.m, i));
             DecodeInner(desc, m, a, false) == DecodeInner(desc, m, b, false)
    ensures Step(d, st, FieldBytes(d.fields[i], a) + y) == Step(d, st, FieldBytes(d.fields[i], b) + y)
  {
    PayloadOfDelimited(a, y);
    PayloadOfDelimited(b, y);
    SubmessageApply(d, st.m, i, a, b, Delimited(a) + y, Delimited(b) + y);
    PayloadStep(d, st, i, a, y);
    PayloadStep(d, st, i, b, y);
  }

  lemma UnknownHere(d: MsgDesc, m: Msg, x: seq<byte>, u: seq<byte>, y: seq<byte>, nullTerm: bool)
    requires Shaped(d, m) && UnknownField(d, u) && Loop(d, State(m, {}), x, false).Ok?
    ensures Loop(d, State(m, {}), x + (u + y), nullTerm) == Loop(d, State(m, {}), x + y, nullTerm)
  {
    var st := Loop(d, State(m, {}), x, false).value;
    LoopConcat(d, State(m, {}), x, u + y, nullTerm);
    LoopConcat(d, State(m, {}), x, y, nullTerm);
    UnknownStep(d, st, u, y);
    assert u != [];
    assert Loop(d, st, u + y, nullTerm) == Loop(d, st, y, nullTerm);
  }

  lemma UnknownInside(
    d: MsgDesc, m: Msg, x: seq<byte>, i: nat, a: seq<byte>, b: seq<byte>, y: seq<byte>, nullTerm: bool)
    requires ValidDesc(d) && Shaped(d, m) && i < |d.fields| && d.fields[i].kind.Submessage?
    requires |a| < TWO32 && |b| < TWO32 && Loop(d, State(m, {}), x, false).Ok?
    requires var desc := d.fields[i].kind.desc;
             var base := MsgIn(desc, Prior(d, Loop(d, State(m, {}), x, false).value.m, i));
             DecodeInner(desc, base, a, false) == DecodeInner(desc, base, b, false)
    ensures Loop(d, State(m, {}), x + (FieldBytes(d.fields[i], a) + y), nullTerm)
            == Loop(d, State(m, {}), x + (FieldBytes(d.fields[i], b) + y), nullTerm)
  {
    var st := Loop(d, State(m, {}), x, false).value;
    SubmessageStep(d, st, i, a, b, y);
    LoopConcat(d, State(m, {}), x, FieldBytes(d.fields[i], a) + y, nullTerm);
    LoopConcat(d, State(m, {}), x, FieldBytes(d.fields[i], b) + y, nullTerm);
  }

  /** Putting an unknown field in at any field boundary, at any depth, changes nothing. */
  lemma {:induction false} UnknownFieldInvisible(d: MsgDesc, m: Msg, p: Place, nullTerm: bool)
    requires ValidDesc(d) && Shaped(d, m) && Reached(d, m, p)
    ensures DecodeInner(d, m, With(d, p), nullTerm) == DecodeInner(d, m, Without(d, p), nullTerm)
    decreases p
  {
    match p
    case Here(x, u, y) => UnknownHere(d, m, x, u, y, nullTerm);
    case Inside(x, i, inner, y) =>
      var desc := d.fields[i].kind.desc;
      UnknownFieldInvisible(desc, MsgIn(desc, Prior(d, Loop(d, State(m, {}), x, false).value.m, i)), inner, false);
      UnknownInside(d, m, x, i, With(desc, inner), Without(desc, inner), y, nullTerm);
  }
}
