/** What pb_encode writes for a message, as a function. None stands for a false return. */
module EncodeSpec {
  import opened Wire
  import opened Schema
  import opened Numbers

  function Join(a: Option<seq<byte>>, b: Option<seq<byte>>): Option<seq<byte>> {
    if a.Some? && b.Some? then Some(a.value + b.value) else None
  }

  lemma JoinNothing(a: Option<seq<byte>>)
    ensures Join(Some([]), a) == a
  {
    if a.Some? {
      assert [] + a.value == a.value;
    }
  }

  lemma JoinMore(done: seq<byte>, first: seq<byte>, rest: Option<seq<byte>>)
    ensures Join(Some(done), Join(Some(first), rest)) == Join(Some(done + first), rest)
  {
    if rest.Some? {
      assert done + (first + rest.value) == (done + first) + rest.value;
    }
  }

  /** pb_encode */
  function EncodeMsg(d: MsgDesc, m: Msg): Option<seq<byte>>
    requires Shaped(d, m)
    decreases d, |d.fields| + 1, 0
  {
    EncodeFields(d, m, 0)
  }

  /** The fields from the i-th on, in descriptor order */
  function EncodeFields(d: MsgDesc, m: Msg, i: nat): Option<seq<byte>>
    requires Shaped(d, m) && i <= |d.fields|
    decreases d, |d.fields| - i, 1
  {
    if i == |d.fields| then Some([])
    else Join(EncodeField(d, m, i), EncodeFields(d, m, i + 1))
  }

  predicate ZeroValue(f: Field, v: Value)
    decreases f, 0
  {
    match (f.kind, v)
    case (FixedLengthBytes, Str(s)) => f.dataSize == 0
    case (Submessage(desc), Sub(m)) => Shaped(desc, m) && ZeroMsg(desc, m)
    case (_, Str(s)) => s == []
    case (_, Num(n)) => n == 0
    case _ => false
  }

  /** encode_field: nothing for an absent field */
  function EncodeField(d: MsgDesc, m: Msg, i: nat): Option<seq<byte>>
    requires Shaped(d, m) && i < |d.fields|
    decreases d, |d.fields| - i, 0
  {
    var f := d.fields[i];
    match (f.rule, m.slots[i])
    case (Required, Single(v)) => EncodeBasic(f, v)
    case (Singular, Single(v)) => if ZeroValue(f, v) then Some([]) else EncodeBasic(f, v)
    case (Optional, Flagged(has, v)) => if has then EncodeBasic(f, v) else Some([])
    case (Repeated, Items(vs)) => EncodeArray(f, vs)
    case (Oneof(u), InUnion) =>
      if u < d.unions && m.unions[u].which == f.tag then EncodeBasic(f, m.unions[u].v) else Some([])
    case _ => None
  }

  /** The encoder writes nothing for field i. */
  predicate Absent(d: MsgDesc, m: Msg, i: nat)
    requires Shaped(d, m) && i < |d.fields|
  {
    match (d.fields[i].rule, m.slots[i])
    case (Singular, Single(v)) => ZeroValue(d.fields[i], v)
    case (Optional, Flagged(has, _)) => !has
    case (Repeated, Items(vs)) => vs == []
    case (Oneof(u), InUnion) => u < d.unions && m.unions[u].which != d.fields[i].tag
    case _ => false
  }

  /** The elements of a packed array, back to back */
  function EncodePacked(f: Field, vs: seq<Value>): Option<seq<byte>> {
    if vs == [] then Some([])
    else if Packable(f.kind) && vs[0].Num? && InRange(f.kind, f.dataSize, vs[0].n)
    then Join(Some(EncodeNum(f.kind, f.dataSize, vs[0].n)), EncodePacked(f, vs[1..]))
    else None
  }

  /** encode_array: packed if the kind allows it, otherwise one tagged element after the other */
  function EncodeArray(f: Field, vs: seq<Value>): Option<seq<byte>>
    decreases f, |vs| + 2, 0
  {
    if |vs| == 0 then Some([])
    else if |vs| > f.arraySize then None
    else if Packable(f.kind) then
      match EncodePacked(f, vs)
      case None => None
      case Some(p) => Some(TagBytes(f.tag, WT_STRING) + Delimited(p))
    else EncodeItems(f, vs)
  }

  /** A packed array of n elements always encodes, in at most ten bytes each. */
  lemma {:induction false} PackedSmall(f: Field, vs: seq<Value>)
    requires Packable(f.kind) && AllTyped(f, vs)
    ensures EncodePacked(f, vs).Some? && |EncodePacked(f, vs).value| <= 10 * |vs|
    ensures f.kind.Fixed32? ==> |EncodePacked(f, vs).value| == 4 * |vs|
    ensures f.kind.Fixed64? ==> |EncodePacked(f, vs).value| == 8 * |vs|
  {
    if vs != [] {
      assert ValueTyped(f, vs[0]);
      PackedSmall(f, vs[1..]);
      NumLength(f.kind, f.dataSize, vs[0].n);
    }
  }

  function EncodeItems(f: Field, vs: seq<Value>): Option<seq<byte>>
    decreases f, |vs| + 1, 0
  {
    if vs == [] then Some([]) else Join(EncodeBasic(f, vs[0]), EncodeItems(f, vs[1..]))
  }

  /** encode_basic_field: tag, then content */
  function EncodeBasic(f: Field, v: Value): Option<seq<byte>>
    decreases f, 1, 0
  {
    Join(Some(TagBytes(f.tag, WireType(f.kind))), EncodeContent(f, v))
  }

  function EncodeContent(f: Field, v: Value): Option<seq<byte>>
    decreases f, 0, 0
  {
    match (f.kind, v)
    case (String, Str(s)) => if |s| < f.dataSize then Some(Delimited(s)) else None
    case (Bytes, Str(s)) => if |s| + 2 <= f.dataSize then Some(Delimited(s)) else None
    case (FixedLengthBytes, Str(s)) => if |s| == f.dataSize then Some(Delimited(s)) else None
    case (Submessage(desc), Sub(m)) =>
      if !Shaped(desc, m) then None else
      (match EncodeMsg(desc, m)
       case None => None
       case Some(p) => Some(Delimited(p)))
    case (_, Num(n)) =>
      if InRange(f.kind, f.dataSize, n) then Some(EncodeNum(f.kind, f.dataSize, n)) else None
    case _ => None
  }

  //
  // Framing
  //

  /** A submessage with its length prefix */
  function DelimitedMsg(d: MsgDesc, m: Msg): Option<seq<byte>>
    requires Shaped(d, m)
  {
    match EncodeMsg(d, m)
    case None => None
    case Some(p) => Some(Delimited(p))
  }

  /** The flags of pb_encode_ex */
  datatype Framing = Plain | WithLength | NullTerminated

  /** pb_encode_ex */
  function FramedBytes(d: MsgDesc, m: Msg, framing: Framing): Option<seq<byte>>
    requires Shaped(d, m)
  {
    match framing
    case Plain => EncodeMsg(d, m)
    case WithLength => DelimitedMsg(d, m)
    case NullTerminated => Join(EncodeMsg(d, m), Some([0]))
  }

  //
  // pb_check_proto3_default_value
  //

  predicate ZeroSlot(d: MsgDesc, m: Msg, i: nat)
    requires Shaped(d, m) && i < |d.fields|
    decreases d, 0
  {
    match (d.fields[i].rule, m.slots[i])
    case (Singular, Single(v)) => ZeroValue(d.fields[i], v)
    case (Optional, Flagged(has, _)) => !has
    case (Repeated, Items(vs)) => vs == []
    case (Oneof(u), InUnion) => u < d.unions && m.unions[u].which == 0
    case _ => false
  }

  predicate ZeroMsg(d: MsgDesc, m: Msg)
    requires Shaped(d, m)
    decreases d, 1
  {
    forall i :: 0 <= i < |d.fields| ==> ZeroSlot(d, m, i)
  }
}
