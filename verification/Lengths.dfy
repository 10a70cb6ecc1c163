/** Which encodings have lengths that a decoder can read back: the encoder writes 64-bit lengths,
    the decoder reads 32-bit ones. */
module Lengths {
  import opened Wire
  import opened Schema
  import opened EncodeSpec
  import opened MaxSize
  import Varints

  /** What is asked of the length of each nested message: that it fits 32 bits, or only that the
      decoder does not take it for another one */
  datatype LengthRule = Fits32 | NotMisread

  predicate Allowed(rule: LengthRule, n: nat) {
    match rule
    case Fits32 => n < TWO32
    case NotMisread => !Varints.MisreadLength(n)
  }

  predicate ValueObeys(rule: LengthRule, f: Field, v: Value)
    decreases f, 0
  {
    f.kind.Submessage? && v.Sub? && Shaped(f.kind.desc, v.m) ==>
      && (EncodeMsg(f.kind.desc, v.m).Some? ==> Allowed(rule, |EncodeMsg(f.kind.desc, v.m).value|))
      && Obeys(rule, f.kind.desc, v.m)
  }

  predicate AllObey(rule: LengthRule, f: Field, vs: seq<Value>)
    decreases f, 1
  {
    forall k :: 0 <= k < |vs| ==> ValueObeys(rule, f, vs[k])
  }

  predicate FieldObeys(rule: LengthRule, d: MsgDesc, m: Msg, i: nat)
    requires Shaped(d, m) && i < |d.fields|
    decreases d, 0
  {
    var f := d.fields[i];
    match (f.rule, m.slots[i])
    case (Required, Single(v)) => ValueObeys(rule, f, v)
    case (Singular, Single(v)) => ZeroValue(f, v) || ValueObeys(rule, f, v)
    case (Optional, Flagged(has, v)) => has ==> ValueObeys(rule, f, v)
    case (Repeated, Items(vs)) => AllObey(rule, f, vs)
    case (Oneof(u), InUnion) => u < d.unions && m.unions[u].which == f.tag ==> ValueObeys(rule, f, m.unions[u].v)
    case _ => true
  }

  /** Every submessage present in m, at any depth, obeys the rule. */
  predicate Obeys(rule: LengthRule, d: MsgDesc, m: Msg)
    requires Shaped(d, m)
    decreases d, 1
  {
    forall i :: 0 <= i < |d.fields| ==> FieldObeys(rule, d, m, i)
  }

  /** Every submessage present in m, at any depth, encodes to fewer than 2^32 bytes. */
  predicate Short(d: MsgDesc, m: Msg)
    requires Shaped(d, m)
  {
    Obeys(Fits32, d, m)
  }

  /** No length in the encoding of m is misread; those of 2^32 and more are refused. */
  predicate Readable(d: MsgDesc, m: Msg)
    requires Shaped(d, m)
  {
    Obeys(NotMisread, d, m)
  }

  /** Only submessages have lengths to obey. */
  lemma OthersObey(rule: LengthRule, f: Field, vs: seq<Value>)
    requires !f.kind.Submessage?
    ensures AllObey(rule, f, vs)
  {
    forall k | 0 <= k < |vs| ensures ValueObeys(rule, f, vs[k]) { }
  }

  lemma {:induction false} ShortValue(f: Field, v: Value)
    requires ValueObeys(Fits32, f, v)
    ensures ValueObeys(NotMisread, f, v)
    decreases f, 0
  {
    if f.kind.Submessage? && v.Sub? && Shaped(f.kind.desc, v.m) {
      ShortIsReadable(f.kind.desc, v.m);
    }
  }

  lemma {:induction false} ShortIsReadable(d: MsgDesc, m: Msg)
    requires Shaped(d, m) && Short(d, m)
    ensures Readable(d, m)
    decreases d, 1
  {
    forall i | 0 <= i < |d.fields| ensures FieldObeys(NotMisread, d, m, i) {
      var f := d.fields[i];
      assert FieldObeys(Fits32, d, m, i);
      match (f.rule, m.slots[i])
      case (Required, Single(v)) => ShortValue(f, v);
      case (Singular, Single(v)) => if !ZeroValue(f, v) { ShortValue(f, v); }
      case (Optional, Flagged(has, v)) => if has { ShortValue(f, v); }
      case (Repeated, Items(vs)) =>
        assert AllObey(Fits32, f, vs);
        forall k | 0 <= k < |vs| ensures ValueObeys(NotMisread, f, vs[k]) { ShortValue(f, vs[k]); }
      case (Oneof(u), InUnion) => if u < d.unions && m.unions[u].which == f.tag { ShortValue(f, m.unions[u].v); }
      case _ =>
    }
  }

  //
  // A short encoding has short parts.
  //

  lemma {:induction false} SmallValue(f: Field, v: Value)
    requires EncodeContent(f, v).Some? && |EncodeContent(f, v).value| < TWO32
    ensures ValueObeys(Fits32, f, v)
    decreases f, 0
  {
    if f.kind.Submessage? && v.Sub? && Shaped(f.kind.desc, v.m) {
      SmallIsShort(f.kind.desc, v.m);
    }
  }

  lemma {:induction false} SmallItems(f: Field, vs: seq<Value>, k: nat)
    requires EncodeItems(f, vs).Some? && |EncodeItems(f, vs).value| < TWO32 && k < |vs|
    ensures ValueObeys(Fits32, f, vs[k])
    decreases f, 1, |vs|
  {
    if k == 0 { SmallValue(f, vs[0]); } else { SmallItems(f, vs[1..], k - 1); }
  }

  lemma {:induction false} SmallField(d: MsgDesc, m: Msg, i: nat)
    requires Shaped(d, m) && i < |d.fields|
    requires EncodeField(d, m, i).Some? && |EncodeField(d, m, i).value| < TWO32
    ensures FieldObeys(Fits32, d, m, i)
    decreases d, 0
  {
    var f := d.fields[i];
    match (f.rule, m.slots[i])
    case (Required, Single(v)) => SmallValue(f, v);
    case (Singular, Single(v)) => if !ZeroValue(f, v) { SmallValue(f, v); }
    case (Optional, Flagged(has, v)) => if has { SmallValue(f, v); }
    case (Repeated, Items(vs)) =>
      if !Packable(f.kind) {
        forall k | 0 <= k < |vs| ensures ValueObeys(Fits32, f, vs[k]) { SmallItems(f, vs, k); }
      }
    case (Oneof(u), InUnion) => if u < d.unions && m.unions[u].which == f.tag { SmallValue(f, m.unions[u].v); }
    case _ =>
  }

  /** A field is a part of the encoding. */
  lemma {:induction false} FieldWithin(d: MsgDesc, m: Msg, i: nat, j: nat)
    requires Shaped(d, m) && j <= i < |d.fields| && EncodeFields(d, m, j).Some?
    ensures EncodeField(d, m, i).Some? && |EncodeField(d, m, i).value| <= |EncodeFields(d, m, j).value|
    decreases i - j
  {
    if j < i { FieldWithin(d, m, i, j + 1); }
  }

  /** An encoding of fewer than 2^32 bytes has no longer part. */
  lemma {:induction false} SmallIsShort(d: MsgDesc, m: Msg)
    requires Shaped(d, m) && EncodeMsg(d, m).Some? && |EncodeMsg(d, m).value| < TWO32
    ensures Short(d, m)
    decreases d, 1
  {
    forall i | 0 <= i < |d.fields| ensures FieldObeys(Fits32, d, m, i) {
      FieldWithin(d, m, i, 0);
      SmallField(d, m, i);
    }
  }

  /** So has every message of a type whose maximum size fits 32 bits. */
  lemma BoundedIsShort(d: MsgDesc, m: Msg)
    requires ValidDesc(d) && Typed(d, m) && EncodeMsg(d, m).Some? && MaxEncodedSize(d) < TWO32
    ensures |EncodeMsg(d, m).value| < TWO32 && Short(d, m) && Readable(d, m)
  {
    EncodedSizeBounded(d, m);
    SmallIsShort(d, m);
    ShortIsReadable(d, m);
  }
}
