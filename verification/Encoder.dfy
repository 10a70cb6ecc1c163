/** The encoder: a loop over the field descriptors, with a sizing pass before every submessage. */
module Encoder {
  import opened Bits
  import opened Wire
  import opened Schema
  import opened Numbers
  import opened EncodeSpec
  import opened MaxSize
  import opened EncodingCost
  import opened Iteration
  import opened Binding
  import opened OutStream
  import opened NumberEncoders
  import opened ZeroCheck

  //
  // Tags, strings and numbers
  //

  /** ((uint64_t)tag << 3) | wiretype */
  method TagWord(tag: nat, wt: nat) returns (r: nat)
    requires wt < 8
    ensures r == 8 * tag + wt
  {
    assert Pow2(3) == 8;
    LowOfShl(tag, 3);
    ShlIsTimes(tag, 3);
    OrDisjointHigh(Shl(tag, 3), wt, 3);
    r := Or(Shl(tag, 3), wt);
  }

  /** pb_encode_tag */
  method EncodeTag(stream: OStream, wt: nat, tag: nat) returns (ok: bool)
    requires stream.Valid() && wt < 8 && tag < 0x1_0000
    modifies stream, stream.buf
    ensures stream.Emits(ok, Some(TagBytes(tag, wt)))
  {
    var w := TagWord(tag, wt);
    ok := EncodeVarint(stream, w);
  }

  /** pb_encode_string */
  method EncodeString(stream: OStream, s: seq<byte>) returns (ok: bool)
    requires stream.Valid() && |s| < TWO64
    modifies stream, stream.buf
    ensures stream.Emits(ok, Some(Delimited(s)))
  {
    ok := EncodeVarint(stream, |s|);
    if ok {
      ok := stream.Write(s);
    }
  }

  /** pb_enc_bool */
  method EncBool(stream: OStream, n: int) returns (ok: bool)
    requires stream.Valid() && 0 <= n <= 1
    modifies stream, stream.buf
    ensures stream.Emits(ok, Some(EncodeNum(Bool, 1, n)))
  {
    ok := EncodeVarint(stream, if n != 0 then 1 else 0);
  }

  /** pb_enc_varint; elements of a packed bool array come here too, and are taken as signed
      bytes */
  method EncVarint(stream: OStream, k: Kind, size: nat, n: int) returns (ok: bool)
    requires stream.Valid() && InRange(k, size, n) && !k.Fixed32? && !k.Fixed64?
    modifies stream, stream.buf
    ensures stream.Emits(ok, Some(EncodeNum(k, size, n)))
  {
    if k.UVarint? {
      ok := EncodeVarint(stream, n);
    } else if k.SVarint? {
      ok := EncodeSvarint(stream, n);
    } else {
      ok := EncodeVarint(stream, Unsigned64(n));
    }
  }

  /** pb_enc_fixed */
  method EncFixed(stream: OStream, k: Kind, size: nat, n: int) returns (ok: bool)
    requires stream.Valid() && InRange(k, size, n) && (k.Fixed32? || k.Fixed64?)
    modifies stream, stream.buf
    ensures stream.Emits(ok, Some(EncodeNum(k, size, n)))
  {
    if size == 4 {
      ok := EncodeFixed32(stream, n);
    } else {
      ok := EncodeFixed64(stream, n);
    }
  }

  /** pb_enc_bytes */
  method EncBytes(stream: OStream, f: Field, s: seq<byte>) returns (ok: bool)
    requires stream.Valid() && f.kind.Bytes? && ValidKind(f.kind, f.dataSize)
    modifies stream, stream.buf
    ensures stream.Emits(ok, EncodeContent(f, Str(s)))
  {
    if |s| > f.dataSize - 2 {
      return false;
    }
    ok := EncodeString(stream, s);
  }

  /** pb_enc_string: the length is counted up to the NUL, within the buffer less one byte */
  method EncString(stream: OStream, f: Field, s: seq<byte>) returns (ok: bool)
    requires stream.Valid() && f.kind.String? && f.dataSize < 0x1_0000 && |s| <= f.dataSize
    modifies stream, stream.buf
    ensures stream.Emits(ok, EncodeContent(f, Str(s)))
  {
    if f.dataSize == 0 {
      return false;
    }
    var maxSize := f.dataSize - 1;
    var size := 0;
    while size < maxSize && size < |s|
      invariant size <= maxSize && size <= |s|
    {
      size := size + 1;
    }
    if size < |s| {
      return false;
    }
    assert s[..size] == s;
    ok := EncodeString(stream, s[..size]);
  }

  //
  // Fields
  //

  /** encode_basic_field. Here and below, goal leads to a value that is watched, and visits
      counts how often the encoder looks at it. */
  method EncodeBasicField(
    stream: OStream, f: Field, sub: Option<Table>, v: Value, ghost outer: Table, ghost goal: Option<seq<Hop>>)
    returns (ok: bool, ghost visits: nat)
    requires stream.Valid() && f.tag < 0x1_0000 && ValidKind(f.kind, f.dataSize)
    requires SubTableOf(f, sub, outer) && ValueTyped(f, v)
    modifies stream, stream.buf
    ensures stream.Emits(ok, EncodeBasic(f, v))
    ensures ok ==> visits == Visits(stream.sizing, ValueStands(f, v, goal), Hops(goal) + 1)
    decreases outer, 1
  {
    visits := 0;
    ghost var before, tag := stream.written, TagBytes(f.tag, WireType(f.kind));
    ok := EncodeTag(stream, WireType(f.kind), f.tag);
    if ok {
      ok, visits := EncodeContentOf(stream, f, sub, v, outer, goal);
      assert ok ==> before + tag + EncodeContent(f, v).value == before + (tag + EncodeContent(f, v).value);
    }
  }

  /** The switch of encode_basic_field */
  method EncodeContentOf(
    stream: OStream, f: Field, sub: Option<Table>, v: Value, ghost outer: Table, ghost goal: Option<seq<Hop>>)
    returns (ok: bool, ghost visits: nat)
    requires stream.Valid() && ValidKind(f.kind, f.dataSize)
    requires SubTableOf(f, sub, outer) && ValueTyped(f, v)
    modifies stream, stream.buf
    ensures stream.Emits(ok, EncodeContent(f, v))
    ensures ok ==> visits == Visits(stream.sizing, ValueStands(f, v, goal), Hops(goal) + 1)
    decreases outer, 0
  {
    visits := if goal == Some([]) then 1 else 0;
    match f.kind
    case Bool => ok := EncBool(stream, v.n);
    case Varint | UVarint | SVarint => ok := EncVarint(stream, f.kind, f.dataSize, v.n);
    case Fixed32 | Fixed64 => ok := EncFixed(stream, f.kind, f.dataSize, v.n);
    case Bytes => ok := EncBytes(stream, f, v.s);
    case String => ok := EncString(stream, f, v.s);
    case Submessage(_) => ok, visits := EncodeSubmessage(stream, sub.value, v.m, goal);
    case FixedLengthBytes => ok := EncodeString(stream, v.s);
  }

  /** pb_encode_submessage: a first pass finds the size, a second one writes through a stream
      limited to that size. The check that both passes agree never fails. */
  method EncodeSubmessage(stream: OStream, t: Table, m: Msg, ghost goal: Option<seq<Hop>>)
    returns (ok: bool, ghost visits: nat)
    requires stream.Valid() && ValidTable(t) && Typed(t.desc, m)
    modifies stream, stream.buf
    ensures stream.Emits(ok, DelimitedMsg(t.desc, m))
    ensures ok ==> visits == Visits(stream.sizing, Stands(t.desc, m, goal), Hops(goal) + 1)
    decreases t, 13
  {
    var size;
    ok, size, visits := GetEncodedSize(t, m, goal);
    if !ok {
      return;
    }
    ghost var more;
    ok, more := EncodeSized(stream, t, m, size, EncodeMsg(t.desc, m).value, goal);
    visits := visits + more;
  }

  /** The visits of the second pass, if there is one */
  ghost function SecondPass(stream: OStream, d: MsgDesc, m: Msg, goal: Option<seq<Hop>>): nat
    requires Shaped(d, m)
    reads stream
  {
    if stream.sizing then 0 else Visits(false, Stands(d, m, goal), Hops(goal))
  }

  /** The length, then the second pass unless only the size is wanted */
  method EncodeSized(
    stream: OStream, t: Table, m: Msg, size: nat, ghost out: seq<byte>, ghost goal: Option<seq<Hop>>)
    returns (ok: bool, ghost visits: nat)
    requires stream.Valid() && ValidTable(t) && Typed(t.desc, m)
    requires EncodeMsg(t.desc, m) == Some(out) && |out| == size < TWO64
    modifies stream, stream.buf
    ensures stream.Emits(ok, Some(Delimited(out)))
    ensures ok ==> visits == SecondPass(stream, t.desc, m, goal)
    decreases t, 12
  {
    visits := 0;
    ok := EncodeVarint(stream, size);
    if !ok {
      return;
    }
    ok, visits := EncodeBody(stream, t, m, size, out, goal);
  }

  /** The submessage itself, or its size */
  method EncodeBody(
    stream: OStream, t: Table, m: Msg, size: nat, ghost out: seq<byte>, ghost goal: Option<seq<Hop>>)
    returns (ok: bool, ghost visits: nat)
    requires stream.Valid() && ValidTable(t) && Typed(t.desc, m)
    requires EncodeMsg(t.desc, m) == Some(out) && |out| == size
    modifies stream, stream.buf
    ensures stream.Emits(ok, Some(out))
    ensures ok ==> visits == SecondPass(stream, t.desc, m, goal)
    decreases t, 11
  {
    visits := 0;
    if stream.sizing {
      ok := stream.Count(size, out);
    } else {
      ok, visits := WriteSubmessage(stream, t, m, size, out, goal);
    }
  }

  /** The second pass of pb_encode_submessage */
  method WriteSubmessage(
    stream: OStream, t: Table, m: Msg, size: nat, ghost out: seq<byte>, ghost goal: Option<seq<Hop>>)
    returns (ok: bool, ghost visits: nat)
    requires stream.Valid() && !stream.sizing && ValidTable(t) && Typed(t.desc, m)
    requires EncodeMsg(t.desc, m) == Some(out) && |out| == size
    modifies stream, stream.buf
    ensures stream.Emits(ok, Some(out))
    ensures ok ==> visits == Visits(false, Stands(t.desc, m, goal), Hops(goal))
    decreases t, 10
  {
    visits := 0;
    if stream.bytesWritten + size > stream.maxSize {
      return false, 0;
    }
    var sub := stream.Limited(size);
    ok, visits := WriteThrough(stream, sub, t, m, out, goal);
    if sub.bytesWritten != size {
      assert false;
    }
  }

  /** Writing through the limited stream, and going on behind it */
  method WriteThrough(
    stream: OStream, sub: OStream, t: Table, m: Msg, ghost out: seq<byte>, ghost goal: Option<seq<Hop>>)
    returns (ok: bool, ghost visits: nat)
    requires stream.Valid() && !stream.sizing && ValidTable(t) && Typed(t.desc, m)
    requires EncodeMsg(t.desc, m) == Some(out) && stream.bytesWritten + |out| <= stream.maxSize
    requires sub != stream && sub.Valid() && !sub.sizing && sub.written == []
    requires sub.buf == stream.buf && sub.start == stream.state && sub.maxSize == |out|
    modifies stream, sub, stream.buf
    ensures ok && stream.Emits(true, Some(out)) && sub.bytesWritten == |out|
    ensures visits == Visits(false, Stands(t.desc, m, goal), Hops(goal))
    decreases t, 9
  {
    ok, visits := Encode(sub, t, m, goal);
    assert stream.buf[stream.start..stream.state] == stream.written;
    stream.Resume(sub);
  }

  /** pb_get_encoded_size */
  method GetEncodedSize(t: Table, m: Msg, ghost goal: Option<seq<Hop>>)
    returns (ok: bool, size: nat, ghost visits: nat)
    requires ValidTable(t) && Typed(t.desc, m)
    ensures ok <==> EncodeMsg(t.desc, m).Some?
    ensures ok ==> size == |EncodeMsg(t.desc, m).value| < TWO64
    ensures ok ==> visits == Visits(true, Stands(t.desc, m, goal), Hops(goal))
    decreases t, 10
  {
    size := 0;
    var stream := new OStream.Sizing();
    ok, visits := Encode(stream, t, m, goal);
    if !ok {
      return;
    }
    size := stream.bytesWritten;
    EncodedSizeBounded(t.desc, m);
  }

  //
  // Arrays
  //

  /** One more element of a packed array */
  lemma PackedStep(f: Field, vs: seq<Value>, i: nat, done: seq<byte>)
    requires Packable(f.kind) && AllTyped(f, vs) && i < |vs|
    requires EncodePacked(f, vs) == Join(Some(done), EncodePacked(f, vs[i..]))
    ensures vs[i].Num? && InRange(f.kind, f.dataSize, vs[i].n)
    ensures EncodePacked(f, vs)
            == Join(Some(done + EncodeNum(f.kind, f.dataSize, vs[i].n)), EncodePacked(f, vs[i + 1..]))
  {
    assert ValueTyped(f, vs[i]);
    assert vs[i..][1..] == vs[i + 1..];
    var first, rest := EncodeNum(f.kind, f.dataSize, vs[i].n), EncodePacked(f, vs[i + 1..]);
    assert EncodePacked(f, vs[i..]) == Join(Some(first), rest);
    JoinMore(done, first, rest);
  }

  /** The size of a packed array: by the kind, or counted on a sizing stream */
  method PackedSize(f: Field, vs: seq<Value>) returns (ok: bool, size: nat)
    requires Packable(f.kind) && AllTyped(f, vs) && 0 < |vs| < 0x1_0000
    ensures ok && EncodePacked(f, vs).Some? && size == |EncodePacked(f, vs).value| < TWO64
  {
    PackedSmall(f, vs);
    if f.kind.Fixed32? {
      return true, 4 * |vs|;
    } else if f.kind.Fixed64? {
      return true, 8 * |vs|;
    }
    var stream := new OStream.Sizing();
    var i := 0;
    ghost var done: seq<byte> := [];
    assert vs[0..] == vs;
    JoinNothing(EncodePacked(f, vs));
    while i < |vs|
      invariant i <= |vs| && stream.Valid() && stream.sizing && fresh(stream) && fresh(stream.buf)
      invariant stream.written == done
      invariant EncodePacked(f, vs) == Join(Some(done), EncodePacked(f, vs[i..]))
    {
      PackedStep(f, vs, i, done);
      done := done + EncodeNum(f.kind, f.dataSize, vs[i].n);
      ok := EncVarint(stream, f.kind, f.dataSize, vs[i].n);
      if !ok {
        assert false;
      }
      i := i + 1;
    }
    return true, stream.bytesWritten;
  }

  /** One element of a packed array */
  method EncElement(stream: OStream, f: Field, n: int) returns (ok: bool)
    requires stream.Valid() && InRange(f.kind, f.dataSize, n)
    modifies stream, stream.buf
    ensures stream.Emits(ok, Some(EncodeNum(f.kind, f.dataSize, n)))
  {
    if f.kind.Fixed32? || f.kind.Fixed64? {
      ok := EncFixed(stream, f.kind, f.dataSize, n);
    } else {
      ok := EncVarint(stream, f.kind, f.dataSize, n);
    }
  }

  /** The elements of a packed array */
  method WritePacked(stream: OStream, f: Field, vs: seq<Value>) returns (ok: bool)
    requires stream.Valid() && !stream.sizing && Packable(f.kind) && AllTyped(f, vs)
    modifies stream, stream.buf
    ensures stream.Emits(ok, EncodePacked(f, vs))
  {
    var i := 0;
    ghost var done: seq<byte> := [];
    assert vs[0..] == vs;
    JoinNothing(EncodePacked(f, vs));
    while i < |vs|
      invariant i <= |vs| && stream.Emits(true, Some(done))
      invariant EncodePacked(f, vs) == Join(Some(done), EncodePacked(f, vs[i..]))
    {
      PackedStep(f, vs, i, done);
      done := done + EncodeNum(f.kind, f.dataSize, vs[i].n);
      ok := EncElement(stream, f, vs[i].n);
      if !ok {
        PackedSmall(f, vs);
        return false;
      }
      i := i + 1;
    }
    return true;
  }

  /** The exact size, then the elements unless only the size is wanted */
  method PackedContent(stream: OStream, f: Field, vs: seq<Value>, ghost out: seq<byte>) returns (ok: bool)
    requires stream.Valid() && Packable(f.kind) && AllTyped(f, vs) && 0 < |vs| < 0x1_0000
    requires EncodePacked(f, vs) == Some(out)
    modifies stream, stream.buf
    ensures stream.Emits(ok, Some(Delimited(out)))
  {
    var size;
    ok, size := PackedSize(f, vs);
    if !ok {
      return false;
    }
    ok := EncodeVarint(stream, size);
    if !ok {
      return false;
    }
    if stream.sizing {
      ok := stream.Count(size, out);
    } else {
      ok := WritePacked(stream, f, vs);
    }
  }

  /** The packed branch of encode_array: tag, exact size, elements */
  method EncodePackedArray(stream: OStream, f: Field, vs: seq<Value>) returns (ok: bool)
    requires stream.Valid() && f.tag < 0x1_0000
    requires Packable(f.kind) && AllTyped(f, vs) && 0 < |vs| <= f.arraySize < 0x1_0000
    modifies stream, stream.buf
    ensures stream.Emits(ok, EncodeArray(f, vs))
  {
    PackedSmall(f, vs);
    ok := EncodeTag(stream, WT_STRING, f.tag);
    if ok {
      ok := PackedContent(stream, f, vs, EncodePacked(f, vs).value);
    }
  }

  /** One more element of an unpacked array */
  lemma ItemsStep(f: Field, vs: seq<Value>, i: nat, done: seq<byte>)
    requires i < |vs| && EncodeItems(f, vs) == Join(Some(done), EncodeItems(f, vs[i..]))
    ensures EncodeBasic(f, vs[i]).None? ==> EncodeItems(f, vs).None?
    ensures EncodeBasic(f, vs[i]).Some? ==>
              EncodeItems(f, vs) == Join(Some(done + EncodeBasic(f, vs[i]).value), EncodeItems(f, vs[i + 1..]))
  {
    assert vs[i..][1..] == vs[i + 1..];
    var first, rest := EncodeBasic(f, vs[i]), EncodeItems(f, vs[i + 1..]);
    assert EncodeItems(f, vs[i..]) == Join(first, rest);
    if first.Some? {
      JoinMore(done, first.value, rest);
    }
  }

  /** What all is to be does not fit behind before. */
  ghost predicate Fails(stream: OStream, before: seq<byte>, all: Option<seq<byte>>) {
    all.Some? ==> !stream.sizing && |before| + |all.value| > stream.maxSize
  }

  /** One turn of the loop in the unpacked branch: behind what was written before, done grows to
      next. */
  method EncodeElement(
    stream: OStream, f: Field, sub: Option<Table>, vs: seq<Value>, k: nat, ghost outer: Table,
    ghost before: seq<byte>, ghost done: seq<byte>, ghost i: nat, ghost goal: Option<seq<Hop>>, ghost visits0: nat)
    returns (ok: bool, ghost next: seq<byte>, ghost visits: nat)
    requires stream.Valid() && f.tag < 0x1_0000 && ValidKind(f.kind, f.dataSize)
    requires SubTableOf(f, sub, outer) && AllTyped(f, vs) && k < |vs|
    requires EncodeItems(f, vs) == Join(Some(done), EncodeItems(f, vs[k..])) && stream.written == before + done
    requires visits0 == Visits(stream.sizing, ItemStands(f, i, vs, k, goal), Hops(goal))
    modifies stream, stream.buf
    ensures stream.Valid() && stream.Contained()
    ensures ok ==> stream.written == before + next
                   && EncodeItems(f, vs) == Join(Some(next), EncodeItems(f, vs[k + 1..]))
    ensures !ok ==> Fails(stream, before, EncodeItems(f, vs))
    ensures ok ==> visits == Visits(stream.sizing, ItemStands(f, i, vs, k + 1, goal), Hops(goal))
    decreases outer, 2
  {
    assert ValueTyped(f, vs[k]);
    ItemsStep(f, vs, k, done);
    ItemCounted(f, i, vs, k, goal, stream.sizing);
    ghost var out := EncodeBasic(f, vs[k]);
    next := if out.Some? then done + out.value else done;
    assert out.Some? ==> (before + done) + out.value == before + next;
    ghost var more;
    ok, more := EncodeBasicField(stream, f, sub, vs[k], outer, Under(goal, Hop(i, k)));
    visits := visits0 + more;
  }

  /** The unpacked branch of encode_array */
  method EncodeUnpackedArray(
    stream: OStream, f: Field, sub: Option<Table>, vs: seq<Value>, ghost outer: Table,
    ghost i: nat, ghost goal: Option<seq<Hop>>)
    returns (ok: bool, ghost visits: nat)
    requires stream.Valid() && f.tag < 0x1_0000 && ValidKind(f.kind, f.dataSize)
    requires SubTableOf(f, sub, outer) && AllTyped(f, vs)
    modifies stream, stream.buf
    ensures stream.Emits(ok, EncodeItems(f, vs))
    ensures ok ==> visits == Visits(stream.sizing, ItemStands(f, i, vs, |vs|, goal), Hops(goal))
    decreases outer, 3
  {
    visits := 0;
    var k := 0;
    ghost var before, done := stream.written, [];
    assert vs[0..] == vs && before + [] == before;
    JoinNothing(EncodeItems(f, vs));
    while k < |vs|
      invariant k <= |vs| && stream.Valid() && stream.Contained() && stream.written == before + done
      invariant EncodeItems(f, vs) == Join(Some(done), EncodeItems(f, vs[k..]))
      invariant visits == Visits(stream.sizing, ItemStands(f, i, vs, k, goal), Hops(goal))
    {
      ok, done, visits := EncodeElement(stream, f, sub, vs, k, outer, before, done, i, goal, visits);
      if !ok {
        return false, 0;
      }
      k := k + 1;
    }
    assert done + [] == done;
    ok := true;
  }

  /** encode_array */
  method EncodeArrayField(
    stream: OStream, f: Field, sub: Option<Table>, vs: seq<Value>, ghost outer: Table,
    ghost i: nat, ghost goal: Option<seq<Hop>>)
    returns (ok: bool, ghost visits: nat)
    requires stream.Valid() && f.tag < 0x1_0000 && f.arraySize < 0x1_0000 && ValidKind(f.kind, f.dataSize)
    requires SubTableOf(f, sub, outer) && AllTyped(f, vs)
    modifies stream, stream.buf
    ensures stream.Emits(ok, EncodeArray(f, vs))
    ensures ok ==>
              visits == Visits(stream.sizing, !Packable(f.kind) && ItemStands(f, i, vs, |vs|, goal), Hops(goal))
    decreases outer, 4
  {
    visits := 0;
    if |vs| == 0 {
      return true, 0;
    }
    if |vs| > f.arraySize {
      return false, 0;
    }
    if Packable(f.kind) {
      ok := EncodePackedArray(stream, f, vs);
    } else {
      ok, visits := EncodeUnpackedArray(stream, f, sub, vs, outer, i, goal);
    }
  }

  /** A field that is not repeated and present */
  method EncodeSingle(
    stream: OStream, f: Field, sub: Option<Table>, v: Value, ghost outer: Table,
    ghost i: nat, ghost goal: Option<seq<Hop>>)
    returns (ok: bool, ghost visits: nat)
    requires stream.Valid() && f.tag < 0x1_0000 && ValidKind(f.kind, f.dataSize)
    requires SubTableOf(f, sub, outer) && ValueTyped(f, v)
    modifies stream, stream.buf
    ensures stream.Emits(ok, EncodeBasic(f, v))
    ensures ok ==> visits == Visits(stream.sizing, ValueStands(f, v, Under(goal, Hop(i, 0))), Hops(goal))
    decreases outer, 2
  {
    OneHop(f, i, v, goal, stream.sizing);
    ok, visits := EncodeBasicField(stream, f, sub, v, outer, Under(goal, Hop(i, 0)));
  }

  /** The value that a field holds, if it is not repeated and present */
  function PresentValue(d: MsgDesc, m: Msg, i: nat): Option<Value>
    requires Shaped(d, m) && i < |d.fields|
  {
    match (d.fields[i].rule, m.slots[i])
    case (Required, Single(v)) => Some(v)
    case (Singular, Single(v)) => if ZeroValue(d.fields[i], v) then None else Some(v)
    case (Optional, Flagged(has, v)) => if has then Some(v) else None
    case (Oneof(u), InUnion) =>
      if u < d.unions && m.unions[u].which == d.fields[i].tag then Some(m.unions[u].v) else None
    case _ => None
  }

  lemma PresentField(d: MsgDesc, m: Msg, i: nat, goal: Option<seq<Hop>>)
    requires ValidDesc(d) && Typed(d, m) && i < |d.fields| && !d.fields[i].rule.Repeated?
    ensures match PresentValue(d, m, i)
            case None => EncodeField(d, m, i) == Some([]) && !FieldStands(d, m, i, goal)
            case Some(v) =>
              && EncodeField(d, m, i) == EncodeBasic(d.fields[i], v)
              && (FieldStands(d, m, i, goal) <==> ValueStands(d.fields[i], v, Under(goal, Hop(i, 0))))
  {
    assert SlotTyped(d.fields[i], m.slots[i]);
  }

  /** The presence check of encode_field */
  method CheckPresence(t: Table, m: Msg, i: nat, sub: Option<Table>) returns (v: Option<Value>)
    requires ValidTable(t) && Typed(t.desc, m) && i < |t.desc.fields| && SubTableOf(t.desc.fields[i], sub, t)
    requires !t.desc.fields[i].rule.Repeated?
    ensures v == PresentValue(t.desc, m, i)
    ensures v.Some? ==> ValueTyped(t.desc.fields[i], v.value)
  {
    var f := t.desc.fields[i];
    assert SlotTyped(f, m.slots[i]);
    match f.rule
    case Oneof(u) =>
      if m.unions[u].which != f.tag {
        return None;
      }
      assert Holds(f, u, m.unions[u]);
      v := Some(m.unions[u].v);
    case Optional => v := if m.slots[i].has then Some(m.slots[i].v) else None;
    case Singular =>
      var zero := ZeroField(t, m, i, sub);
      v := if zero then None else Some(m.slots[i].v);
    case Required => v := Some(m.slots[i].v);
  }

  /** encode_field */
  method EncodeFieldOf(
    stream: OStream, t: Table, m: Msg, i: nat, sub: Option<Table>, ghost goal: Option<seq<Hop>>)
    returns (ok: bool, ghost visits: nat)
    requires stream.Valid() && ValidTable(t) && Typed(t.desc, m) && i < |t.desc.fields|
    requires SubTableOf(t.desc.fields[i], sub, t)
    modifies stream, stream.buf
    ensures stream.Emits(ok, EncodeField(t.desc, m, i))
    ensures ok ==> visits == Visits(stream.sizing, FieldStands(t.desc, m, i, goal), Hops(goal))
    decreases t, 5
  {
    var f := t.desc.fields[i];
    if f.rule.Repeated? {
      assert SlotTyped(f, m.slots[i]);
      ok, visits := EncodeArrayField(stream, f, sub, m.slots[i].vs, t, i, goal);
    } else {
      PresentField(t.desc, m, i, goal);
      var v := CheckPresence(t, m, i, sub);
      if v.None? {
        return true, 0;
      }
      ok, visits := EncodeSingle(stream, f, sub, v.value, t, i, goal);
    }
  }

  //
  // Messages
  //

  /** One more field */
  lemma FieldsStep(d: MsgDesc, m: Msg, i: nat, done: seq<byte>)
    requires Shaped(d, m) && i < |d.fields|
    requires EncodeMsg(d, m) == Join(Some(done), EncodeFields(d, m, i))
    ensures EncodeField(d, m, i).None? ==> EncodeMsg(d, m).None?
    ensures EncodeField(d, m, i).Some? ==>
              EncodeMsg(d, m) == Join(Some(done + EncodeField(d, m, i).value), EncodeFields(d, m, i + 1))
  {
    var first, rest := EncodeField(d, m, i), EncodeFields(d, m, i + 1);
    assert EncodeFields(d, m, i) == Join(first, rest);
    if first.Some? {
      JoinMore(done, first.value, rest);
    }
  }

  /** The current field in the loop of pb_encode: behind what was written before, done grows to
      next. */
  method EncodeCurrent(
    stream: OStream, t: Table, m: Msg, i: nat, sub: Option<Table>, ghost before: seq<byte>, ghost done: seq<byte>,
    ghost goal: Option<seq<Hop>>, ghost visits0: nat)
    returns (ok: bool, ghost next: seq<byte>, ghost visits: nat)
    requires stream.Valid() && ValidTable(t) && Typed(t.desc, m) && i < |t.desc.fields|
    requires SubTableOf(t.desc.fields[i], sub, t)
    requires EncodeMsg(t.desc, m) == Join(Some(done), EncodeFields(t.desc, m, i)) && stream.written == before + done
    requires visits0 == Visits(stream.sizing, StandsBefore(t.desc, m, i, goal), Hops(goal))
    modifies stream, stream.buf
    ensures stream.Valid() && stream.Contained()
    ensures ok ==> stream.written == before + next
                   && EncodeMsg(t.desc, m) == Join(Some(next), EncodeFields(t.desc, m, i + 1))
    ensures !ok ==> Fails(stream, before, EncodeMsg(t.desc, m))
    ensures ok ==> visits == Visits(stream.sizing, StandsBefore(t.desc, m, i + 1, goal), Hops(goal))
    decreases t, 6
  {
    FieldsStep(t.desc, m, i, done);
    FieldCounted(t.desc, m, i, goal, stream.sizing);
    ghost var out := EncodeField(t.desc, m, i);
    next := if out.Some? then done + out.value else done;
    assert out.Some? ==> (before + done) + out.value == before + next;
    ghost var added;
    ok, added := EncodeFieldOf(stream, t, m, i, sub, goal);
    visits := visits0 + added;
  }

  /** pb_encode */
  method Encode(stream: OStream, t: Table, m: Msg, ghost goal: Option<seq<Hop>>) returns (ok: bool, ghost visits: nat)
    requires stream.Valid() && ValidTable(t) && Typed(t.desc, m)
    modifies stream, stream.buf
    ensures stream.Emits(ok, EncodeMsg(t.desc, m))
    ensures ok ==> visits == Visits(stream.sizing, Stands(t.desc, m, goal), Hops(goal))
    decreases t, 8
  {
    if |t.desc.fields| == 0 {
      return true, 0;
    }
    var iter := new FieldIter.Begin(Bind(t.entries), t.entries);
    ok, visits := EncodeAll(stream, t, m, iter, goal);
  }

  /** The do-while loop of pb_encode */
  method EncodeAll(stream: OStream, t: Table, m: Msg, iter: FieldIter, ghost goal: Option<seq<Hop>>)
    returns (ok: bool, ghost visits: nat)
    requires stream.Valid() && ValidTable(t) && Typed(t.desc, m)
    requires iter.Loaded() && iter.entries == t.entries && iter.index == 0 < |t.desc.fields|
    modifies stream, stream.buf, iter
    ensures stream.Emits(ok, EncodeMsg(t.desc, m))
    ensures ok ==> visits == Visits(stream.sizing, Stands(t.desc, m, goal), Hops(goal))
    decreases t, 7
  {
    ghost var i, before, done := 0, stream.written, [];
    assert before + [] == before;
    visits := 0;
    JoinNothing(EncodeMsg(t.desc, m));
    var more := true;
    while more
      invariant stream.Valid() && stream.Contained() && stream.written == before + done && iter.Loaded()
      invariant if more then i == iter.index < |t.desc.fields| else i == |t.desc.fields|
      invariant EncodeMsg(t.desc, m) == Join(Some(done), EncodeFields(t.desc, m, i))
      invariant visits == Visits(stream.sizing, StandsBefore(t.desc, m, i, goal), Hops(goal))
      decreases |t.desc.fields| - i
    {
      var sub := CurrentSubTable(t, iter);
      ok, done, visits := EncodeCurrent(stream, t, m, iter.index, sub, before, done, goal, visits);
      if !ok {
        return false, 0;
      }
      more := iter.Next();
      i := i + 1;
    }
    assert done + [] == done;
    ok := true;
  }

  /** pb_encode_ex */
  method EncodeEx(stream: OStream, t: Table, m: Msg, framing: Framing) returns (ok: bool)
    requires stream.Valid() && ValidTable(t) && Typed(t.desc, m)
    modifies stream, stream.buf
    ensures stream.Emits(ok, FramedBytes(t.desc, m, framing))
  {
    ghost var visits;
    match framing
    case WithLength => ok, visits := EncodeSubmessage(stream, t, m, None);
    case NullTerminated =>
      ok, visits := Encode(stream, t, m, None);
      if !ok {
        return false;
      }
      ok := stream.Write([0]);
    case Plain => ok, visits := Encode(stream, t, m, None);
  }
}
