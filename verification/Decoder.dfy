/** The decoder: a loop over the tags in the input that updates the message, with recursion
    through submessages. */
module Decoder {
  import opened Wire
  import opened Schema
  import opened Numbers
  import opened DecodeSpec
  import opened Iteration
  import opened Binding
  import opened InStream
  import opened NumberDecoders
  import opened FieldsSeen

  /** dest_struct: the struct that is decoded into */
  class Struct {
    var m: Msg

    constructor (m: Msg)
      ensures this.m == m
    {
      this.m := m;
    }
  }

  //
  // Values
  //

  /** The packable kinds of decode_basic_field, the check of the wire type aside */
  method DecodeNumber(stream: IStream, f: Field) returns (ok: bool, n: int)
    requires stream.Valid() && Packable(f.kind) && ValidKind(f.kind, f.dataSize)
    modifies stream
    ensures stream.Reads(ok, DecodeNum(f.kind, f.dataSize, old(stream.Rest())))
    ensures ok ==> n == DecodeNum(f.kind, f.dataSize, old(stream.Rest())).value
  {
    match f.kind
    case Bool => ok, n := DecodeBool(stream);
    case Varint | UVarint | SVarint => ok, n := DecVarint(stream, f.kind, f.dataSize);
    case Fixed32 => ok, n := DecodeFixed32(stream);
    case Fixed64 => ok, n := DecodeFixed64(stream);
  }

  /** A length-delimited value */
  function DelimitedValue(f: Field, prior: Value, s: seq<byte>): Parsed<Value> {
    match Payload(s)
    case Fail => Fail
    case Ok(p, rest) =>
      match DecodePayload(f, prior, p)
      case None => Fail
      case Some(v) => Ok(v, rest)
  }

  /** pb_dec_bytes */
  method DecBytes(stream: IStream, f: Field) returns (ok: bool, v: Value)
    requires stream.Valid() && f.kind.Bytes?
    modifies stream
    ensures stream.Reads(ok, DelimitedValue(f, DefaultValue(f), old(stream.Rest())))
    ensures ok ==> v == DelimitedValue(f, DefaultValue(f), old(stream.Rest())).value
  {
    v := Num(0);
    var size, bytes;
    ok, size := DecodeVarint32(stream);
    if !ok {
      return;
    }
    var allocSize := size + 2;
    if allocSize > f.dataSize {
      return false, v;
    }
    ok, bytes := stream.Read(size);
    v := Str(bytes);
  }

  /** A string whose length is known */
  lemma StringOfLength(f: Field, s: seq<byte>)
    requires f.kind.String? && Varint32(s).Ok?
    ensures DelimitedValue(f, DefaultValue(f), s)
            == match Take(Varint32(s).rest, Varint32(s).value)
               case Fail => Fail
               case Ok(p, rest) => if Varint32(s).value + 1 <= f.dataSize then Ok(Str(UpToNul(p)), rest) else Fail
  {
  }

  /** pb_dec_string: the bytes, and a NUL behind them */
  method DecString(stream: IStream, f: Field) returns (ok: bool, v: Value)
    requires stream.Valid() && f.kind.String? && f.dataSize < 0x1_0000
    modifies stream
    ensures stream.Reads(ok, DelimitedValue(f, DefaultValue(f), old(stream.Rest())))
    ensures ok ==> v == DelimitedValue(f, DefaultValue(f), old(stream.Rest())).value
  {
    v := Num(0);
    var size, bytes;
    ok, size := DecodeVarint32(stream);
    if !ok {
      return;
    }
    StringOfLength(f, old(stream.Rest()));
    if size == 0xFFFF_FFFF {
      return false, v;
    }
    var allocSize := size + 1;
    if allocSize > f.dataSize {
      return false, v;
    }
    ok, bytes := stream.Read(size);
    v := Str(UpToNul(bytes));
  }

  /** pb_dec_fixed_length_bytes */
  method DecFixedLengthBytes(stream: IStream, f: Field) returns (ok: bool, v: Value)
    requires stream.Valid() && f.kind.FixedLengthBytes? && f.dataSize < 0x1_0000
    modifies stream
    ensures stream.Reads(ok, DelimitedValue(f, DefaultValue(f), old(stream.Rest())))
    ensures ok ==> v == DelimitedValue(f, DefaultValue(f), old(stream.Rest())).value
  {
    v := Num(0);
    var size, bytes;
    ok, size := DecodeVarint32(stream);
    if !ok {
      return;
    }
    if size > 0xFFFF {
      return false, v;
    }
    if size == 0 {
      return true, Str(Zeros(f.dataSize));
    }
    if size != f.dataSize {
      return false, v;
    }
    ok, bytes := stream.Read(f.dataSize);
    v := Str(bytes);
  }

  /** Elements of an array start from the defaults, other submessages from what is there. */
  lemma SubmessagePayload(f: Field, desc: MsgDesc, prior: Value, p: seq<byte>)
    requires f.kind == Submessage(desc) && (f.rule.Repeated? ==> prior == DefaultValue(f))
    ensures DecodePayload(f, prior, p)
            == match Outcome(desc, MsgIn(desc, prior), !f.rule.Repeated?, p, false)
               case Fail => None
               case Ok(m, _) => Some(Sub(m))
  {
  }

  /** pb_dec_submessage: fields that are not repeated build on what is there. */
  method DecSubmessage(stream: IStream, f: Field, sub: Table, prior: Value) returns (ok: bool, v: Value)
    requires stream.Valid() && f.kind == Submessage(sub.desc) && ValidTable(sub)
    requires f.rule.Repeated? ==> prior == DefaultValue(f)
    modifies stream
    ensures stream.Reads(ok, DelimitedValue(f, prior, old(stream.Rest())))
    ensures ok ==> v == DelimitedValue(f, prior, old(stream.Rest())).value
    decreases stream.bytesLeft, 0
  {
    v := Num(0);
    var substream;
    ok, substream := MakeSubstream(stream);
    if !ok {
      return;
    }
    var dest := new Struct(MsgIn(sub.desc, prior));
    SubmessagePayload(f, sub.desc, prior, substream.Rest());
    ok := DecodeWithin(stream, substream, sub, dest, !f.rule.Repeated?, false);
    v := Sub(dest.m);
  }

  /** A message that fills a substream, which is then closed */
  method DecodeWithin(stream: IStream, sub: IStream, t: Table, dest: Struct, noInit: bool, nullTerm: bool)
    returns (ok: bool)
    requires Inside(sub, stream) && ValidTable(t) && Shaped(t.desc, dest.m)
    modifies stream, sub, dest
    ensures stream.Valid() && stream.Rest() == old(Behind(sub, stream))
    ensures stream.state == old(sub.End()) && stream.bytesLeft == old(stream.bytesLeft)
    ensures ok <==> Outcome(t.desc, old(dest.m), noInit, old(sub.Rest()), nullTerm).Ok?
    ensures ok ==> dest.m == Outcome(t.desc, old(dest.m), noInit, old(sub.Rest()), nullTerm).value
    decreases sub.bytesLeft, 10
  {
    ghost var behind := Behind(sub, stream);
    var status := DecodeInner(sub, t, dest, noInit, nullTerm);
    assert Behind(sub, stream) == behind;
    ok := CloseSubstream(stream, sub);
    ok := ok && status;
  }

  /** Among the delimited kinds, only submessages build on what the field held. */
  lemma DelimitedBasic(f: Field, prior: Value, s: seq<byte>)
    requires ValidKind(f.kind, f.dataSize) && !Packable(f.kind)
    ensures DecodeBasic(f, WT_STRING, prior, s) == DelimitedValue(f, prior, s)
    ensures !f.kind.Submessage? ==> DelimitedValue(f, prior, s) == DelimitedValue(f, DefaultValue(f), s)
  {
  }

  /** The length-delimited kinds of decode_basic_field */
  method DecodeDelimited(stream: IStream, f: Field, sub: Option<Table>, ghost outer: Table, prior: Value)
    returns (ok: bool, v: Value)
    requires stream.Valid() && ValidKind(f.kind, f.dataSize) && !Packable(f.kind) && SubTableOf(f, sub, outer)
    requires f.rule.Repeated? ==> prior == DefaultValue(f)
    modifies stream
    ensures stream.Reads(ok, DelimitedValue(f, prior, old(stream.Rest())))
    ensures ok ==> v == DelimitedValue(f, prior, old(stream.Rest())).value
    decreases stream.bytesLeft, 1
  {
    DelimitedBasic(f, prior, stream.Rest());
    if f.kind.Bytes? {
      ok, v := DecBytes(stream, f);
    } else if f.kind.String? {
      ok, v := DecString(stream, f);
    } else if f.kind.Submessage? {
      ok, v := DecSubmessage(stream, f, sub.value, prior);
    } else {
      ok, v := DecFixedLengthBytes(stream, f);
    }
  }

  /** decode_basic_field */
  method DecodeBasicField(stream: IStream, f: Field, sub: Option<Table>, ghost outer: Table, wt: nat, prior: Value)
    returns (ok: bool, v: Value)
    requires stream.Valid() && ValidKind(f.kind, f.dataSize) && SubTableOf(f, sub, outer)
    requires f.rule.Repeated? ==> prior == DefaultValue(f)
    modifies stream
    ensures stream.Reads(ok, DecodeBasic(f, wt, prior, old(stream.Rest())))
    ensures ok ==> v == DecodeBasic(f, wt, prior, old(stream.Rest())).value
    decreases stream.bytesLeft, 2
  {
    v := Num(0);
    if wt != WireType(f.kind) {
      return false, v;
    }
    if Packable(f.kind) {
      var n;
      ok, n := DecodeNumber(stream, f);
      v := Num(n);
    } else {
      DelimitedBasic(f, prior, stream.Rest());
      ok, v := DecodeDelimited(stream, f, sub, outer, prior);
    }
  }

  //
  // Fields
  //

  /** The elements of a packed array in a substream */
  method DecodeElements(sub: IStream, f: Field, vs0: seq<Value>) returns (ok: bool, vs: seq<Value>)
    requires sub.Valid() && Packable(f.kind) && ValidKind(f.kind, f.dataSize)
    modifies sub
    ensures sub.Moved()
    ensures ok <==> DecodePacked(f, vs0, old(sub.Rest())).Some?
    ensures ok ==> vs == DecodePacked(f, vs0, old(sub.Rest())).value
  {
    vs := vs0;
    while sub.bytesLeft > 0 && |vs| < f.arraySize
      invariant sub.Moved()
      invariant DecodePacked(f, vs0, old(sub.Rest())) == DecodePacked(f, vs, sub.Rest())
      decreases sub.bytesLeft
    {
      var n;
      ok, n := DecodeNumber(sub, f);
      if !ok {
        return;
      }
      vs := vs + [Num(n)];
    }
    ok := sub.bytesLeft == 0;
  }

  /** The packed branch of decode_static_field */
  method DecodePackedField(stream: IStream, f: Field, vs0: seq<Value>) returns (ok: bool, vs: seq<Value>)
    requires stream.Valid() && Packable(f.kind) && ValidKind(f.kind, f.dataSize)
    modifies stream
    ensures stream.Reads(ok, ApplyRepeated(f, vs0, WT_STRING, old(stream.Rest())))
    ensures ok ==> vs == ApplyRepeated(f, vs0, WT_STRING, old(stream.Rest())).value
  {
    vs := vs0;
    var sub;
    ok, sub := MakeSubstream(stream);
    if !ok {
      return;
    }
    ghost var behind := Behind(sub, stream);
    var status;
    status, vs := DecodeElements(sub, f, vs0);
    assert Behind(sub, stream) == behind;
    ok := CloseSubstream(stream, sub);
    ok := ok && status;
  }

  /** The repeated branch of decode_static_field */
  method DecodeRepeatedField(
    stream: IStream, f: Field, sub: Option<Table>, ghost outer: Table, wt: nat, vs0: seq<Value>)
    returns (ok: bool, vs: seq<Value>)
    requires stream.Valid() && ValidKind(f.kind, f.dataSize) && SubTableOf(f, sub, outer)
    modifies stream
    ensures stream.Reads(ok, ApplyRepeated(f, vs0, wt, old(stream.Rest())))
    ensures ok ==> vs == ApplyRepeated(f, vs0, wt, old(stream.Rest())).value
    decreases stream.bytesLeft, 3
  {
    vs := vs0;
    if wt == WT_STRING && Packable(f.kind) {
      ok, vs := DecodePackedField(stream, f, vs0);
    } else {
      if |vs0| >= f.arraySize {
        return false, vs;
      }
      var v;
      ok, v := DecodeBasicField(stream, f, sub, outer, wt, DefaultValue(f));
      vs := vs0 + [v];
    }
  }

  /** The optional branch of decode_static_field, which sets the has-flag first */
  method DecodeOptionalField(stream: IStream, t: Table, dest: Struct, i: nat, sub: Option<Table>, wt: nat)
    returns (ok: bool)
    requires stream.Valid() && ValidTable(t) && Shaped(t.desc, dest.m) && i < |t.desc.fields|
    requires SubTableOf(t.desc.fields[i], sub, t) && t.desc.fields[i].rule.Optional?
    modifies stream, dest
    ensures stream.Reads(ok, ApplyField(t.desc, old(dest.m), i, wt, old(stream.Rest())))
    ensures ok ==> dest.m == ApplyField(t.desc, old(dest.m), i, wt, old(stream.Rest())).value
    ensures Shaped(t.desc, dest.m)
    decreases stream.bytesLeft, 3
  {
    var f, prior := t.desc.fields[i], Held(t.desc.fields[i], dest.m.slots[i]);
    ghost var before := dest.m;
    dest.m := dest.m.(slots := dest.m.slots[i := Flagged(true, prior)]);
    var v;
    ok, v := DecodeBasicField(stream, f, sub, t, wt, prior);
    if ok {
      dest.m := dest.m.(slots := dest.m.slots[i := Flagged(true, v)]);
      assert dest.m.slots == before.slots[i := Flagged(true, v)];
    }
  }

  /** The union switches to the member, which starts afresh unless it was there already. */
  method SwitchMember(f: Field, u: nat, dest: Struct)
    requires u < |dest.m.unions|
    modifies dest
    ensures var m := old(dest.m);
            dest.m == m.(unions := m.unions[u := Union(f.tag, HeldInUnion(f, m.unions[u]))])
  {
    if dest.m.unions[u].which != f.tag {
      dest.m := dest.m.(unions := dest.m.unions[u := Union(f.tag, DefaultValue(f))]);
    } else {
      assert dest.m.unions[u := dest.m.unions[u]] == dest.m.unions;
    }
  }

  /** The oneof branch of decode_static_field, which switches the union to the member first */
  method DecodeMemberField(stream: IStream, t: Table, dest: Struct, i: nat, sub: Option<Table>, wt: nat)
    returns (ok: bool)
    requires stream.Valid() && ValidTable(t) && Shaped(t.desc, dest.m) && i < |t.desc.fields|
    requires SubTableOf(t.desc.fields[i], sub, t) && t.desc.fields[i].rule.Oneof?
    modifies stream, dest
    ensures stream.Reads(ok, ApplyField(t.desc, old(dest.m), i, wt, old(stream.Rest())))
    ensures ok ==> dest.m == ApplyField(t.desc, old(dest.m), i, wt, old(stream.Rest())).value
    ensures Shaped(t.desc, dest.m)
    decreases stream.bytesLeft, 3
  {
    var f, u := t.desc.fields[i], t.desc.fields[i].rule.union;
    ghost var before := dest.m;
    SwitchMember(f, u, dest);
    var v;
    ok, v := DecodeBasicField(stream, f, sub, t, wt, dest.m.unions[u].v);
    if ok {
      dest.m := dest.m.(unions := dest.m.unions[u := Union(f.tag, v)]);
      assert dest.m.unions == before.unions[u := Union(f.tag, v)];
    }
  }

  /** The branch for required and singular fields */
  method DecodeSingleField(stream: IStream, t: Table, dest: Struct, i: nat, sub: Option<Table>, wt: nat)
    returns (ok: bool)
    requires stream.Valid() && ValidTable(t) && Shaped(t.desc, dest.m) && i < |t.desc.fields|
    requires SubTableOf(t.desc.fields[i], sub, t)
    requires t.desc.fields[i].rule.Required? || t.desc.fields[i].rule.Singular?
    modifies stream, dest
    ensures stream.Reads(ok, ApplyField(t.desc, old(dest.m), i, wt, old(stream.Rest())))
    ensures ok ==> dest.m == ApplyField(t.desc, old(dest.m), i, wt, old(stream.Rest())).value
    ensures Shaped(t.desc, dest.m)
    decreases stream.bytesLeft, 3
  {
    var f := t.desc.fields[i];
    var v;
    ok, v := DecodeBasicField(stream, f, sub, t, wt, Held(f, dest.m.slots[i]));
    dest.m := dest.m.(slots := dest.m.slots[i := Single(v)]);
  }

  /** decode_static_field */
  method DecodeStaticField(stream: IStream, t: Table, dest: Struct, i: nat, sub: Option<Table>, wt: nat)
    returns (ok: bool)
    requires stream.Valid() && ValidTable(t) && Shaped(t.desc, dest.m) && i < |t.desc.fields|
    requires SubTableOf(t.desc.fields[i], sub, t)
    modifies stream, dest
    ensures stream.Reads(ok, ApplyField(t.desc, old(dest.m), i, wt, old(stream.Rest())))
    ensures ok ==> dest.m == ApplyField(t.desc, old(dest.m), i, wt, old(stream.Rest())).value
    ensures Shaped(t.desc, dest.m)
    decreases stream.bytesLeft, 4
  {
    var f := t.desc.fields[i];
    match f.rule {
      case Required | Singular => ok := DecodeSingleField(stream, t, dest, i, sub, wt);
      case Optional => ok := DecodeOptionalField(stream, t, dest, i, sub, wt);
      case Repeated =>
        var vs;
        ok, vs := DecodeRepeatedField(stream, f, sub, t, wt, ItemsIn(dest.m.slots[i]));
        dest.m := dest.m.(slots := dest.m.slots[i := Items(vs)]);
      case Oneof(_) => ok := DecodeMemberField(stream, t, dest, i, sub, wt);
    }
  }

  //
  // Default values
  //

  ghost predicate AtDefault(d: MsgDesc, m: Msg, i: nat)
    requires Shaped(d, m) && i < |d.fields|
  {
    && m.slots[i] == DefaultSlot(d.fields[i])
    && (d.fields[i].rule.Oneof? && d.fields[i].rule.union < d.unions ==> m.unions[d.fields[i].rule.union] == NO_MEMBER)
  }

  /** The fields before the i-th are at their defaults. */
  ghost predicate DefaultsBefore(d: MsgDesc, m: Msg, i: nat)
    requires Shaped(d, m) && i <= |d.fields|
  {
    forall j :: 0 <= j < i ==> AtDefault(d, m, j)
  }

  /** Once every field has been reset, so has every union. */
  lemma AllAtDefault(d: MsgDesc, m: Msg)
    requires Shaped(d, m) && UnionsUsed(d) && DefaultsBefore(d, m, |d.fields|)
    ensures m == DefaultMsg(d)
  {
    forall u | 0 <= u < d.unions ensures m.unions[u] == NO_MEMBER {
      assert HasMember(d, u);
      var i: nat :| i < |d.fields| && d.fields[i].rule == Oneof(u);
      assert AtDefault(d, m, i);
    }
    forall i | 0 <= i < |d.fields| ensures m.slots[i] == DefaultMsg(d).slots[i] {
      assert AtDefault(d, m, i);
    }
    assert m.slots == DefaultMsg(d).slots && m.unions == DefaultMsg(d).unions;
  }

  /** pb_field_set_to_default */
  method SetFieldToDefault(d: MsgDesc, dest: Struct, i: nat)
    requires ValidDesc(d) && Shaped(d, dest.m) && i < |d.fields| && DefaultsBefore(d, dest.m, i)
    modifies dest
    ensures Shaped(d, dest.m) && DefaultsBefore(d, dest.m, i + 1)
  {
    var f := d.fields[i];
    ghost var before := dest.m;
    dest.m := dest.m.(slots := dest.m.slots[i := DefaultSlot(f)]);
    if f.rule.Oneof? {
      dest.m := dest.m.(unions := dest.m.unions[f.rule.union := NO_MEMBER]);
    }
    forall j | 0 <= j < i ensures AtDefault(d, dest.m, j) {
      assert AtDefault(d, before, j);
    }
  }

  /** pb_message_set_to_defaults, for a schema without explicit default values */
  method SetToDefaults(iter: FieldIter, t: Table, dest: Struct)
    requires ValidTable(t) && Shaped(t.desc, dest.m)
    requires iter.Loaded() && iter.entries == t.entries && iter.index == 0 < |t.desc.fields|
    modifies iter, dest
    ensures dest.m == DefaultMsg(t.desc)
    ensures iter.Loaded()
  {
    ghost var i := 0;
    var more := true;
    while more
      invariant iter.Loaded() && Shaped(t.desc, dest.m) && i <= |t.desc.fields|
      invariant DefaultsBefore(t.desc, dest.m, i)
      invariant if more then i == iter.index < |t.desc.fields| else i == |t.desc.fields|
      decreases |t.desc.fields| - i
    {
      SetFieldToDefault(t.desc, dest, iter.index);
      i := i + 1;
      more := iter.Next();
    }
    AllAtDefault(t.desc, dest.m);
  }

  //
  // Messages
  //

  datatype Turn = Failed | Stopped | Continued

  /** How one turn of the loop of pb_decode_inner relates to a step of the specification */
  ghost predicate TurnIs(turn: Turn, step: StepResult, st: State, rest: seq<byte>, nullTerm: bool) {
    match turn
    case Failed => step.Bad? || (step.ZeroTag? && !nullTerm)
    case Stopped => step == ZeroTag(rest) && nullTerm
    case Continued => step == Next(st, rest)
  }

  /** The branch for a tag that the message does not declare: no extension handles it, and it
      is skipped. extensionRangeStart is 0 until the first such tag. */
  method DecodeUnknown(stream: IStream, t: Table, iter: FieldIter, wt: nat, tag: nat, extensionRangeStart0: nat)
    returns (ok: bool, extensionRangeStart: nat)
    requires stream.Valid() && ValidTable(t) && iter.Loaded() && iter.entries == t.entries && tag < 0xFFFF_FFFF
    requires extensionRangeStart0 == 0 || extensionRangeStart0 == 0xFFFF_FFFF
    modifies stream, iter
    ensures stream.Reads(ok, SkipField(wt, old(stream.Rest())))
    ensures iter.Loaded() && extensionRangeStart == 0xFFFF_FFFF
  {
    extensionRangeStart := extensionRangeStart0;
    if extensionRangeStart == 0 {
      TagsInOrder(t);
      var found := iter.FindExtension();
      if found {
        assert false;
      }
      extensionRangeStart := 0xFFFF_FFFF;
    }
    if tag >= extensionRangeStart {
      assert false;
    }
    ok := SkipUnknown(stream, wt);
  }

  /** Marking the field at which the iterator stands, if it is required and tracked */
  method MarkSeen(t: Table, iter: FieldIter, bits: SeenBits, ghost seen: set<nat>)
    requires ValidTable(t) && iter.Loaded() && iter.entries == t.entries && iter.index < |t.desc.fields|
    requires bits.Valid() && Mirrors(t.desc, seen, bits.Marks())
    modifies bits.bitfield
    ensures bits.Valid() && Mirrors(t.desc, Seen(t.desc, seen, iter.index), bits.Marks())
  {
    RequiredIndexAgrees(t, iter.index);
    MarkMirrors(t.desc, seen, bits.Marks(), iter.index);
    if t.desc.fields[iter.index].rule.Required? && iter.requiredFieldIndex < MAX_REQUIRED_FIELDS {
      bits.Mark(iter.requiredFieldIndex);
    }
  }

  /** The branch for the field at which the iterator stands */
  method DecodeKnown(stream: IStream, t: Table, dest: Struct, iter: FieldIter, bits: SeenBits, wt: nat,
                     ghost seen: set<nat>)
    returns (ok: bool)
    requires stream.Valid() && ValidTable(t) && Shaped(t.desc, dest.m)
    requires iter.Loaded() && iter.entries == t.entries && iter.index < |t.desc.fields|
    requires bits.Valid() && Mirrors(t.desc, seen, bits.Marks())
    modifies stream, dest, bits.bitfield
    ensures stream.Reads(ok, ApplyField(t.desc, old(dest.m), iter.index, wt, old(stream.Rest())))
    ensures ok ==> dest.m == ApplyField(t.desc, old(dest.m), iter.index, wt, old(stream.Rest())).value
    ensures Shaped(t.desc, dest.m)
    ensures bits.Valid() && Mirrors(t.desc, Seen(t.desc, seen, iter.index), bits.Marks())
    decreases stream.bytesLeft, 5
  {
    MarkSeen(t, iter, bits, seen);
    var sub := CurrentSubTable(t, iter);
    ok := DecodeStaticField(stream, t, dest, iter.index, sub, wt);
  }

  /** One turn of the loop of pb_decode_inner */
  method DecodeTurn(stream: IStream, t: Table, dest: Struct, iter: FieldIter, bits: SeenBits, nullTerm: bool,
                    extensionRangeStart0: nat, ghost seen: set<nat>)
    returns (turn: Turn, extensionRangeStart: nat, ghost seen': set<nat>)
    requires stream.Valid() && stream.bytesLeft > 0 && ValidTable(t) && Shaped(t.desc, dest.m)
    requires iter.Loaded() && iter.entries == t.entries
    requires bits.Valid() && Mirrors(t.desc, seen, bits.Marks())
    requires extensionRangeStart0 == 0 || extensionRangeStart0 == 0xFFFF_FFFF
    modifies stream, dest, iter, bits.bitfield
    ensures stream.Moved() && Shaped(t.desc, dest.m)
    ensures TurnIs(turn, Step(t.desc, State(old(dest.m), seen), old(stream.Rest())),
                   State(dest.m, seen'), stream.Rest(), nullTerm)
    ensures turn.Stopped? ==> dest.m == old(dest.m) && seen' == seen
    ensures iter.Loaded() && bits.Valid() && (!turn.Failed? ==> Mirrors(t.desc, seen', bits.Marks()))
    ensures extensionRangeStart == 0 || extensionRangeStart == 0xFFFF_FFFF
    decreases stream.bytesLeft, 6
  {
    seen', extensionRangeStart := seen, extensionRangeStart0;
    var ok, wt, tag, eof := DecodeTag(stream);
    if !ok {
      if eof {
        // The end of the input would end the loop, but the loop found bytes left.
        assert false;
      }
      return Failed, extensionRangeStart, seen';
    }
    if tag == 0 {
      return if nullTerm then Stopped else Failed, extensionRangeStart, seen';
    }
    StepAfterTag(t.desc, State(dest.m, seen), old(stream.Rest()));
    ok, extensionRangeStart, seen' := DecodeTagged(stream, t, dest, iter, bits, wt, tag, extensionRangeStart0, seen);
    turn := if ok then Continued else Failed;
  }

  /** The iterator's search finds the declared field, or there is none. */
  method FindField(t: Table, iter: FieldIter, tag: nat) returns (found: bool)
    requires ValidTable(t) && iter.Loaded() && iter.entries == t.entries && tag > 0
    modifies iter
    ensures iter.Loaded()
    ensures FindTag(t.desc.fields, tag) == if found then Some(iter.index) else None
    ensures found ==> iter.index < |t.desc.fields|
  {
    TagsInOrder(t);
    SearchAgrees(t, tag);
    found := iter.Find(tag);
    if found {
      assert DescribedAt(t, iter.index);
      FindTagUnique(t.desc, iter.index);
    }
  }

  /** The rest of a turn, for a nonzero tag */
  method DecodeTagged(stream: IStream, t: Table, dest: Struct, iter: FieldIter, bits: SeenBits, wt: nat, tag: nat,
                      extensionRangeStart0: nat, ghost seen: set<nat>)
    returns (ok: bool, extensionRangeStart: nat, ghost seen': set<nat>)
    requires stream.Valid() && ValidTable(t) && Shaped(t.desc, dest.m) && 0 < tag < 0xFFFF_FFFF
    requires iter.Loaded() && iter.entries == t.entries
    requires bits.Valid() && Mirrors(t.desc, seen, bits.Marks())
    requires extensionRangeStart0 == 0 || extensionRangeStart0 == 0xFFFF_FFFF
    modifies stream, dest, iter, bits.bitfield
    ensures stream.Moved() && Shaped(t.desc, dest.m)
    ensures AfterTag(t.desc, State(old(dest.m), seen), wt, tag, old(stream.Rest()))
            == if ok then Next(State(dest.m, seen'), stream.Rest()) else Bad
    ensures iter.Loaded() && bits.Valid() && (ok ==> Mirrors(t.desc, seen', bits.Marks()))
    ensures extensionRangeStart == 0 || extensionRangeStart == 0xFFFF_FFFF
    decreases stream.bytesLeft, 6
  {
    seen', extensionRangeStart := seen, extensionRangeStart0;
    var found := FindField(t, iter, tag);
    if !found {
      ok, extensionRangeStart := DecodeUnknown(stream, t, iter, wt, tag, extensionRangeStart0);
    } else {
      ok := DecodeKnown(stream, t, dest, iter, bits, wt, seen);
      seen' := Seen(t.desc, seen, iter.index);
    }
  }

  /** The loop of pb_decode_inner */
  method DecodeFields(stream: IStream, t: Table, dest: Struct, iter: FieldIter, bits: SeenBits, nullTerm: bool)
    returns (ok: bool, ghost seen: set<nat>)
    requires stream.Valid() && ValidTable(t) && Shaped(t.desc, dest.m)
    requires iter.Loaded() && iter.entries == t.entries
    requires bits.Valid() && bits.Marks() == {}
    modifies stream, dest, iter, bits.bitfield
    ensures stream.Reads(ok, Loop(t.desc, State(old(dest.m), {}), old(stream.Rest()), nullTerm))
    ensures ok ==> State(dest.m, seen) == Loop(t.desc, State(old(dest.m), {}), old(stream.Rest()), nullTerm).value
    ensures Shaped(t.desc, dest.m)
    ensures bits.Valid() && (ok ==> Mirrors(t.desc, seen, bits.Marks()))
    decreases stream.bytesLeft, 7
  {
    ghost var result := Loop(t.desc, State(dest.m, {}), stream.Rest(), nullTerm);
    seen := {};
    var extensionRangeStart := 0;
    while stream.bytesLeft > 0
      invariant stream.Moved() && iter.Loaded() && bits.Valid() && Mirrors(t.desc, seen, bits.Marks())
      invariant Shaped(t.desc, dest.m)
      invariant extensionRangeStart == 0 || extensionRangeStart == 0xFFFF_FFFF
      invariant result == Loop(t.desc, State(dest.m, seen), stream.Rest(), nullTerm)
      decreases stream.bytesLeft
    {
      var turn;
      turn, extensionRangeStart, seen := DecodeTurn(stream, t, dest, iter, bits, nullTerm, extensionRangeStart, seen);
      match turn {
        case Failed => return false, {};
        case Stopped => return true, seen;
        case Continued =>
      }
    }
    ok := true;
  }

  /** An iterator for the message, which is set to its defaults unless told otherwise */
  method BeginMessage(t: Table, dest: Struct, noInit: bool) returns (iter: FieldIter)
    requires ValidTable(t) && Shaped(t.desc, dest.m)
    modifies dest
    ensures fresh(iter) && iter.Loaded() && iter.entries == t.entries
    ensures dest.m == if noInit then old(dest.m) else DefaultMsg(t.desc)
  {
    iter := new FieldIter.Begin(Bind(t.entries), t.entries);
    if !noInit {
      if |t.desc.fields| > 0 {
        SetToDefaults(iter, t, dest);
      } else {
        AllAtDefault(t.desc, dest.m);
      }
    }
  }

  /** pb_decode_inner */
  method DecodeInner(stream: IStream, t: Table, dest: Struct, noInit: bool, nullTerm: bool) returns (ok: bool)
    requires stream.Valid() && ValidTable(t) && Shaped(t.desc, dest.m)
    modifies stream, dest
    ensures stream.Reads(ok, Outcome(t.desc, old(dest.m), noInit, old(stream.Rest()), nullTerm))
    ensures ok ==> dest.m == Outcome(t.desc, old(dest.m), noInit, old(stream.Rest()), nullTerm).value
    ensures Shaped(t.desc, dest.m)
    decreases stream.bytesLeft, 9
  {
    var iter := BeginMessage(t, dest, noInit);
    ok := DecodeBegun(stream, t, dest, iter, nullTerm);
  }

  /** The check of the required fields at the end of pb_decode_inner */
  method RequiredPresent(t: Table, bits: SeenBits, ghost seen: set<nat>) returns (all: bool)
    requires ValidTable(t) && bits.Valid() && Mirrors(t.desc, seen, bits.Marks())
    ensures all <==> RequiredSeen(t.desc, seen)
  {
    RequiredIndexAgrees(t, |t.entries|);
    BitsTellRequired(t.desc, seen, bits.Marks());
    all := bits.AllSeen(Bind(t.entries).requiredFieldCount);
  }

  /** The loop, and the check of the required fields behind it */
  method DecodeBegun(stream: IStream, t: Table, dest: Struct, iter: FieldIter, nullTerm: bool) returns (ok: bool)
    requires stream.Valid() && ValidTable(t) && Shaped(t.desc, dest.m)
    requires iter.Loaded() && iter.entries == t.entries
    modifies stream, dest, iter
    ensures stream.Reads(ok, Outcome(t.desc, old(dest.m), true, old(stream.Rest()), nullTerm))
    ensures ok ==> dest.m == Outcome(t.desc, old(dest.m), true, old(stream.Rest()), nullTerm).value
    ensures Shaped(t.desc, dest.m)
    decreases stream.bytesLeft, 8
  {
    var bits := new SeenBits();
    ghost var seen;
    ok, seen := DecodeFields(stream, t, dest, iter, bits, nullTerm);
    if ok {
      ok := RequiredPresent(t, bits, seen);
    }
  }

  /** pb_decode_ex: with a length prefix, exactly the prefix and the bytes it announces are
      consumed. */
  method DecodeEx(stream: IStream, t: Table, dest: Struct, noInit: bool, delimited: bool, nullTerm: bool)
    returns (ok: bool)
    requires stream.Valid() && ValidTable(t) && Shaped(t.desc, dest.m)
    modifies stream, dest
    ensures stream.Reads(ok, OutcomeEx(t.desc, old(dest.m), noInit, delimited, nullTerm, old(stream.Rest())))
    ensures ok ==> dest.m == OutcomeEx(t.desc, old(dest.m), noInit, delimited, nullTerm, old(stream.Rest())).value
  {
    if !delimited {
      ok := DecodeInner(stream, t, dest, noInit, nullTerm);
    } else {
      var sub;
      ok, sub := MakeSubstream(stream);
      if !ok {
        return;
      }
      ok := DecodeWithin(stream, sub, t, dest, noInit, nullTerm);
    }
  }

  /** pb_decode */
  method DecodeMessage(stream: IStream, t: Table, dest: Struct) returns (ok: bool)
    requires stream.Valid() && ValidTable(t) && Shaped(t.desc, dest.m)
    modifies stream, dest
    ensures stream.Moved()
    ensures ok <==> Decode(t.desc, old(stream.Rest())).Some?
    ensures ok ==> dest.m == Decode(t.desc, old(stream.Rest())).value
  {
    ok := DecodeInner(stream, t, dest, false, false);
  }
}
