/** What the decoder accepts and what it refuses, on any bytes: wire types, lengths, zero tags
    and unknown fields, with all constants written out. */
module Acceptance {
  import opened Wire
  import opened Schema
  import opened Numbers
  import opened DecodeSpec
  import opened Locality

  //
  // Wire types
  //

  /** The wire type of a field's values, as section "Message Structure" of the Encoding guide
      numbers them */
  function GuideWireType(k: Kind): nat {
    match k
    case Bool | Varint | UVarint | SVarint => 0
    case Fixed64 => 1
    case Bytes | String | Submessage(_) | FixedLengthBytes => 2
    case Fixed32 => 5
  }

  lemma ValueRefused(f: Field, wt: nat, prior: Value, s: seq<byte>)
    requires wt != GuideWireType(f.kind)
    ensures DecodeBasic(f, wt, prior, s) == Fail
  {
  }

  /** A field under any other wire type is refused, except a packed run of numbers. */
  lemma WrongWireType(d: MsgDesc, m: Msg, i: nat, wt: nat, s: seq<byte>)
    requires Shaped(d, m) && i < |d.fields| && wt != GuideWireType(d.fields[i].kind)
    requires !(wt == 2 && d.fields[i].rule.Repeated? && Packable(d.fields[i].kind))
    ensures ApplyField(d, m, i, wt, s) == Fail
  {
    var f := d.fields[i];
    match f.rule
    case Repeated => ValueRefused(f, wt, DefaultValue(f), s);
    case Oneof(u) => if u < d.unions { ValueRefused(f, wt, HeldInUnion(f, m.unions[u]), s); }
    case _ => ValueRefused(f, wt, Held(f, m.slots[i]), s);
  }

  /** And so is the whole message, wherever the field stands. */
  lemma WrongWireTypeRefused(d: MsgDesc, st: State, i: nat, s: seq<byte>, nullTerm: bool)
    requires ValidDesc(d) && Shaped(d, st.m) && i < |d.fields|
    requires Varint32(s).Ok? && Varint32(s).value / 8 == d.fields[i].tag
    requires var wt := Varint32(s).value % 8;
             && wt != GuideWireType(d.fields[i].kind)
             && !(wt == 2 && d.fields[i].rule.Repeated? && Packable(d.fields[i].kind))
    ensures Loop(d, st, s, nullTerm) == Fail
  {
    FindTagUnique(d, i);
    WrongWireType(d, st.m, i, Varint32(s).value % 8, Varint32(s).rest);
    assert Step(d, st, s) == Bad;
  }

  //
  // Unknown fields
  //

  /** c is a complete value of the wire type: a varint of any length, eight bytes, a length and as
      many bytes, or four bytes. There is none of any other wire type. */
  predicate IsContent(wt: nat, c: seq<byte>) {
    match wt
    case 0 => c != [] && c[|c| - 1] < 128 && forall k :: 0 <= k < |c| - 1 ==> c[k] >= 128
    case 1 => |c| == 8
    case 2 => Varint32(c).Ok? && |Varint32(c).rest| == Varint32(c).value
    case 5 => |c| == 4
    case _ => false
  }

  /** A varint ends with its first byte below 128. */
  lemma {:induction false} VarintEnds(c: seq<byte>, rest: seq<byte>)
    requires IsContent(0, c)
    ensures RawVarint(c + rest).Ok? && RawVarint(c + rest).rest == rest
  {
    assert (c + rest)[0] == c[0] && (c + rest)[1..] == c[1..] + rest;
    if |c| > 1 {
      assert c[1..][|c| - 2] == c[|c| - 1];
      forall k | 0 <= k < |c| - 2 ensures c[1..][k] >= 128 { }
      VarintEnds(c[1..], rest);
    }
  }

  lemma {:induction false} VarintIsContent(s: seq<byte>)
    requires RawVarint(s).Ok?
    ensures IsContent(0, s[..Used(s, RawVarint(s).rest)])
  {
    var c := s[..Used(s, RawVarint(s).rest)];
    forall k | 0 <= k < |c| ensures c[k] >= 128 <==> k < |c| - 1 { RawDigits(s, k); }
  }

  lemma PayloadIs(c: seq<byte>, rest: seq<byte>)
    requires IsContent(2, c)
    ensures Payload(c + rest) == Ok(Varint32(c).rest, rest)
  {
    var p := Varint32(c).rest;
    var n := Used(c, p);
    Varint32Local(c, p + rest);
    assert c + rest == c[..n] + (p + rest);
    assert (p + rest)[..|p|] == p && (p + rest)[|p|..] == rest;
  }

  lemma ContentOfPayload(s: seq<byte>)
    requires Payload(s).Ok?
    ensures IsContent(2, s[..Used(s, Payload(s).rest)])
  {
    var k, s1 := Varint32(s).value, Varint32(s).rest;
    Varint32Local(s, s1[..k]);
    Stages(s, s1, Payload(s).rest, []);
    var c := s[..Used(s, Payload(s).rest)];
    assert c + [] == c && s1[..k] + [] == s1[..k];
  }

  lemma SkippedPrefix(wt: nat, s: seq<byte>)
    requires SkipField(wt, s).Ok?
    ensures s == s[..Used(s, SkipField(wt, s).rest)] + SkipField(wt, s).rest
  {
    SkipFieldLocal(wt, s, []);
  }

  lemma ContentConsumed(wt: nat, s: seq<byte>)
    requires SkipField(wt, s).Ok?
    ensures var rest := SkipField(wt, s).rest;
            var c := s[..Used(s, rest)];
            IsContent(wt, c) && s == c + rest
  {
    SkippedPrefix(wt, s);
    if wt == 0 {
      VarintIsContent(s);
    } else if wt == 2 {
      ContentOfPayload(s);
    }
  }

  lemma ContentSkipped(wt: nat, c: seq<byte>, rest: seq<byte>)
    requires IsContent(wt, c)
    ensures SkipField(wt, c + rest) == Ok((), rest)
  {
    if wt == 0 {
      VarintEnds(c, rest);
    } else if wt == 2 {
      PayloadIs(c, rest);
    } else {
      assert (c + rest)[|c|..] == rest;
    }
  }

  /** Skipping consumes exactly one complete value. */
  lemma SkippedExactly(wt: nat, s: seq<byte>, rest: seq<byte>)
    ensures SkipField(wt, s) == Ok((), rest) <==> exists c :: IsContent(wt, c) && s == c + rest
  {
    if SkipField(wt, s) == Ok((), rest) { ContentConsumed(wt, s); }
    if c :| IsContent(wt, c) && s == c + rest { ContentSkipped(wt, c, rest); }
  }

  /** Other wire types cannot be skipped: the whole message is refused. */
  lemma OtherWireTypes(wt: nat, s: seq<byte>)
    requires wt != 0 && wt != 1 && wt != 2 && wt != 5
    ensures SkipField(wt, s) == Fail
  {
  }

  lemma OtherWireTypesRefused(d: MsgDesc, st: State, s: seq<byte>, nullTerm: bool)
    requires Shaped(d, st.m) && Varint32(s).Ok?
    requires var tag, wt := Varint32(s).value / 8, Varint32(s).value % 8;
             && tag > 0 && FindTag(d.fields, tag).None?
             && wt != 0 && wt != 1 && wt != 2 && wt != 5
    ensures Loop(d, st, s, nullTerm) == Fail
  {
    OtherWireTypes(Varint32(s).value % 8, Varint32(s).rest);
    assert Step(d, st, s) == Bad;
  }

  //
  // Payloads
  //

  /** A payload is cut out by its length, a 32-bit varint, and refused if there is less. */
  lemma PayloadExactly(s: seq<byte>, p: seq<byte>, rest: seq<byte>)
    ensures Payload(s) == Ok(p, rest)
            <==> Varint32(s).Ok? && |p| == Varint32(s).value && Varint32(s).rest == p + rest
  {
    if Varint32(s).Ok? && Varint32(s).rest == p + rest && |p| == Varint32(s).value {
      assert (p + rest)[..|p|] == p && (p + rest)[|p|..] == rest;
    }
  }

  /** The C string in a payload ends before its first NUL. */
  lemma {:induction false} StringEnds(a: seq<byte>, b: seq<byte>)
    requires 0 !in a
    ensures UpToNul(a) == a && UpToNul(a + [0] + b) == a
  {
    if a != [] {
      StringEnds(a[1..], b);
      assert (a + [0] + b)[1..] == a[1..] + [0] + b;
      assert a == [a[0]] + a[1..];
    }
  }

  /** Byte arrays take at most two bytes less than their field, for the size; strings one byte
      less, for the NUL, and end at the first NUL they contain; arrays of fixed length take
      exactly that, or nothing, which stands for zeros. */
  lemma TextAccepted(f: Field, prior: Value, p: seq<byte>)
    ensures f.kind.Bytes? ==> DecodePayload(f, prior, p) == if |p| + 2 <= f.dataSize then Some(Str(p)) else None
    ensures f.kind.String? ==> (DecodePayload(f, prior, p).Some? <==> |p| < f.dataSize)
    ensures f.kind.String? && 0 !in p && |p| < f.dataSize ==> DecodePayload(f, prior, p) == Some(Str(p))
    ensures f.kind.FixedLengthBytes? && p != [] ==>
              DecodePayload(f, prior, p) == if |p| == f.dataSize then Some(Str(p)) else None
    ensures f.kind.FixedLengthBytes? && p == [] ==>
              var v := DecodePayload(f, prior, p);
              && v.Some? && v.value.Str? && |v.value.s| == f.dataSize
              && forall k :: 0 <= k < f.dataSize ==> v.value.s[k] == 0
  {
    if 0 !in p { StringEnds(p, []); }
  }

  /** A string with a NUL in it counts in full, and keeps what stands before the NUL. */
  lemma TextWithNul(f: Field, prior: Value, a: seq<byte>, b: seq<byte>)
    requires f.kind.String? && 0 !in a && |a| + 1 + |b| < f.dataSize
    ensures DecodePayload(f, prior, a + [0] + b) == Some(Str(a))
  {
    StringEnds(a, b);
  }

  /** A submessage is decoded like a message: on top of what the field held, with all its
      payload, its own required fields, and no zero tag in it. */
  lemma SubmessageAccepted(f: Field, prior: Value, p: seq<byte>)
    requires f.kind.Submessage?
    ensures var desc := f.kind.desc;
            var base := if prior.Sub? && Shaped(desc, prior.m) then prior.m else DefaultMsg(desc);
            DecodePayload(f, prior, p)
            == match DecodeInto(desc, base, p) case None => None case Some(m) => Some(Sub(m))
  {
  }

  /** Every size that a C field may have is taken: the payload alone decides. */
  lemma PayloadDecides(f: Field, prior: Value, s: seq<byte>, p: seq<byte>, rest: seq<byte>)
    requires Payload(s) == Ok(p, rest) && f.dataSize < 0x1_0000
    requires match f.kind
             case Bytes => f.dataSize >= 2
             case String => f.dataSize >= 1
             case FixedLengthBytes => true
             case Submessage(desc) => ValidDesc(desc)
             case _ => false
    ensures DecodeBasic(f, 2, prior, s)
            == match DecodePayload(f, prior, p) case None => Fail case Some(v) => Ok(v, rest)
  {
  }

  //
  // Zero tags
  //

  /** A number below 8 is a zero tag, whatever its wire type: it ends a null-terminated message
      and spoils any other. */
  lemma ZeroTags(d: MsgDesc, st: State, b: byte, y: seq<byte>)
    requires Shaped(d, st.m) && b < 8
    ensures Loop(d, st, [b] + y, true) == Ok(st, y)
    ensures Loop(d, st, [b] + y, false) == Fail
  {
    var s := [b] + y;
    assert s[0] == b && s[1..] == y;
    assert RawVarint(s) == Ok(b, y) && Narrow(s, 1);
    assert Step(d, st, s) == ZeroTag(y);
  }

  //
  // Packed runs
  //

  /** The numbers of a run, each with exactly the bytes it is read from */
  function RunBytes(ps: seq<seq<byte>>): seq<byte> {
    if ps == [] then [] else ps[0] + RunBytes(ps[1..])
  }

  predicate OneNumber(f: Field, v: Value, c: seq<byte>)
    requires Packable(f.kind) && ValidKind(f.kind, f.dataSize)
  {
    v.Num? && DecodeNum(f.kind, f.dataSize, c) == Ok(v.n, [])
  }

  predicate AreNumbers(f: Field, vs: seq<Value>, ps: seq<seq<byte>>)
    requires Packable(f.kind) && ValidKind(f.kind, f.dataSize)
  {
    |vs| == |ps| && (ps == [] || (OneNumber(f, vs[0], ps[0]) && AreNumbers(f, vs[1..], ps[1..])))
  }

  lemma OneMoreNumber(f: Field, v: Value, c: seq<byte>, ws: seq<Value>, ps: seq<seq<byte>>)
    requires Packable(f.kind) && ValidKind(f.kind, f.dataSize) && OneNumber(f, v, c) && AreNumbers(f, ws, ps)
    ensures AreNumbers(f, [v] + ws, [c] + ps) && RunBytes([c] + ps) == c + RunBytes(ps)
  {
    assert ([c] + ps)[1..] == ps && ([v] + ws)[1..] == ws;
  }

  lemma AppendOne(vs: seq<Value>, v: Value, ws: seq<Value>)
    ensures (vs + [v]) + ws == vs + ([v] + ws)
  {
  }

  lemma NumberInFront(f: Field, v: Value, c: seq<byte>, rest: seq<byte>)
    requires Packable(f.kind) && ValidKind(f.kind, f.dataSize) && OneNumber(f, v, c)
    ensures c + rest != [] && DecodeNum(f.kind, f.dataSize, c + rest) == Ok(v.n, rest)
  {
    NumLocal(f.kind, f.dataSize, c, rest);
    assert c[..|c|] == c;
  }

  lemma OneNumberFirst(f: Field, vs: seq<Value>, v: Value, c: seq<byte>, rest: seq<byte>)
    requires Packable(f.kind) && ValidKind(f.kind, f.dataSize) && OneNumber(f, v, c)
    ensures DecodePacked(f, vs, c + rest) == if |vs| < f.arraySize then DecodePacked(f, vs + [v], rest) else None
  {
    NumberInFront(f, v, c, rest);
  }

  lemma FirstOfRun(f: Field, vs: seq<Value>, p: seq<byte>)
    requires Packable(f.kind) && ValidKind(f.kind, f.dataSize) && p != [] && DecodePacked(f, vs, p).Some?
    ensures var r := DecodeNum(f.kind, f.dataSize, p);
            && r.Ok? && |vs| < f.arraySize
            && DecodePacked(f, vs, p) == DecodePacked(f, vs + [Num(r.value)], r.rest)
            && OneNumber(f, Num(r.value), p[..Used(p, r.rest)]) && p == p[..Used(p, r.rest)] + r.rest
  {
    var r := DecodeNum(f.kind, f.dataSize, p);
    var c := p[..Used(p, r.rest)];
    NumLocal(f.kind, f.dataSize, p, []);
    assert c + [] == c && p == c + r.rest;
  }

  /** A run that is accepted consists of complete numbers, and there is room for them. */
  lemma {:induction false} RunIsNumbers(f: Field, vs: seq<Value>, p: seq<byte>)
    returns (ws: seq<Value>, ps: seq<seq<byte>>)
    requires Packable(f.kind) && ValidKind(f.kind, f.dataSize) && DecodePacked(f, vs, p).Some?
    ensures AreNumbers(f, ws, ps) && RunBytes(ps) == p && DecodePacked(f, vs, p) == Some(vs + ws)
    ensures ws == [] || |vs| + |ws| <= f.arraySize
    decreases |p|
  {
    if p == [] {
      ws, ps := [], [];
      assert vs + [] == vs;
    } else {
      var r := DecodeNum(f.kind, f.dataSize, p);
      var v, c := Num(r.value), p[..Used(p, r.rest)];
      FirstOfRun(f, vs, p);
      var ws', ps' := RunIsNumbers(f, vs + [v], r.rest);
      ws, ps := [v] + ws', [c] + ps';
      OneMoreNumber(f, v, c, ws', ps');
      AppendOne(vs, v, ws');
    }
  }

  /** And every such run is accepted, with the numbers appended in order. */
  lemma {:induction false} NumbersAreRun(f: Field, vs: seq<Value>, ws: seq<Value>, ps: seq<seq<byte>>)
    requires Packable(f.kind) && ValidKind(f.kind, f.dataSize) && AreNumbers(f, ws, ps)
    ensures DecodePacked(f, vs, RunBytes(ps)) == if ws == [] || |vs| + |ws| <= f.arraySize then Some(vs + ws) else None
    decreases |ps|
  {
    if ps == [] {
      assert vs + [] == vs;
    } else {
      var v, c := ws[0], ps[0];
      OneNumberFirst(f, vs, v, c, RunBytes(ps[1..]));
      NumbersAreRun(f, vs + [v], ws[1..], ps[1..]);
      AppendOne(vs, v, ws[1..]);
      assert [v] + ws[1..] == ws;
    }
  }

  /** So exactly these runs are accepted. */
  lemma RunExactly(f: Field, vs: seq<Value>, p: seq<byte>, r: seq<Value>)
    requires Packable(f.kind) && ValidKind(f.kind, f.dataSize)
    ensures DecodePacked(f, vs, p) == Some(r)
            <==> exists ws, ps ::
                   AreNumbers(f, ws, ps) && RunBytes(ps) == p && r == vs + ws
                   && (ws == [] || |vs| + |ws| <= f.arraySize)
  {
    if DecodePacked(f, vs, p) == Some(r) {
      var ws, ps := RunIsNumbers(f, vs, p);
    }
    if ws, ps :| AreNumbers(f, ws, ps) && RunBytes(ps) == p && r == vs + ws
                 && (ws == [] || |vs| + |ws| <= f.arraySize) {
      NumbersAreRun(f, vs, ws, ps);
    }
  }

  //
  // What decoding builds on
  //

  /** A oneof that switches to another member starts afresh: nothing of the old one matters. */
  lemma FreshMember(d: MsgDesc, m: Msg, i: nat, u: nat, un: Union, wt: nat, s: seq<byte>)
    requires Shaped(d, m) && i < |d.fields| && u < d.unions && d.fields[i].rule == Oneof(u)
    requires m.unions[u].which != d.fields[i].tag && un.which != d.fields[i].tag
    ensures ApplyField(d, m, i, wt, s) == ApplyField(d, m.(unions := m.unions[u := un]), i, wt, s)
  {
    var r := DecodeBasic(d.fields[i], wt, DefaultValue(d.fields[i]), s);
    if r.Ok? {
      var x := Union(d.fields[i].tag, r.value);
      assert m.unions[u := un][u := x] == m.unions[u := x];
    }
  }

  /** An array element starts afresh too: it is appended as it would be to an empty array. */
  lemma FreshElement(f: Field, vs: seq<Value>, wt: nat, s: seq<byte>)
    requires |vs| < f.arraySize && !(wt == 2 && Packable(f.kind))
    ensures var r := ApplyRepeated(f, [], wt, s);
            ApplyRepeated(f, vs, wt, s) == if r.Ok? then Ok(vs + r.value, r.rest) else Fail
  {
    var r := DecodeBasic(f, wt, DefaultValue(f), s);
    if r.Ok? { assert [] + [r.value] == [r.value]; }
  }

  /** The has-flag is set without being looked at. */
  lemma FlagIgnored(d: MsgDesc, m: Msg, i: nat, has: bool, wt: nat, s: seq<byte>)
    requires Shaped(d, m) && i < |d.fields| && d.fields[i].rule.Optional? && m.slots[i].Flagged?
    ensures ApplyField(d, m, i, wt, s) == ApplyField(d, m.(slots := m.slots[i := Flagged(has, m.slots[i].v)]), i, wt, s)
  {
    var v := m.slots[i].v;
    var r := DecodeBasic(d.fields[i], wt, v, s);
    if r.Ok? {
      var x := Flagged(true, r.value);
      assert m.slots[i := Flagged(has, v)][i := x] == m.slots[i := x];
    }
  }

  /** Without NOINIT the message is decoded as into any other one: what it held is gone. */
  lemma ResetFirst(d: MsgDesc, m: Msg, n: Msg, s: seq<byte>, nullTerm: bool)
    requires Shaped(d, m) && Shaped(d, n)
    ensures Outcome(d, m, false, s, nullTerm) == Outcome(d, n, false, s, nullTerm)
    ensures Outcome(d, m, false, s, nullTerm) == Outcome(d, DefaultMsg(d), true, s, nullTerm)
    ensures Outcome(d, m, true, s, nullTerm) == DecodeInner(d, m, s, nullTerm)
  {
  }

  /** With a length prefix, the message is what the payload alone decodes to under the same
      flags, and what follows the payload is left. */
  lemma DelimitedOutcome(d: MsgDesc, m: Msg, noInit: bool, nullTerm: bool, s: seq<byte>, p: seq<byte>, rest: seq<byte>)
    requires Shaped(d, m) && Payload(s) == Ok(p, rest)
    ensures OutcomeEx(d, m, noInit, true, nullTerm, s)
            == match OutcomeEx(d, m, noInit, false, nullTerm, p) case Fail => Fail case Ok(n, _) => Ok(n, rest)
  {
  }
}
