/** Every parser of the decoder depends on the bytes it consumes and on nothing behind them:
    with anything else behind those bytes it yields the same and leaves that. */
module Locality {
  import opened Wire
  import opened Schema
  import opened Numbers
  import opened DecodeSpec

  /** How many bytes of s have been consumed if rest is left */
  function Used(s: seq<byte>, rest: seq<byte>): int {
    |s| - |rest|
  }

  lemma SplitAt(s: seq<byte>, n: nat, t: seq<byte>)
    requires n <= |s|
    ensures s + t == s[..n] + (s[n..] + t)
  {
  }

  lemma SplitLater(s: seq<byte>, n: nat, k: nat)
    requires n + k <= |s|
    ensures s[..n + k] == s[..n] + s[n..][..k] && s[n + k..] == s[n..][k..]
  {
  }

  /** Two parsers one after the other: the first leaves s1, the second leaves rest. */
  lemma Stages(s: seq<byte>, s1: seq<byte>, rest: seq<byte>, y: seq<byte>)
    requires |rest| <= |s1| <= |s|
    requires s[Used(s, s1)..] == s1 && s1[Used(s1, rest)..] == rest
    ensures s[Used(s, rest)..] == rest
    ensures s[..Used(s, rest)] + y == s[..Used(s, s1)] + (s1[..Used(s1, rest)] + y)
  {
    var n1, k := Used(s, s1), Used(s1, rest);
    assert s[..n1 + k] == s[..n1] + s[n1..][..k];
  }

  lemma {:induction false} RawLocal(s: seq<byte>, y: seq<byte>)
    ensures RawVarint(s).Ok? ==>
              var n := Used(s, RawVarint(s).rest);
              s[n..] == RawVarint(s).rest && RawVarint(s[..n] + y) == Ok(RawVarint(s).value, y)
  {
    if RawVarint(s).Ok? {
      var n := Used(s, RawVarint(s).rest);
      if s[0] >= 128 {
        RawLocal(s[1..], y);
        assert (s[..n] + y)[1..] == s[1..][..n - 1] + y;
      } else {
        assert s[..1] + y == [s[0]] + y && ([s[0]] + y)[1..] == y;
      }
    }
  }

  lemma Varint64Local(s: seq<byte>, y: seq<byte>)
    ensures Varint64(s).Ok? ==>
              var n := Used(s, Varint64(s).rest);
              s[n..] == Varint64(s).rest && Varint64(s[..n] + y) == Ok(Varint64(s).value, y)
  {
    RawLocal(s, y);
  }

  lemma Varint32Local(s: seq<byte>, y: seq<byte>)
    ensures Varint32(s).Ok? ==>
              var n := Used(s, Varint32(s).rest);
              s[n..] == Varint32(s).rest && Varint32(s[..n] + y) == Ok(Varint32(s).value, y)
  {
    RawLocal(s, y);
    if RawVarint(s).Ok? {
      var n := Used(s, RawVarint(s).rest);
      forall i | 0 <= i < n ensures (s[..n] + y)[i] == s[i] { }
    }
  }

  lemma TakeLocal(s: seq<byte>, n: nat, y: seq<byte>)
    requires n <= |s|
    ensures Take(s[..n] + y, n) == Ok(s[..n], y)
  {
    assert (s[..n] + y)[..n] == s[..n] && (s[..n] + y)[n..] == y;
  }

  lemma PayloadLocal(s: seq<byte>, y: seq<byte>)
    ensures Payload(s).Ok? ==>
              var n := Used(s, Payload(s).rest);
              s[n..] == Payload(s).rest && Payload(s[..n] + y) == Ok(Payload(s).value, y)
  {
    if Payload(s).Ok? {
      var k, s1 := Varint32(s).value, Varint32(s).rest;
      Varint32Local(s, s1[..k] + y);
      TakeLocal(s1, k, y);
      Stages(s, s1, Payload(s).rest, y);
    }
  }

  lemma SkipFieldLocal(wt: nat, s: seq<byte>, y: seq<byte>)
    ensures SkipField(wt, s).Ok? ==>
              var n := Used(s, SkipField(wt, s).rest);
              s[n..] == SkipField(wt, s).rest && SkipField(wt, s[..n] + y) == Ok((), y)
  {
    RawLocal(s, y);
    PayloadLocal(s, y);
    if |s| >= 4 { TakeLocal(s, 4, y); }
    if |s| >= 8 { TakeLocal(s, 8, y); }
  }

  lemma NumLocal(k: Kind, size: nat, s: seq<byte>, y: seq<byte>)
    requires Packable(k) && ValidKind(k, size)
    ensures var r := DecodeNum(k, size, s);
            r.Ok? ==>
              var n := Used(s, r.rest);
              s[n..] == r.rest && DecodeNum(k, size, s[..n] + y) == Ok(r.value, y)
  {
    Varint32Local(s, y);
    Varint64Local(s, y);
    if |s| >= 4 { TakeLocal(s, 4, y); }
    if |s| >= 8 { TakeLocal(s, 8, y); }
  }

  lemma BasicLocal(f: Field, wt: nat, v: Value, s: seq<byte>, y: seq<byte>)
    ensures var r := DecodeBasic(f, wt, v, s);
            r.Ok? ==>
              var n := Used(s, r.rest);
              s[n..] == r.rest && DecodeBasic(f, wt, v, s[..n] + y) == Ok(r.value, y)
  {
    PayloadLocal(s, y);
    if Packable(f.kind) && ValidKind(f.kind, f.dataSize) { NumLocal(f.kind, f.dataSize, s, y); }
  }

  lemma RepeatedLocal(f: Field, vs: seq<Value>, wt: nat, s: seq<byte>, y: seq<byte>)
    ensures var r := ApplyRepeated(f, vs, wt, s);
            r.Ok? ==>
              var n := Used(s, r.rest);
              s[n..] == r.rest && ApplyRepeated(f, vs, wt, s[..n] + y) == Ok(r.value, y)
  {
    PayloadLocal(s, y);
    BasicLocal(f, wt, DefaultValue(f), s, y);
  }

  lemma FieldLocal(d: MsgDesc, m: Msg, i: nat, wt: nat, s: seq<byte>, y: seq<byte>)
    requires Shaped(d, m) && i < |d.fields|
    ensures var r := ApplyField(d, m, i, wt, s);
            r.Ok? ==>
              var n := Used(s, r.rest);
              s[n..] == r.rest && ApplyField(d, m, i, wt, s[..n] + y) == Ok(r.value, y)
  {
    var f := d.fields[i];
    match f.rule
    case Repeated => RepeatedLocal(f, ItemsIn(m.slots[i]), wt, s, y);
    case Oneof(u) => if u < d.unions { BasicLocal(f, wt, HeldInUnion(f, m.unions[u]), s, y); }
    case _ => BasicLocal(f, wt, Held(f, m.slots[i]), s, y);
  }

  /** What follows a nonzero tag: the value of a declared field, or an unknown field */
  lemma AfterTagLocal(d: MsgDesc, st: State, wt: nat, tag: nat, s: seq<byte>, y: seq<byte>)
    requires Shaped(d, st.m)
    ensures var r := AfterTag(d, st, wt, tag, s);
            r.Next? ==>
              var n := Used(s, r.rest);
              0 <= n && s[n..] == r.rest && AfterTag(d, st, wt, tag, s[..n] + y) == Next(r.st, y)
  {
    var i := FindTag(d.fields, tag);
    if i.Some? { FieldLocal(d, st.m, i.value, wt, s, y); } else { SkipFieldLocal(wt, s, y); }
  }

  lemma NextStepLocal(d: MsgDesc, st: State, s: seq<byte>, y: seq<byte>)
    requires Shaped(d, st.m) && Step(d, st, s).Next?
    ensures var r := Step(d, st, s);
            var n := Used(s, r.rest);
            s[n..] == r.rest && Step(d, st, s[..n] + y) == Next(r.st, y)
  {
    var v, s1, rest := Varint32(s).value, Varint32(s).rest, Step(d, st, s).rest;
    var c := s1[..Used(s1, rest)] + y;
    StepAfterTag(d, st, s);
    AfterTagLocal(d, st, v % 8, v / 8, s1, y);
    Varint32Local(s, c);
    Stages(s, s1, rest, y);
    StepAfterTag(d, st, s[..Used(s, s1)] + c);
  }

  /** One step of the field loop */
  lemma StepLocal(d: MsgDesc, st: State, s: seq<byte>, y: seq<byte>)
    requires Shaped(d, st.m) && !Step(d, st, s).Bad?
    ensures var r := Step(d, st, s);
            var n := Used(s, r.rest);
            && s[n..] == r.rest
            && Step(d, st, s[..n] + y) == if r.Next? then Next(r.st, y) else ZeroTag(y)
  {
    if Step(d, st, s).Next? { NextStepLocal(d, st, s, y); } else { Varint32Local(s, y); }
  }

  /** What a parser makes of a string it also makes of a longer one. */
  lemma StepExtend(d: MsgDesc, st: State, s: seq<byte>, t: seq<byte>)
    requires Shaped(d, st.m)
    ensures var r := Step(d, st, s);
            && (r.Next? ==> Step(d, st, s + t) == Next(r.st, r.rest + t))
            && (r.ZeroTag? ==> Step(d, st, s + t) == ZeroTag(r.rest + t))
  {
    var r := Step(d, st, s);
    if !r.Bad? {
      StepLocal(d, st, s, r.rest + t);
      SplitAt(s, Used(s, r.rest), t);
    }
  }
}
