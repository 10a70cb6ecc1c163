/** Decoding the concatenation of two byte strings is decoding the second into what the first
    decoded to ("Last One Wins"). */
module Concatenation {
  import opened Wire
  import opened Schema
  import opened DecodeSpec
  import opened Locality

  /** Without null termination a successful run uses up its input. */
  lemma {:induction false} LoopUsesAll(d: MsgDesc, st: State, s: seq<byte>)
    requires Shaped(d, st.m)
    ensures Loop(d, st, s, false).Ok? ==> Loop(d, st, s, false).rest == []
    decreases |s|
  {
    if s != [] && Step(d, st, s).Next? {
      LoopUsesAll(d, Step(d, st, s).st, Step(d, st, s).rest);
    }
  }

  /** A run over x ++ y is a run over x followed by a run over y. */
  lemma {:induction false} LoopConcat(d: MsgDesc, st: State, x: seq<byte>, y: seq<byte>, nullTerm: bool)
    requires Shaped(d, st.m)
    requires Loop(d, st, x, false).Ok?
    ensures Loop(d, st, x + y, nullTerm) == Loop(d, Loop(d, st, x, false).value, y, nullTerm)
    decreases |x|
  {
    if x == [] {
      assert x + y == y;
    } else {
      StepExtend(d, st, x, y);
      var r := Step(d, st, x);
      LoopConcat(d, r.st, r.rest, y, nullTerm);
    }
  }

  lemma StepSeen(d: MsgDesc, m: Msg, seen: set<nat>, s: seq<byte>, before: set<nat>)
    requires Shaped(d, m)
    ensures var r := Step(d, State(m, seen), s);
            Step(d, State(m, before + seen), s) ==
            if r.Next? then Next(State(r.st.m, before + r.st.seen), r.rest) else r
  {
    var r := Step(d, State(m, seen), s);
    if r.Next? {
      var tag := Varint32(s).value / 8;
      var i := FindTag(d.fields, tag);
      if i.Some? {
        assert before + seen + {i.value} == before + (seen + {i.value});
      }
    }
  }

  /** What a run makes of the message does not depend on the required fields seen before. */
  lemma {:induction false} LoopSeen(d: MsgDesc, m: Msg, seen: set<nat>, s: seq<byte>, nullTerm: bool, before: set<nat>)
    requires Shaped(d, m)
    ensures var r := Loop(d, State(m, seen), s, nullTerm);
            Loop(d, State(m, before + seen), s, nullTerm) ==
            (if r.Ok? then Ok(State(r.value.m, before + r.value.seen), r.rest) else Fail)
    decreases |s|
  {
    if s != [] {
      var st, st' := State(m, seen), State(m, before + seen);
      StepSeen(d, m, seen, s, before);
      var r := Step(d, st, s);
      if r.Next? {
        LoopSeen(d, r.st.m, r.st.seen, r.rest, nullTerm, before);
      }
    }
  }

  /** If x decodes into m, and y into the result of that, then x ++ y decodes into m with
      the result of the second. */
  lemma ConcatenationIsMerge(d: MsgDesc, m: Msg, x: seq<byte>, y: seq<byte>)
    requires Shaped(d, m)
    requires DecodeInto(d, m, x).Some?
    requires DecodeInto(d, DecodeInto(d, m, x).value, y).Some?
    ensures DecodeInto(d, m, x + y) == DecodeInto(d, DecodeInto(d, m, x).value, y)
    ensures DecodeInner(d, m, x + y, false).rest == []
  {
    LoopUsesAll(d, State(m, {}), x + y);
    var stx := Loop(d, State(m, {}), x, false).value;
    LoopConcat(d, State(m, {}), x, y, false);
    LoopSeen(d, stx.m, {}, y, false, stx.seen);
    assert stx.seen + {} == stx.seen;
    var sty := Loop(d, State(stx.m, {}), y, false).value;
    assert RequiredSeen(d, sty.seen);
    assert RequiredSeen(d, stx.seen + sty.seen);
  }
}
