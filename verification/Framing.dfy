/** Messages written back to back, each with a length prefix or a closing zero tag, are
    recovered one by one, whatever follows. */
module Framing {
  import opened Wire
  import opened Schema
  import opened EncodeSpec
  import opened DecodeSpec
  import opened FieldSteps
  import opened Lengths
  import opened Merge
  import opened RoundTrip
  import opened Concatenation

  /** A message that encodes, and whose nested lengths fit 32 bits */
  predicate Encodable(d: MsgDesc, m: Msg) {
    Typed(d, m) && EncodeMsg(d, m).Some? && Short(d, m)
  }

  /** A length prefix has to fit 32 bits too. */
  predicate Framable(d: MsgDesc, m: Msg, framing: Framing) {
    Encodable(d, m) && (framing.WithLength? ==> |EncodeMsg(d, m).value| < TWO32)
  }

  predicate AllFramable(d: MsgDesc, ms: seq<Msg>, framing: Framing) {
    forall k :: 0 <= k < |ms| ==> Framable(d, ms[k], framing)
  }

  function WriteAll(d: MsgDesc, ms: seq<Msg>, framing: Framing): seq<byte>
    requires AllFramable(d, ms, framing)
  {
    if ms == [] then []
    else
      assert Framable(d, ms[0], framing);
      FramedBytes(d, ms[0], framing).value + WriteAll(d, ms[1..], framing)
  }

  /** n calls of pb_decode_ex with the matching flag */
  function ReadAll(d: MsgDesc, n: nat, framing: Framing, s: seq<byte>): Parsed<seq<Msg>> {
    if n == 0 then Ok([], s)
    else
      match OutcomeEx(d, DefaultMsg(d), false, framing.WithLength?, framing.NullTerminated?, s)
      case Fail => Fail
      case Ok(m, s1) =>
        match ReadAll(d, n - 1, framing, s1)
        case Fail => Fail
        case Ok(ms, rest) => Ok([m] + ms, rest)
  }

  function CanonAll(d: MsgDesc, ms: seq<Msg>): seq<Msg>
    requires forall k :: 0 <= k < |ms| ==> Shaped(d, ms[k])
  {
    if ms == [] then [] else [Canon(d, ms[0])] + CanonAll(d, ms[1..])
  }

  lemma ZeroByte(y: seq<byte>)
    ensures Varint32([0] + y) == Ok(0, y)
  {
    var t := [0] + y;
    assert t[0] == 0 && t[1..] == y;
    assert RawVarint(t) == Ok(0, y);
    assert Narrow(t, 1);
  }

  lemma TerminatedRoundTrip(d: MsgDesc, m: Msg, y: seq<byte>)
    requires ValidDesc(d) && Encodable(d, m)
    ensures DecodeInner(d, DefaultMsg(d), EncodeMsg(d, m).value + ([0] + y), true) == Ok(Canon(d, m), y)
  {
    var t := [0] + y;
    ShortIsReadable(d, m);
    MessageRun(d, m, t, true);
    ZeroByte(y);
  }

  /** One message, followed by anything */
  lemma FrameRecovered(d: MsgDesc, m: Msg, framing: Framing, y: seq<byte>)
    requires ValidDesc(d) && Framable(d, m, framing) && !framing.Plain?
    ensures FramedBytes(d, m, framing).Some?
    ensures OutcomeEx(d, DefaultMsg(d), false, framing.WithLength?, framing.NullTerminated?,
                      FramedBytes(d, m, framing).value + y)
            == Ok(Canon(d, m), y)
  {
    var b := EncodeMsg(d, m).value;
    if framing.WithLength? {
      PayloadOfDelimited(b, y);
      ShortIsReadable(d, m);
      MessageRoundTrip(d, m);
    } else {
      var t := [0] + y;
      assert FramedBytes(d, m, framing).value + y == b + t;
      TerminatedRoundTrip(d, m, y);
    }
  }

  /** A list of framed messages, followed by anything, is read back by as many calls, which
      consume exactly the bytes written. */
  lemma {:induction false} FramingRecovers(d: MsgDesc, ms: seq<Msg>, framing: Framing, y: seq<byte>)
    requires ValidDesc(d) && AllFramable(d, ms, framing) && !framing.Plain?
    ensures forall k :: 0 <= k < |ms| ==> Shaped(d, ms[k])
    ensures ReadAll(d, |ms|, framing, WriteAll(d, ms, framing) + y) == Ok(CanonAll(d, ms), y)
  {
    forall k | 0 <= k < |ms| ensures Shaped(d, ms[k]) {
      assert Framable(d, ms[k], framing);
    }
    if ms == [] {
      assert WriteAll(d, ms, framing) + y == y;
    } else {
      assert Framable(d, ms[0], framing);
      var a, b := FramedBytes(d, ms[0], framing).value, WriteAll(d, ms[1..], framing);
      assert WriteAll(d, ms, framing) + y == a + (b + y);
      FrameRecovered(d, ms[0], framing, b + y);
      FramingRecovers(d, ms[1..], framing, y);
    }
  }

  /** Without framing, bytes behind a message are decoded into it: the outcome is that of a
      run over those bytes alone, from the message on. */
  lemma TrailingBytes(d: MsgDesc, m: Msg, y: seq<byte>)
    requires ValidDesc(d) && Encodable(d, m)
    ensures var r := Loop(d, State(Canon(d, m), {}), y, false);
            Decode(d, EncodeMsg(d, m).value + y) == if r.Ok? then Some(r.value.m) else None
  {
    ShortIsReadable(d, m);
    MessageRun(d, m, y, false);
    var all := SeenFrom(d, {}, 0);
    LoopSeen(d, Canon(d, m), {}, y, false, all);
    assert all + {} == all;
    var r := Loop(d, State(Canon(d, m), {}), y, false);
    if r.Ok? { assert RequiredSeen(d, all + r.value.seen); }
  }

  /** Two encoded messages, one behind the other */
  lemma ConcatenatedEncodings(d: MsgDesc, a: Msg, b: Msg)
    requires ValidDesc(d) && Encodable(d, a)
    requires Typed(d, b) && EncodeMsg(d, b).Some? && Readable(d, b)
    ensures Decode(d, EncodeMsg(d, a).value + EncodeMsg(d, b).value)
            == if Short(d, b) && MsgRoom(d, Canon(d, a), b) then Some(Merged(d, Canon(d, a), b)) else None
  {
    var c, e := Canon(d, a), EncodeMsg(d, b).value;
    TrailingBytes(d, a, e);
    FieldsMerge(d, c, b, 0, {}, [], false);
    MergeEnds(d, c, b);
    assert e + [] == e;
    ArrivesWhenRoom(d, c, b);
  }

  /** A zero byte behind a message ends it with the NULLTERMINATED flag, and is refused without. */
  lemma ZeroBehind(d: MsgDesc, m: Msg, y: seq<byte>)
    requires ValidDesc(d) && Encodable(d, m)
    ensures Decode(d, EncodeMsg(d, m).value + ([0] + y)) == None
    ensures OutcomeEx(d, DefaultMsg(d), false, false, true, EncodeMsg(d, m).value + ([0] + y)) == Ok(Canon(d, m), y)
  {
    TrailingBytes(d, m, [0] + y);
    ZeroByte(y);
    TerminatedRoundTrip(d, m, y);
  }

  /** A message in a buffer that is filled up with n zero bytes is decoded exactly if there are
      none, unless the NULLTERMINATED flag is set. */
  lemma ZeroPadding(d: MsgDesc, m: Msg, n: nat)
    requires ValidDesc(d) && Encodable(d, m)
    ensures Decode(d, EncodeMsg(d, m).value + Zeros(n)) == if n == 0 then Some(Canon(d, m)) else None
    ensures OutcomeEx(d, DefaultMsg(d), false, false, true, EncodeMsg(d, m).value + Zeros(n))
            == Ok(Canon(d, m), Zeros(if n == 0 then 0 else n - 1))
  {
    if n == 0 {
      assert EncodeMsg(d, m).value + Zeros(0) == EncodeMsg(d, m).value + [] == EncodeMsg(d, m).value;
      TrailingBytes(d, m, []);
      ShortIsReadable(d, m);
      MessageRun(d, m, [], true);
      assert Zeros(0) == [];
    } else {
      assert Zeros(n) == [0] + Zeros(n - 1);
      ZeroBehind(d, m, Zeros(n - 1));
    }
  }
}
