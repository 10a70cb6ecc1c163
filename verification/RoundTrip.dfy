/** Decoding what was encoded gives the message back: it is the merge into the default
    message. */
module RoundTrip {
  import opened Wire
  import opened Schema
  import opened EncodeSpec
  import opened DecodeSpec
  import opened MaxSize
  import opened Lengths
  import opened Merge

  /** The decoder's run over an encoded message goes on behind it from the message itself. */
  lemma MessageRun(d: MsgDesc, m: Msg, t: seq<byte>, nullTerm: bool)
    requires ValidDesc(d) && Typed(d, m)
    requires EncodeMsg(d, m).Some? && Readable(d, m)
    ensures Loop(d, State(DefaultMsg(d), {}), EncodeMsg(d, m).value + t, nullTerm)
            == if Short(d, m) then Loop(d, State(Canon(d, m), SeenFrom(d, {}, 0)), t, nullTerm) else Fail
    ensures RequiredSeen(d, SeenFrom(d, {}, 0))
  {
    var a := DefaultMsg(d);
    FieldsMerge(d, a, m, 0, {}, t, nullTerm);
    AllSeen(d, {}, 0);
    MergeEnds(d, a, m);
    MergeOnDefault(d, m);
    ArrivesWhenRoom(d, a, m);
  }

  /** pb_decode inverts pb_encode: for every well-typed message that encodes, the bytes decode
      to the same message, unused parts at their defaults, if its nested lengths fit 32 bits,
      and are refused otherwise, unless one of the lengths is misread. */
  lemma MessageRoundTrip(d: MsgDesc, m: Msg)
    requires ValidDesc(d) && Typed(d, m)
    requires EncodeMsg(d, m).Some? && Readable(d, m)
    ensures DecodeInner(d, DefaultMsg(d), EncodeMsg(d, m).value, false)
            == if Short(d, m) then Ok(Canon(d, m), []) else Fail
    ensures Decode(d, EncodeMsg(d, m).value) == if Short(d, m) then Some(Canon(d, m)) else None
  {
    MergeDecodes(d, DefaultMsg(d), m);
    MergeOnDefault(d, m);
  }

  /** For a type whose maximum size fits 32 bits there is no condition on the message. */
  lemma BoundedRoundTrip(d: MsgDesc, m: Msg)
    requires ValidDesc(d) && Typed(d, m) && MaxEncodedSize(d) < TWO32
    requires EncodeMsg(d, m).Some?
    ensures Decode(d, EncodeMsg(d, m).value) == Some(Canon(d, m))
  {
    BoundedIsShort(d, m);
    MessageRoundTrip(d, m);
  }
}
