/** How the decoder takes the pieces that an encoder writes. */
module FieldSteps {
  import opened Wire
  import opened Schema
  import opened DecodeSpec
  import Varints

  lemma PayloadOfDelimited(p: seq<byte>, y: seq<byte>)
    requires |p| < TWO32
    ensures Payload(Delimited(p) + y) == Ok(p, y)
  {
    assert Delimited(p) + y == VarintBytes(|p|) + (p + y);
    Varints.Varint32OfBytes(|p|, p + y);
    assert (p + y)[..|p|] == p && (p + y)[|p|..] == y;
  }

  /** A payload whose length is misread: it ends after the low 32 bits of its length, and what
      is left of it is taken for what follows. */
  lemma MisreadPayload(p: seq<byte>, y: seq<byte>)
    requires Varints.MisreadLength(|p|)
    ensures var n := |p| % TWO32; Payload(Delimited(p) + y) == Ok(p[..n], p[n..] + y)
  {
    var n, s := |p| % TWO32, VarintBytes(|p|) + (p + y);
    assert Delimited(p) + y == s;
    Varints.LongLength(|p|, p + y);
    RawOfBytes(|p|, p + y);
    Varints.Varint32Exact(s);
    Varints.Varint32Agrees(s);
    assert (p + y)[..n] == p[..n] && (p + y)[n..] == p[n..] + y;
  }

  /** So the field gets what the front of its payload decodes to, and the decoder goes on with
      the rest of the payload, as if it belonged to the message outside. */
  lemma MisreadValue(f: Field, prior: Value, p: seq<byte>, y: seq<byte>)
    requires ValidKind(f.kind, f.dataSize) && !Packable(f.kind) && Varints.MisreadLength(|p|)
    ensures var n := |p| % TWO32;
            DecodeBasic(f, WT_STRING, prior, Delimited(p) + y)
            == match DecodePayload(f, prior, p[..n])
               case None => Fail
               case Some(v) => Ok(v, p[n..] + y)
  {
    MisreadPayload(p, y);
  }

  /** The outcome of decoding field i, once its tag is known */
  function FieldStep(d: MsgDesc, st: State, i: nat, wt: nat, s: seq<byte>): StepResult
    requires Shaped(d, st.m) && i < |d.fields|
  {
    match ApplyField(d, st.m, i, wt, s)
    case Fail => Bad
    case Ok(m, rest) => Next(State(m, Seen(d, st.seen, i)), rest)
  }

  /** A declared tag selects its field. */
  lemma KnownStep(d: MsgDesc, st: State, i: nat, wt: nat, s: seq<byte>)
    requires ValidDesc(d) && Shaped(d, st.m) && i < |d.fields| && wt < 8
    ensures Step(d, st, TagBytes(d.fields[i].tag, wt) + s) == FieldStep(d, st, i, wt, s)
  {
    var v := 8 * d.fields[i].tag + wt;
    Varints.Varint32OfBytes(v, s);
    FindTagUnique(d, i);
    assert v / 8 == d.fields[i].tag && v % 8 == wt;
  }

  lemma LoopStep(d: MsgDesc, st: State, s: seq<byte>, nullTerm: bool)
    requires Shaped(d, st.m) && s != []
    ensures Loop(d, st, s, nullTerm)
            == match Step(d, st, s)
               case Bad => Fail
               case ZeroTag(rest) => if nullTerm then Ok(st, rest) else Fail
               case Next(next, rest) => Loop(d, next, rest, nullTerm)
  {
  }

  /** A run that starts with field i goes on behind it. */
  lemma LoopField(d: MsgDesc, st: State, i: nat, s: seq<byte>, content: seq<byte>, nullTerm: bool)
    requires Shaped(d, st.m) && s != [] && i < |d.fields|
    requires Step(d, st, s) == FieldStep(d, st, i, WireType(d.fields[i].kind), content)
    ensures Loop(d, st, s, nullTerm)
            == match ApplyField(d, st.m, i, WireType(d.fields[i].kind), content)
               case Fail => Fail
               case Ok(m, rest) => Loop(d, State(m, Seen(d, st.seen, i)), rest, nullTerm)
  {
  }
}
