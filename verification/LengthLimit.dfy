/** A message that the encoder writes and the decoder refuses: a nested length needs 33 bits. */
module LengthLimit {
  import opened Wire
  import opened Schema
  import opened EncodeSpec
  import opened DecodeSpec
  import opened MaxSize
  import opened MaxAttained
  import opened Lengths
  import opened RoundTrip
  import Varints

  /** As many of the longest strings as a descriptor can declare */
  function Strings(): MsgDesc {
    MsgDesc([Field(1, Repeated, String, 0xFFFF, 0xFFFF)], 0)
  }

  /** A message with one field, a required submessage */
  function Wrapper(desc: MsgDesc): MsgDesc {
    MsgDesc([Field(1, Required, Submessage(desc), 0xFFFF, 1)], 0)
  }

  function Wrapped(m: Msg): Msg {
    Msg([Single(Sub(m))], [])
  }

  lemma {:induction false} TimesIsProduct(n: nat, x: nat)
    ensures Times(n, x) == n * x
  {
    if n > 0 { TimesIsProduct(n - 1, x); }
  }

  lemma StringsSize()
    ensures ValidDesc(Strings()) && MaxEncodedSize(Strings()) == 0x1_0000_FFFE
  {
    var d := Strings();
    var f := d.fields[0];
    VarintBytesLen(0xFFFE, 3);
    VarintBytesLen(0xFFFE, 2);
    assert Pow128(2) == 128 * 128 && Pow128(3) == 128 * 128 * 128;
    assert |TagBytes(1, WT_STRING)| == 1;
    assert MaxBasic(f) == 0x1_0002;
    TimesIsProduct(0xFFFF, 0x1_0002);
    assert MaxFields(d, 1) == MaxFields(d, 0) + MaxField(f);
  }

  lemma NotMisreadLength()
    ensures !Varints.MisreadLength(0x1_0000_FFFE)
  {
  }

  /** The strings fill their submessage with more than 2^32 bytes. */
  lemma StringsEncode()
    ensures var m := WorstMsg(Strings());
            && Typed(Strings(), m)
            && EncodeMsg(Strings(), m).Some? && |EncodeMsg(Strings(), m).value| == 0x1_0000_FFFE
            && Readable(Strings(), m)
  {
    var d, m := Strings(), WorstMsg(Strings());
    StringsSize();
    assert FieldAttains(d.fields[0]);
    MaximumAttained(d);
    OthersObey(NotMisread, d.fields[0], m.slots[0].vs);
    assert FieldObeys(NotMisread, d, m, 0);
  }

  lemma WrappedEncodes(desc: MsgDesc, m: Msg)
    requires ValidDesc(desc) && Typed(desc, m) && EncodeMsg(desc, m).Some?
    ensures ValidDesc(Wrapper(desc)) && Typed(Wrapper(desc), Wrapped(m))
    ensures EncodeMsg(Wrapper(desc), Wrapped(m)).Some?
  {
    var d, w := Wrapper(desc), Wrapped(m);
    var f := d.fields[0];
    assert EncodeContent(f, Sub(m)).Some? && EncodeBasic(f, Sub(m)).Some?;
    assert EncodeField(d, w, 0) == EncodeBasic(f, Sub(m)) && EncodeFields(d, w, 1) == Some([]);
    assert SlotTyped(f, w.slots[0]);
  }

  lemma WrappedLength(desc: MsgDesc, m: Msg)
    requires Shaped(desc, m) && EncodeMsg(desc, m).Some? && Readable(desc, m)
    requires |EncodeMsg(desc, m).value| >= TWO32 && !Varints.MisreadLength(|EncodeMsg(desc, m).value|)
    ensures Readable(Wrapper(desc), Wrapped(m)) && !Short(Wrapper(desc), Wrapped(m))
  {
    var d, w := Wrapper(desc), Wrapped(m);
    var f := d.fields[0];
    assert ValueObeys(NotMisread, f, Sub(m)) && !ValueObeys(Fits32, f, Sub(m));
    assert FieldObeys(NotMisread, d, w, 0) && !FieldObeys(Fits32, d, w, 0);
  }

  /** Any message of 2^32 bytes or more can be wrapped and written, and is then refused, unless
      its length is misread. */
  lemma WrappedRefused(desc: MsgDesc, m: Msg)
    requires ValidDesc(desc) && Typed(desc, m) && EncodeMsg(desc, m).Some? && Readable(desc, m)
    requires |EncodeMsg(desc, m).value| >= TWO32 && !Varints.MisreadLength(|EncodeMsg(desc, m).value|)
    ensures ValidDesc(Wrapper(desc)) && Typed(Wrapper(desc), Wrapped(m))
    ensures EncodeMsg(Wrapper(desc), Wrapped(m)).Some?
    ensures Decode(Wrapper(desc), EncodeMsg(Wrapper(desc), Wrapped(m)).value) == None
  {
    WrappedEncodes(desc, m);
    WrappedLength(desc, m);
    MessageRoundTrip(Wrapper(desc), Wrapped(m));
  }

  function LongMsg(): Msg {
    Wrapped(WorstMsg(Strings()))
  }

  /** A message of these strings inside another one encodes, and pb_decode refuses the bytes. */
  lemma LongMessageRefused()
    ensures Typed(Wrapper(Strings()), LongMsg()) && EncodeMsg(Wrapper(Strings()), LongMsg()).Some?
    ensures Decode(Wrapper(Strings()), EncodeMsg(Wrapper(Strings()), LongMsg()).value) == None
  {
    StringsSize();
    StringsEncode();
    NotMisreadLength();
    WrappedRefused(Strings(), WorstMsg(Strings()));
  }
}
