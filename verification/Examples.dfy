/** Bytes and words of this repository's messages, written out. */
module Examples {
  import opened Wire
  import opened Schema
  import opened EncodeSpec
  import opened DecodeSpec
  import opened Numbers
  import opened Acceptance
  import opened RequiredFields
  import opened Integrity
  import opened MessagePb
  import Utf8

  function Code(n: int): Msg {
    Msg([Single(Num(n))], [])
  }

  lemma CodeEncodes()
    ensures EncodeMsg(ReturnCode(), Code(52)) == Some([0x08, 0x34])
  {
    var d, m := ReturnCode(), Code(52);
    var f := d.fields[0];
    assert VarintBytes(8) == [0x08] && EncodeNum(Varint, 4, 52) == [0x34];
    assert TagBytes(f.tag, WireType(f.kind)) == [0x08] && EncodeContent(f, Num(52)) == Some([0x34]);
    assert [0x08] + [0x34] == [0x08, 0x34];
    assert EncodeField(d, m, 0) == EncodeBasic(f, Num(52)) == Some([0x08, 0x34]);
    assert EncodeFields(d, m, 1) == Some([]);
    assert [0x08, 0x34] + [] == [0x08, 0x34];
  }

  /** The answer of server.c: field 1, wire type 0, the number 52 */
  lemma ReturnCodeBytes()
    ensures Typed(ReturnCode(), Code(52)) && EncodeMsg(ReturnCode(), Code(52)) == Some([0x08, 0x34])
    ensures Decode(ReturnCode(), [0x08, 0x34]) == Some(Code(52))
  {
    CodeEncodes();
    assert Fits(ReturnCode(), Code(52));
    SchemaRoundTrip(ReturnCodeType, Code(52));
    assert Canon(ReturnCode(), Code(52)) == Code(52);
  }

  /** Empty input lacks the required field. */
  lemma EmptyReturnCode()
    ensures Decode(ReturnCode(), []) == None
  {
    SchemaValid(ReturnCodeType);
    NothingMissing(ReturnCode(), DefaultMsg(ReturnCode()));
    assert ReturnCode().fields[0].rule.Required?;
  }

  /** A Collection begins with a submessage of tag 1; taken for a Return_code it is refused. */
  lemma CollectionForReturnCode(s: seq<byte>)
    ensures Decode(ReturnCode(), [0x0A] + s) == None
  {
    var t := [0x0A] + s;
    assert t[0] == 0x0A && t[1..] == s;
    assert RawVarint(t) == Ok(0x0A, s) && Narrow(t, 1);
    SchemaValid(ReturnCodeType);
    WrongWireTypeRefused(ReturnCode(), State(DefaultMsg(ReturnCode()), {}), 0, t, false);
  }

  /** The number -1 as older versions wrote it, in five bytes */
  lemma FiveByteNegative(t: seq<byte>)
    ensures DecodeNum(Varint, 4, [0xFF, 0xFF, 0xFF, 0xFF, 0x0F] + t) == Ok(-1, t)
  {
    assert VarintBytes(0xFFFF_FFFF) == [0xFF, 0xFF, 0xFF, 0xFF, 0x0F];
    Varint64OfBytes(0xFFFF_FFFF, t);
  }

  /** Two bytes for 300, seven bits each, the low ones first */
  lemma ThreeHundred()
    ensures VarintBytes(300) == [0xAC, 0x02]
    ensures EncodeNum(SVarint, 4, -2) == [3] && EncodeNum(Fixed32, 4, 0x1234_5678) == [0x78, 0x56, 0x34, 0x12]
  {
    assert LEBytes(0x12, 1) == [0x12] && LEBytes(0x1234, 2) == [0x34, 0x12];
    assert LEBytes(0x12_3456, 3) == [0x56, 0x34, 0x12];
  }

  /** The euro sign, and the last code point */
  lemma ScalarBytes()
    ensures Utf8.EncodeScalar(0x20AC) == [0xE2, 0x82, 0xAC]
    ensures Utf8.EncodeScalar(0x10_FFFF) == [0xF4, 0x8F, 0xBF, 0xBF]
  {
  }
}
