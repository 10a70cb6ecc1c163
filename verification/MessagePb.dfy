/** The message types of this repository, with their declared maximum sizes. */
module MessagePb {
  import opened Wire
  import opened Schema
  import opened EncodeSpec
  import opened DecodeSpec
  import opened MaxSize
  import opened MaxAttained
  import opened Lengths
  import opened RoundTrip
  import opened Integrity
  import opened Framing

  const CAPACITY: nat := 5
  const NAME_SIZE: nat := 16

  function Int32Field(tag: nat): Field {
    Field(tag, Required, Varint, 4, 1)
  }

  function NameField(tag: nat): Field {
    Field(tag, Required, String, NAME_SIZE, 1)
  }

  function RequiredMsg(tag: nat, d: MsgDesc, size: nat): Field {
    Field(tag, Required, Submessage(d), size, 1)
  }

  function RepeatedMsg(tag: nat, d: MsgDesc, size: nat): Field {
    Field(tag, Repeated, Submessage(d), size, CAPACITY)
  }

  function Attribute(): MsgDesc {
    MsgDesc([Int32Field(1), NameField(2),
             Field(3, Oneof(0), String, NAME_SIZE, 1), Field(4, Oneof(0), Varint, 4, 1),
             Field(5, Oneof(0), Fixed32, 4, 1), Field(6, Oneof(0), Varint, 4, 1)], 1)
  }

  function Operator(): MsgDesc {
    MsgDesc([Int32Field(1), RequiredMsg(2, Attribute(), 40)], 0)
  }

  function Comparator(): MsgDesc {
    MsgDesc([Int32Field(1), Int32Field(2), Int32Field(3),
             RequiredMsg(4, Operator(), 44), RequiredMsg(5, Operator(), 44)], 0)
  }

  function Filter(): MsgDesc {
    MsgDesc([Int32Field(1), RepeatedMsg(2, Comparator(), 100)], 0)
  }

  function Level(): MsgDesc {
    MsgDesc([Int32Field(1), Int32Field(2), Int32Field(3), Int32Field(4), RepeatedMsg(5, Filter(), 508)], 0)
  }

  function QueryTree(): MsgDesc {
    MsgDesc([Int32Field(1), RepeatedMsg(2, Level(), 2560), NameField(3), Field(4, Required, Varint, 8, 1)], 0)
  }

  function ReturnCode(): MsgDesc {
    MsgDesc([Int32Field(1)], 0)
  }

  function Entity(): MsgDesc {
    MsgDesc([RepeatedMsg(1, Attribute(), 40)], 0)
  }

  function Tuple(): MsgDesc {
    MsgDesc([RequiredMsg(1, Entity(), 204), Int32Field(2), Int32Field(3)], 0)
  }

  function Collection(): MsgDesc {
    MsgDesc([RepeatedMsg(1, Tuple(), 212)], 0)
  }

  //
  // Sizes
  //

  lemma LengthOfDelimited(n: nat)
    ensures n < 0x80 ==> DelimitedLen(n) == 1 + n
    ensures 0x80 <= n < 0x4000 ==> DelimitedLen(n) == 2 + n
  {
    if 0x80 <= n < 0x4000 {
      assert VarintBytes(n) == [128 + n % 128] + VarintBytes(n / 128);
    }
  }

  lemma TagLength(tag: nat, wt: nat)
    requires tag < 16 && wt < 8
    ensures |TagBytes(tag, wt)| == 1
  {
  }

  lemma NumberFieldMax(f: Field)
    requires f.tag < 16 && Packable(f.kind)
    ensures MaxBasic(f) == 1 + MaxNum(f.kind, f.dataSize)
  {
    TagLength(f.tag, WireType(f.kind));
  }

  lemma StringFieldMax(f: Field)
    requires f.tag < 16 && f.kind.String? && f.dataSize == NAME_SIZE
    ensures MaxBasic(f) == 17
  {
    TagLength(f.tag, WT_STRING);
    LengthOfDelimited(15);
  }

  lemma MsgFieldMax(f: Field, size: nat)
    requires f.tag < 16 && f.kind.Submessage? && MaxEncodedSize(f.kind.desc) == size < 0x4000
    ensures MaxBasic(f) == (if size < 0x80 then 2 else 3) + size
  {
    TagLength(f.tag, WT_STRING);
    LengthOfDelimited(size);
  }

  lemma FiveTimes(x: nat)
    ensures Times(CAPACITY, x) == 5 * x
  {
    assert Times(1, x) == x + Times(0, x);
    assert Times(2, x) == x + Times(1, x);
    assert Times(3, x) == x + Times(2, x);
    assert Times(4, x) == x + Times(3, x);
  }

  /** The string is the largest member of the oneof. */
  lemma AttributeUnion()
    ensures MaxMember(Attribute(), 0, 6) == 17 == MaxBasic(Attribute().fields[2])
  {
    var d := Attribute();
    StringFieldMax(d.fields[2]);
    NumberFieldMax(d.fields[3]);
    NumberFieldMax(d.fields[4]);
    NumberFieldMax(d.fields[5]);
    assert MaxMember(d, 0, 2) == 0 by { assert MaxMember(d, 0, 1) == 0; }
    assert MaxMember(d, 0, 3) == 17;
    assert MaxMember(d, 0, 4) == 17;
    assert MaxMember(d, 0, 5) == 17;
  }

  lemma AttributeSize()
    ensures MaxEncodedSize(Attribute()) == 45
  {
    var d := Attribute();
    NumberFieldMax(d.fields[0]);
    StringFieldMax(d.fields[1]);
    assert MaxFields(d, 1) == 11;
    assert MaxFields(d, 2) == 28;
    assert MaxFields(d, 3) == 28;
    assert MaxFields(d, 4) == 28;
    assert MaxFields(d, 5) == 28;
    assert MaxFields(d, 6) == 28;
    AttributeUnion();
    assert MaxUnions(d, 1) == MaxUnions(d, 0) + MaxMember(d, 0, 6);
  }

  lemma OperatorSize()
    ensures MaxEncodedSize(Operator()) == 58
  {
    var d := Operator();
    AttributeSize();
    NumberFieldMax(d.fields[0]);
    MsgFieldMax(d.fields[1], 45);
    assert MaxFields(d, 1) == 11;
    assert MaxFields(d, 2) == 58;
  }

  lemma ComparatorSize()
    ensures MaxEncodedSize(Comparator()) == 153
  {
    var d := Comparator();
    OperatorSize();
    NumberFieldMax(d.fields[0]);
    MsgFieldMax(d.fields[3], 58);
    MsgFieldMax(d.fields[4], 58);
    assert MaxFields(d, 1) == 11;
    assert MaxFields(d, 2) == 22;
    assert MaxFields(d, 3) == 33;
    assert MaxFields(d, 4) == 93;
    assert MaxFields(d, 5) == 153;
  }

  lemma FilterSize()
    ensures MaxEncodedSize(Filter()) == 791
  {
    var d := Filter();
    ComparatorSize();
    NumberFieldMax(d.fields[0]);
    MsgFieldMax(d.fields[1], 153);
    FiveTimes(156);
    assert MaxFields(d, 1) == 11;
    assert MaxFields(d, 2) == 791;
  }

  lemma LevelSize()
    ensures MaxEncodedSize(Level()) == 4014
  {
    var d := Level();
    FilterSize();
    NumberFieldMax(d.fields[0]);
    MsgFieldMax(d.fields[4], 791);
    FiveTimes(794);
    assert MaxFields(d, 1) == 11;
    assert MaxFields(d, 2) == 22;
    assert MaxFields(d, 3) == 33;
    assert MaxFields(d, 4) == 44;
    assert MaxFields(d, 5) == 4014;
  }

  lemma QueryTreeSize()
    ensures MaxEncodedSize(QueryTree()) == 20124
  {
    var d := QueryTree();
    LevelSize();
    NumberFieldMax(d.fields[0]);
    MsgFieldMax(d.fields[1], 4014);
    StringFieldMax(d.fields[2]);
    NumberFieldMax(d.fields[3]);
    FiveTimes(4017);
    assert MaxFields(d, 1) == 11;
    assert MaxFields(d, 2) == 20096;
    assert MaxFields(d, 3) == 20113;
    assert MaxFields(d, 4) == 20124;
  }

  lemma ReturnCodeSize()
    ensures MaxEncodedSize(ReturnCode()) == 11
  {
    var d := ReturnCode();
    NumberFieldMax(d.fields[0]);
    assert MaxFields(d, 1) == 11;
  }

  lemma EntitySize()
    ensures MaxEncodedSize(Entity()) == 235
  {
    var d := Entity();
    AttributeSize();
    MsgFieldMax(d.fields[0], 45);
    FiveTimes(47);
    assert MaxFields(d, 1) == 235;
  }

  lemma TupleSize()
    ensures MaxEncodedSize(Tuple()) == 260
  {
    var d := Tuple();
    EntitySize();
    MsgFieldMax(d.fields[0], 235);
    NumberFieldMax(d.fields[1]);
    assert MaxFields(d, 1) == 238;
    assert MaxFields(d, 2) == 249;
    assert MaxFields(d, 3) == 260;
  }

  lemma CollectionSize()
    ensures MaxEncodedSize(Collection()) == 1315
  {
    var d := Collection();
    TupleSize();
    MsgFieldMax(d.fields[0], 260);
    FiveTimes(263);
    assert MaxFields(d, 1) == 1315;
  }

  //
  // All ten types
  //

  datatype MessageType =
    | AttributeType | OperatorType | ComparatorType | FilterType | LevelType
    | QueryTreeType | ReturnCodeType | EntityType | TupleType | CollectionType

  function DescOf(t: MessageType): MsgDesc {
    match t
    case AttributeType => Attribute()
    case OperatorType => Operator()
    case ComparatorType => Comparator()
    case FilterType => Filter()
    case LevelType => Level()
    case QueryTreeType => QueryTree()
    case ReturnCodeType => ReturnCode()
    case EntityType => Entity()
    case TupleType => Tuple()
    case CollectionType => Collection()
  }

  /** The *_size constants */
  function DeclaredSize(t: MessageType): nat {
    match t
    case AttributeType => 45
    case OperatorType => 58
    case ComparatorType => 153
    case FilterType => 791
    case LevelType => 4014
    case QueryTreeType => 20124
    case ReturnCodeType => 11
    case EntityType => 235
    case TupleType => 260
    case CollectionType => 1315
  }

  lemma DeclaredSizeIsMax(t: MessageType)
    ensures MaxEncodedSize(DescOf(t)) == DeclaredSize(t)
  {
    match t
    case AttributeType => AttributeSize();
    case OperatorType => OperatorSize();
    case ComparatorType => ComparatorSize();
    case FilterType => FilterSize();
    case LevelType => LevelSize();
    case QueryTreeType => QueryTreeSize();
    case ReturnCodeType => ReturnCodeSize();
    case EntityType => EntitySize();
    case TupleType => TupleSize();
    case CollectionType => CollectionSize();
  }

  lemma AttributeFilled()
    ensures UnionAttains(Attribute(), 0)
  {
    AttributeUnion();
    assert Fills(Attribute(), 0, 2);
  }

  lemma AttributeDesc()
    ensures ValidDesc(Attribute())
  {
  }

  lemma AttributeFields()
    ensures forall i :: 0 <= i < |Attribute().fields| ==> FieldAttains(Attribute().fields[i])
  {
  }

  lemma AttributeValid()
    ensures ValidDesc(Attribute()) && Attains(Attribute())
  {
    AttributeDesc();
    AttributeFields();
    AttributeFilled();
  }

  lemma OperatorValid()
    ensures ValidDesc(Operator()) && Attains(Operator())
  {
    AttributeValid();
  }

  lemma ComparatorValid()
    ensures ValidDesc(Comparator()) && Attains(Comparator())
  {
    OperatorValid();
  }

  lemma FilterValid()
    ensures ValidDesc(Filter()) && Attains(Filter())
  {
    ComparatorValid();
  }

  lemma LevelValid()
    ensures ValidDesc(Level()) && Attains(Level())
  {
    FilterValid();
  }

  lemma EntityValid()
    ensures ValidDesc(Entity()) && Attains(Entity())
  {
    AttributeValid();
  }

  lemma TupleValid()
    ensures ValidDesc(Tuple()) && Attains(Tuple())
  {
    EntityValid();
  }

  lemma QueryTreeValid()
    ensures ValidDesc(QueryTree()) && Attains(QueryTree())
  {
    LevelValid();
  }

  lemma ReturnCodeValid()
    ensures ValidDesc(ReturnCode()) && Attains(ReturnCode())
  {
  }

  lemma CollectionValid()
    ensures ValidDesc(Collection()) && Attains(Collection())
  {
    TupleValid();
  }

  lemma SchemaValid(t: MessageType)
    ensures ValidDesc(DescOf(t)) && Attains(DescOf(t))
  {
    match t
    case AttributeType => AttributeValid();
    case OperatorType => OperatorValid();
    case ComparatorType => ComparatorValid();
    case FilterType => FilterValid();
    case LevelType => LevelValid();
    case QueryTreeType => QueryTreeValid();
    case ReturnCodeType => ReturnCodeValid();
    case EntityType => EntityValid();
    case TupleType => TupleValid();
    case CollectionType => CollectionValid();
  }

  /** Every value of every message type encodes to at most the declared size, and some value
      reaches it. */
  lemma DeclaredSizesExact(t: MessageType, m: Msg)
    ensures Typed(DescOf(t), m) && EncodeMsg(DescOf(t), m).Some?
            ==> |EncodeMsg(DescOf(t), m).value| <= DeclaredSize(t)
    ensures exists w :: Typed(DescOf(t), w) && EncodeMsg(DescOf(t), w).Some?
                        && |EncodeMsg(DescOf(t), w).value| == DeclaredSize(t)
  {
    SchemaValid(t);
    DeclaredSizeIsMax(t);
    MaximumAttained(DescOf(t));
    if Typed(DescOf(t), m) { EncodedSizeBounded(DescOf(t), m); }
  }

  /** A buffer of the declared size is always enough, and the round trip needs no condition on
      the length: every value whose counts and strings fit their fields comes back. */
  lemma SchemaRoundTrip(t: MessageType, m: Msg)
    requires Typed(DescOf(t), m) && Fits(DescOf(t), m)
    ensures EncodeMsg(DescOf(t), m).Some? && |EncodeMsg(DescOf(t), m).value| <= DeclaredSize(t)
    ensures Decode(DescOf(t), EncodeMsg(DescOf(t), m).value) == Some(Canon(DescOf(t), m))
  {
    SchemaValid(t);
    DeclaredSizesExact(t, m);
    DeclaredSizeIsMax(t);
    EncodesExactlyWhenFits(DescOf(t), m);
    BoundedRoundTrip(DescOf(t), m);
  }

  /** Whatever bytes were decoded as one of the types, the message encodes again within the
      declared size, and those bytes decode to the very same message. */
  lemma SchemaReencode(t: MessageType, s: seq<byte>)
    requires Decode(DescOf(t), s).Some?
    ensures var e := EncodeMsg(DescOf(t), Decode(DescOf(t), s).value);
            e.Some? && |e.value| <= DeclaredSize(t) && Decode(DescOf(t), e.value) == Decode(DescOf(t), s)
  {
    SchemaValid(t);
    DeclaredSizeIsMax(t);
    BoundedReencode(DescOf(t), s);
    DecodedMessagesReencode(DescOf(t), s);
    SoundMessages(DescOf(t), Decode(DescOf(t), s).value);
    EncodedSizeBounded(DescOf(t), Decode(DescOf(t), s).value);
  }

  /** A list of messages of one of the types, framed and followed by anything, is recovered. */
  lemma SchemaFraming(t: MessageType, ms: seq<Msg>, framing: EncodeSpec.Framing, y: seq<byte>)
    requires !framing.Plain?
    requires forall k :: 0 <= k < |ms| ==> Typed(DescOf(t), ms[k]) && EncodeMsg(DescOf(t), ms[k]).Some?
    ensures AllFramable(DescOf(t), ms, framing)
    ensures ReadAll(DescOf(t), |ms|, framing, WriteAll(DescOf(t), ms, framing) + y)
            == Ok(CanonAll(DescOf(t), ms), y)
  {
    SchemaValid(t);
    DeclaredSizeIsMax(t);
    forall k | 0 <= k < |ms| ensures Framable(DescOf(t), ms[k], framing) {
      BoundedIsShort(DescOf(t), ms[k]);
    }
    FramingRecovers(DescOf(t), ms, framing, y);
  }
}
