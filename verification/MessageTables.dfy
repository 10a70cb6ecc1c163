/** The packed tables that PB_BIND makes for the message types of this repository, with the
    struct layout of a platform with four-byte int32_t and eight-byte aligned int64_t. */
module MessageTables {
  import opened Schema
  import opened Descriptor
  import opened Iteration
  import opened Binding
  import opened MaxSize
  import opened MessagePb

  /** The format of a field, its place in the struct, and how far before it its count or
      which-tag stands */
  datatype Layout = Layout(width: Width, dataOffset: nat, sizeOffset: nat)

  function EntryFor(f: Field, l: Layout): Entry {
    var ltype, htype := KindCode(f.kind), RuleCode(f.rule);
    Entry(FieldInfo(f.tag, TypeCode(ltype, htype, 0), l.dataOffset, f.dataSize, l.sizeOffset, f.arraySize),
          ltype, htype, 0, l.width)
  }

  /** PB_FIELDINFO_ASSERT_1 to PB_FIELDINFO_ASSERT_8, with size offsets below 128 in the wide
      formats, and a size offset exactly where there is a count or a flag */
  predicate LayoutFits(f: Field, l: Layout) {
    && 0 < f.tag && (l.sizeOffset > 0 <==> Sized(f.rule))
    && match l.width
       case One =>
         f.tag < 0x40 && l.dataOffset < 0x100 && l.sizeOffset < 0x10 && f.dataSize < 0x10 && f.arraySize == 1
       case Two =>
         f.tag < 0x400 && l.dataOffset < 0x1_0000 && l.sizeOffset < 0x10 && f.dataSize < 0x1000
         && f.arraySize < 0x1000
       case Four | Eight =>
         f.tag < 0x1_0000 && l.dataOffset < 0x1_0000 && l.sizeOffset < 0x80 && f.dataSize < 0x1_0000
         && f.arraySize < 0x1_0000
  }

  lemma EntryForValid(f: Field, l: Layout)
    requires LayoutFits(f, l)
    ensures ValidEntry(EntryFor(f, l)) && Describes(f, EntryFor(f, l))
  {
    assert TypeCode(KindCode(f.kind), RuleCode(f.rule), 0) < 0x100 by {
      TypeMasks(KindCode(f.kind), RuleCode(f.rule), 0);
    }
  }

  /** The type code that the generator writes: the data type in the low four bits, as pb.h numbers
      them, and the rule in the next two */
  lemma FieldCode(f: Field, l: Layout)
    ensures EntryFor(f, l).info.code
            == (match f.kind
                case Bool => 0 case Varint => 1 case UVarint => 2 case SVarint => 3 case Fixed32 => 4
                case Fixed64 => 5 case Bytes => 6 case String => 7 case Submessage(_) => 8 case FixedLengthBytes => 11)
               + 0x10 * (match f.rule
                         case Required => 0 case Optional | Singular => 1 case Repeated => 2 case Oneof(_) => 3)
  {
    TypeMasks(KindCode(f.kind), RuleCode(f.rule), 0);
  }

  function EntriesFor(fs: seq<Field>, ls: seq<Layout>): (es: seq<Entry>)
    requires |fs| == |ls|
    ensures |es| == |fs|
  {
    seq(|fs|, i requires 0 <= i < |fs| => EntryFor(fs[i], ls[i]))
  }

  lemma {:induction false} WordsBound(es: seq<Entry>, i: nat)
    requires i <= |es|
    ensures WordsBefore(es, i) <= 8 * i
  {
    if i > 0 { WordsBound(es, i - 1); }
  }

  lemma EntriesForValid(fs: seq<Field>, ls: seq<Layout>)
    requires |fs| == |ls| < 0x1000 && forall i :: 0 <= i < |fs| ==> LayoutFits(fs[i], ls[i])
    ensures ValidEntries(EntriesFor(fs, ls))
    ensures forall i :: 0 <= i < |fs| ==> Describes(fs[i], EntriesFor(fs, ls)[i])
  {
    var es := EntriesFor(fs, ls);
    WordsBound(es, |es|);
    forall i | 0 <= i < |fs| ensures ValidEntryAt(es, i) && Describes(fs[i], es[i]) {
      EntryForValid(fs[i], ls[i]);
    }
  }

  /** How many of the first i fields are submessages */
  function SubmsgFields(fs: seq<Field>, i: nat): nat
    requires i <= |fs|
  {
    if i == 0 then 0 else SubmsgFields(fs, i - 1) + (if fs[i - 1].kind.Submessage? then 1 else 0)
  }

  lemma {:induction false} SubmsgsCounted(fs: seq<Field>, es: seq<Entry>, i: nat)
    requires |fs| == |es| && i <= |fs| && forall j :: 0 <= j < |fs| ==> Describes(fs[j], es[j])
    ensures SubmsgsBefore(es, i) == SubmsgFields(fs, i)
  {
    if i > 0 {
      assert Describes(fs[i - 1], es[i - 1]);
      SubmsgsCounted(fs, es, i - 1);
    }
  }

  function TableFor(d: MsgDesc, ls: seq<Layout>, subs: seq<Table>): Table
    requires |ls| == |d.fields|
  {
    Table(d, EntriesFor(d.fields, ls), subs)
  }

  ghost predicate AllValid(ts: seq<Table>) {
    forall k :: 0 <= k < |ts| ==> ValidTable(ts[k])
  }

  predicate LayoutsFit(d: MsgDesc, ls: seq<Layout>)
    requires |ls| == |d.fields|
  {
    forall i :: 0 <= i < |ls| ==> LayoutFits(d.fields[i], ls[i])
  }

  /** One message type for each submessage field, in order */
  predicate SubsMatch(d: MsgDesc, subs: seq<MsgDesc>) {
    && |subs| == SubmsgFields(d.fields, |d.fields|)
    && forall i :: 0 <= i < |d.fields| && d.fields[i].kind.Submessage? ==>
        SubmsgFields(d.fields, i) < |subs| && subs[SubmsgFields(d.fields, i)] == d.fields[i].kind.desc
  }

  function DescsOf(ts: seq<Table>): seq<MsgDesc> {
    seq(|ts|, k requires 0 <= k < |ts| => ts[k].desc)
  }

  /** What a table needs, apart from its fields */
  lemma TableForValid(d: MsgDesc, ls: seq<Layout>, subs: seq<Table>)
    requires ValidDesc(d) && UnionsUsed(d) && MaxEncodedSize(d) < 0x1_0000
    requires |ls| == |d.fields| < 0x1000 && LayoutsFit(d, ls) && SubsMatch(d, DescsOf(subs))
    requires AllValid(subs)
    ensures ValidTable(TableFor(d, ls, subs))
  {
    var t := TableFor(d, ls, subs);
    EntriesForValid(d.fields, ls);
    SubmsgsCounted(d.fields, t.entries, |d.fields|);
    forall i | 0 <= i < |d.fields| ensures DescribedAt(t, i) && SubTableAt(t, i) {
      SubmsgsCounted(d.fields, t.entries, i);
    }
  }

  /** The same table for each submessage field */
  function Copies(d: MsgDesc, sub: Table): seq<Table> {
    seq(SubmsgFields(d.fields, |d.fields|), k => sub)
  }

  //
  // PB_BIND
  //

  function LayoutsOf(t: MessageType): (ls: seq<Layout>)
    ensures |ls| == |DescOf(t).fields|
  {
    match t
    case AttributeType =>
      [Layout(One, 0, 0), Layout(Two, 4, 0),
       Layout(Two, 24, 4), Layout(One, 24, 4), Layout(One, 24, 4), Layout(One, 24, 4)]
    case OperatorType => [Layout(One, 0, 0), Layout(Two, 4, 0)]
    case ComparatorType =>
      [Layout(One, 0, 0), Layout(One, 4, 0), Layout(One, 8, 0), Layout(Two, 12, 0), Layout(Two, 56, 0)]
    case FilterType => [Layout(Two, 0, 0), Layout(Two, 8, 4)]
    case LevelType =>
      [Layout(Two, 0, 0), Layout(Two, 4, 0), Layout(Two, 8, 0), Layout(Two, 12, 0), Layout(Two, 20, 4)]
    case QueryTreeType => [Layout(Four, 0, 0), Layout(Four, 8, 4), Layout(Four, 12808, 0), Layout(Four, 12824, 0)]
    case ReturnCodeType => [Layout(One, 0, 0)]
    case EntityType => [Layout(Two, 4, 4)]
    case TupleType => [Layout(Two, 0, 0), Layout(One, 204, 0), Layout(One, 208, 0)]
    case CollectionType => [Layout(Two, 4, 4)]
  }

  /** How deep submessages nest */
  function Depth(t: MessageType): nat {
    match t
    case AttributeType | ReturnCodeType => 0
    case OperatorType | EntityType => 1
    case ComparatorType | TupleType => 2
    case FilterType | CollectionType => 3
    case LevelType => 4
    case QueryTreeType => 5
  }

  /** The type of the submessages: no message here has submessages of different types. */
  function SubTypeOf(t: MessageType): (sub: MessageType)
    requires Depth(t) > 0
    ensures Depth(sub) < Depth(t)
  {
    match t
    case OperatorType | EntityType => AttributeType
    case ComparatorType => OperatorType
    case FilterType => ComparatorType
    case LevelType => FilterType
    case QueryTreeType => LevelType
    case TupleType => EntityType
    case CollectionType => TupleType
  }

  function TableOf(t: MessageType): Table
    decreases Depth(t), 1
  {
    TableFor(DescOf(t), LayoutsOf(t), SubTables(t))
  }

  function SubTables(t: MessageType): seq<Table>
    decreases Depth(t), 0
  {
    if Depth(t) == 0 then [] else Copies(DescOf(t), TableOf(SubTypeOf(t)))
  }

  lemma LayoutsOfFit(t: MessageType)
    ensures LayoutsFit(DescOf(t), LayoutsOf(t))
  {
  }

  /** Counting goes on behind a submessage field, and nowhere else. */
  lemma {:induction false} SubmsgsGrow(fs: seq<Field>, i: nat, n: nat)
    requires i < n <= |fs|
    ensures SubmsgFields(fs, i) <= SubmsgFields(fs, n)
    ensures fs[i].kind.Submessage? ==> SubmsgFields(fs, i) < SubmsgFields(fs, n)
  {
    if i + 1 < n { SubmsgsGrow(fs, i, n - 1); }
  }

  lemma {:induction false} NoSubmsgs(fs: seq<Field>, n: nat)
    requires n <= |fs| && forall i :: 0 <= i < |fs| ==> !fs[i].kind.Submessage?
    ensures SubmsgFields(fs, n) == 0
  {
    if n > 0 { NoSubmsgs(fs, n - 1); }
  }

  lemma CopiesMatch(d: MsgDesc, sub: Table)
    requires ValidTable(sub)
    requires forall i :: 0 <= i < |d.fields| && d.fields[i].kind.Submessage? ==> d.fields[i].kind.desc == sub.desc
    ensures AllValid(Copies(d, sub)) && SubsMatch(d, DescsOf(Copies(d, sub)))
  {
    var subs := Copies(d, sub);
    forall i | 0 <= i < |d.fields| && d.fields[i].kind.Submessage?
      ensures SubmsgFields(d.fields, i) < |subs| && DescsOf(subs)[SubmsgFields(d.fields, i)] == sub.desc
    {
      SubmsgsGrow(d.fields, i, |d.fields|);
    }
  }

  lemma SubmessagesAlike(t: MessageType)
    ensures forall i :: 0 <= i < |DescOf(t).fields| && DescOf(t).fields[i].kind.Submessage? ==>
              Depth(t) > 0 && DescOf(t).fields[i].kind.desc == DescOf(SubTypeOf(t))
  {
  }

  lemma UnionsOf(t: MessageType)
    ensures UnionsUsed(DescOf(t))
  {
    if t.AttributeType? {
      assert Attribute().fields[2].rule == Oneof(0);
      assert HasMember(Attribute(), 0);
    }
  }

  /** The table of one type, if those of its submessages are valid */
  lemma TypeTableValid(t: MessageType, subs: seq<Table>)
    requires AllValid(subs) && SubsMatch(DescOf(t), DescsOf(subs))
    ensures ValidTable(TableFor(DescOf(t), LayoutsOf(t), subs))
  {
    SchemaValid(t);
    DeclaredSizeIsMax(t);
    UnionsOf(t);
    LayoutsOfFit(t);
    TableForValid(DescOf(t), LayoutsOf(t), subs);
  }

  /** Every table of the repository is one that the encoder and the decoder are proved for. */
  lemma {:induction false} SchemaTablesValid(t: MessageType)
    ensures ValidTable(TableOf(t)) && TableOf(t).desc == DescOf(t)
    decreases Depth(t)
  {
    SubmessagesAlike(t);
    if Depth(t) == 0 {
      NoSubmsgs(DescOf(t).fields, |DescOf(t).fields|);
    } else {
      SchemaTablesValid(SubTypeOf(t));
      CopiesMatch(DescOf(t), TableOf(SubTypeOf(t)));
    }
    TypeTableValid(t, SubTables(t));
  }
}
