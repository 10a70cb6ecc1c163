/** A message type bound to its packed descriptor table. */
module Binding {
  import opened Wire
  import opened Schema
  import opened Descriptor
  import opened Iteration
  import opened MaxSize

  /** A message type, the packed descriptors of its fields, and the tables of its submessage
      fields in their order (submsg_info) */
  datatype Table = Table(desc: MsgDesc, entries: seq<Entry>, subs: seq<Table>)

  function KindCode(k: Kind): nat {
    match k
    case Bool => 0x00
    case Varint => 0x01
    case UVarint => 0x02
    case SVarint => 0x03
    case Fixed32 => 0x04
    case Fixed64 => 0x05
    case Bytes => 0x06
    case String => 0x07
    case Submessage(_) => LTYPE_SUBMESSAGE
    case FixedLengthBytes => 0x0B
  }

  /** The numbers are exactly the types up to PB_LTYPE_LAST_PACKABLE. */
  lemma PackableByCode(k: Kind)
    ensures Packable(k) <==> KindCode(k) <= 5
  {
  }

  function RuleCode(r: Rule): nat {
    match r
    case Required => HTYPE_REQUIRED
    case Optional | Singular => 1
    case Repeated => 2
    case Oneof(_) => 3
  }

  /** The field has a has-flag, a count or a which-tag in the struct. By this alone the source
      tells optional fields from singular ones, and counted arrays from those of fixed count. */
  predicate Sized(r: Rule) {
    r.Optional? || r.Repeated? || r.Oneof?
  }

  /** The generator made e for field f, anywhere in the struct. */
  predicate Describes(f: Field, e: Entry) {
    && e.info.tag == f.tag && e.info.dataSize == f.dataSize && e.info.arraySize == f.arraySize
    && e.ltype == KindCode(f.kind) && e.htype == RuleCode(f.rule) && e.atype == 0
    && (e.info.sizeOffset > 0 <==> Sized(f.rule))
  }

  predicate DescribedAt(t: Table, i: nat)
    requires i < |t.entries| == |t.desc.fields|
  {
    Describes(t.desc.fields[i], t.entries[i])
  }

  predicate HasMember(d: MsgDesc, u: nat) {
    exists i :: 0 <= i < |d.fields| && d.fields[i].rule == Oneof(u)
  }

  /** Every union has a member, so that setting the fields to default resets every union. */
  predicate UnionsUsed(d: MsgDesc) {
    forall u :: 0 <= u < d.unions ==> HasMember(d, u)
  }

  /** A submessage field finds its table at the number of submessage fields before it. */
  ghost predicate SubTableAt(t: Table, i: nat)
    requires i < |t.entries| == |t.desc.fields|
  {
    t.desc.fields[i].kind.Submessage? ==>
      var k := SubmsgsBefore(t.entries, i);
      k < |t.subs| && t.subs[k].desc == t.desc.fields[i].kind.desc
  }

  /** The table describes its message type, and so do the tables it refers to; the largest
      encoding fits a 64-bit size. */
  ghost predicate ValidTable(t: Table)
    decreases t
  {
    && ValidDesc(t.desc) && UnionsUsed(t.desc) && MaxEncodedSize(t.desc) < TWO64
    && |t.entries| == |t.desc.fields|
    && (forall i :: 0 <= i < |t.entries| ==> DescribedAt(t, i))
    && ValidEntries(t.entries)
    && |t.subs| == SubmsgsBefore(t.entries, |t.desc.fields|)
    && (forall i :: 0 <= i < |t.desc.fields| ==> SubTableAt(t, i))
    && forall k :: 0 <= k < |t.subs| ==> ValidTable(t.subs[k])
  }

  /** submsg_desc of field i */
  function SubTable(t: Table, i: nat, submessageIndex: nat): Option<Table>
    requires i < |t.desc.fields|
  {
    if t.desc.fields[i].kind.Submessage? && submessageIndex < |t.subs| then Some(t.subs[submessageIndex]) else None
  }

  /** sub is the table of f's submessage type, if f is a submessage field. */
  ghost predicate SubTableOf(f: Field, sub: Option<Table>, outer: Table) {
    f.kind.Submessage? ==>
      sub.Some? && sub.value < outer && ValidTable(sub.value) && sub.value.desc == f.kind.desc
  }

  lemma SubTableFits(t: Table, i: nat)
    requires ValidTable(t) && i < |t.desc.fields|
    ensures SubTableOf(t.desc.fields[i], SubTable(t, i, SubmsgsBefore(t.entries, i)), t)
  {
    assert SubTableAt(t, i);
  }

  /** submsg_desc of the field at which the iterator stands */
  method CurrentSubTable(t: Table, iter: FieldIter) returns (sub: Option<Table>)
    requires ValidTable(t) && iter.Loaded() && iter.entries == t.entries && iter.index < |t.desc.fields|
    ensures SubTableOf(t.desc.fields[iter.index], sub, t)
  {
    SubTableFits(t, iter.index);
    sub := SubTable(t, iter.index, iter.submessageIndex);
  }

  lemma TagsInOrder(t: Table)
    requires ValidTable(t)
    ensures InTagOrder(t.entries)
    ensures forall i :: 0 <= i < |t.entries| ==> !IsExtension(t.entries[i])
  {
    var es, fs := t.entries, t.desc.fields;
    forall i, j | 0 <= i < j < |es| ensures es[i].info.tag < es[j].info.tag {
      assert DescribedAt(t, i) && DescribedAt(t, j) && TagBefore(t.desc, i, j);
    }
    forall i | 0 <= i < |es| ensures !IsExtension(es[i]) {
      assert DescribedAt(t, i);
    }
  }

  /** The iterator's required index is the decoder's count of required fields. */
  lemma {:induction false} RequiredIndexAgrees(t: Table, i: nat)
    requires ValidTable(t) && i <= |t.desc.fields|
    ensures RequiredBefore(t.entries, i) == RequiredIndex(t.desc.fields, i)
  {
    if i > 0 {
      assert DescribedAt(t, i - 1);
      RequiredIndexAgrees(t, i - 1);
    }
  }

  /** The linear search over the table and over the fields find the same field. */
  lemma SearchAgrees(t: Table, tag: nat)
    requires ValidTable(t)
    ensures var r := LinearSearch(t.entries, tag);
            FindTag(t.desc.fields, tag) == if r < 0 then None else Some(r)
  {
    var es, fs := t.entries, t.desc.fields;
    TagsInOrder(t);
    var r, q := LinearSearch(es, tag), FindTag(fs, tag);
    if r >= 0 {
      assert DescribedAt(t, r);
      FindTagUnique(t.desc, r);
    }
    if q.Some? {
      assert DescribedAt(t, q.value);
      assert !IsExtension(es[q.value]);
    }
  }
}
