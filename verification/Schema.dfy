/** Message descriptors and message values. A descriptor is what a pb_msgdesc_t says once
    its packed words are read; a message is the typed content of the C struct. */
module Schema {
  import opened Wire

  /** Field data types (PB_LTYPE). */
  datatype Kind =
    | Bool | Varint | UVarint | SVarint | Fixed32 | Fixed64
    | Bytes | String | Submessage(desc: MsgDesc) | FixedLengthBytes

  /** Repetition rules (PB_HTYPE). Singular is an optional field without a has-flag; the
      members of a oneof share the which-tag and the storage of their union. */
  datatype Rule = Required | Optional | Singular | Repeated | Oneof(union: nat)

  datatype Field = Field(tag: nat, rule: Rule, kind: Kind, dataSize: nat, arraySize: nat)

  datatype MsgDesc = MsgDesc(fields: seq<Field>, unions: nat)

  /** Numbers carry their C value, strings the characters before the first NUL, bytes
      their content. */
  datatype Value = Num(n: int) | Str(s: seq<byte>) | Sub(m: Msg)

  datatype Slot = Single(v: Value) | Flagged(has: bool, v: Value) | Items(vs: seq<Value>) | InUnion

  datatype Union = Union(which: nat, v: Value)

  datatype Msg = Msg(slots: seq<Slot>, unions: seq<Union>)

  /** PB_LTYPE <= PB_LTYPE_LAST_PACKABLE */
  predicate Packable(k: Kind) {
    k.Bool? || k.Varint? || k.UVarint? || k.SVarint? || k.Fixed32? || k.Fixed64?
  }

  function WireType(k: Kind): nat {
    match k
    case Bool | Varint | UVarint | SVarint => WT_VARINT
    case Fixed32 => WT_32BIT
    case Fixed64 => WT_64BIT
    case Bytes | String | Submessage(_) | FixedLengthBytes => WT_STRING
  }

  predicate IntegerSize(size: nat) {
    size == 1 || size == 2 || size == 4 || size == 8
  }

  /** 2^(8 * size - 1) for the sizes an integer may have */
  function HalfRange(size: nat): int
  {
    if size == 1 then 0x80 else if size == 2 then 0x8000
    else if size == 4 then 0x8000_0000 else TWO63
  }

  /** n is a value of the C type that holds the field. */
  predicate InRange(k: Kind, size: nat, n: int) {
    match k
    case Bool => size == 1 && 0 <= n <= 1
    case Varint | SVarint => IntegerSize(size) && -HalfRange(size) <= n < HalfRange(size)
    case UVarint => IntegerSize(size) && 0 <= n < 2 * HalfRange(size)
    case Fixed32 => size == 4 && 0 <= n < TWO32
    case Fixed64 => size == 8 && 0 <= n < TWO64
    case _ => false
  }

  predicate ValidKind(k: Kind, size: nat)
  {
    match k
    case Bool => size == 1
    case Varint | UVarint | SVarint => IntegerSize(size)
    case Fixed32 => size == 4
    case Fixed64 => size == 8
    case Bytes => 2 <= size < 0x1_0000
    case String => 1 <= size < 0x1_0000
    case FixedLengthBytes => size < 0x1_0000
    case Submessage(desc) => ValidDesc(desc)
  }

  predicate TagBefore(d: MsgDesc, i: nat, j: nat)
    requires i < |d.fields| && j < |d.fields|
  {
    d.fields[i].tag < d.fields[j].tag
  }

  /** What the generator guarantees: fewer than 65535 fields in strictly increasing order of
      nonzero 16-bit tags, sizes that fit the kind, declared unions. */
  predicate ValidDesc(d: MsgDesc)
  {
    && |d.fields| < 0xFFFF
    && (forall i, j :: 0 <= i < j < |d.fields| ==> TagBefore(d, i, j))
    && forall i :: 0 <= i < |d.fields| ==>
        && 0 < d.fields[i].tag < 0x1_0000
        && 0 < d.fields[i].arraySize < 0x1_0000
        && (d.fields[i].rule.Oneof? ==> d.fields[i].rule.union < d.unions)
        && ValidKind(d.fields[i].kind, d.fields[i].dataSize)
  }

  /** The first field with the given tag. */
  function FindTag(fields: seq<Field>, tag: nat): (r: Option<nat>)
    ensures r.Some? ==> r.value < |fields| && fields[r.value].tag == tag
    ensures r.None? ==> forall i :: 0 <= i < |fields| ==> fields[i].tag != tag
  {
    if fields == [] then None
    else if fields[0].tag == tag then Some(0)
    else match FindTag(fields[1..], tag)
      case None => None
      case Some(i) => Some(i + 1)
  }

  lemma FindTagUnique(d: MsgDesc, i: nat)
    requires ValidDesc(d) && i < |d.fields|
    ensures FindTag(d.fields, d.fields[i].tag) == Some(i)
  {
    var r := FindTag(d.fields, d.fields[i].tag);
    assert r.Some? && d.fields[r.value].tag == d.fields[i].tag;
    assert r.value < i ==> TagBefore(d, r.value, i);
    assert i < r.value ==> TagBefore(d, i, r.value);
  }

  /** How many required fields precede field i: its bit in the decoder's bitset. */
  function RequiredIndex(fields: seq<Field>, i: nat): nat
    requires i <= |fields|
  {
    if i == 0 then 0
    else RequiredIndex(fields, i - 1) + (if fields[i - 1].rule.Required? then 1 else 0)
  }

  //
  // Default values
  //

  function Zeros(n: nat): seq<byte> {
    seq(n, _ => 0)
  }

  function DefaultValue(f: Field): Value
    decreases f, 0
  {
    match f.kind
    case Bytes | String => Str([])
    case FixedLengthBytes => Str(Zeros(f.dataSize))
    case Submessage(desc) => Sub(DefaultMsg(desc))
    case _ => Num(0)
  }

  function DefaultSlot(f: Field): Slot
    decreases f, 1
  {
    match f.rule
    case Required | Singular => Single(DefaultValue(f))
    case Optional => Flagged(false, DefaultValue(f))
    case Repeated => Items([])
    case Oneof(_) => InUnion
  }

  const NO_MEMBER: Union := Union(0, Num(0))

  /** m has one slot a field and one entry a union. */
  predicate Shaped(d: MsgDesc, m: Msg) {
    |m.slots| == |d.fields| && |m.unions| == d.unions
  }

  /** pb_message_set_to_defaults on a schema without explicit default values */
  function DefaultMsg(d: MsgDesc): (m: Msg)
    ensures Shaped(d, m)
    decreases d
  {
    Msg(seq(|d.fields|, i requires 0 <= i < |d.fields| => DefaultSlot(d.fields[i])),
        seq(d.unions, _ => NO_MEMBER))
  }

  //
  // Well-typed messages
  //

  predicate ValueTyped(f: Field, v: Value)
    decreases f, 0
  {
    match f.kind
    case Bytes => v.Str?
    case String => v.Str? && |v.s| <= f.dataSize && 0 !in v.s
    case FixedLengthBytes => v.Str? && |v.s| == f.dataSize
    case Submessage(desc) => v.Sub? && Typed(desc, v.m)
    case _ => v.Num? && InRange(f.kind, f.dataSize, v.n)
  }

  /** Every element holds a value of the field's C type. */
  predicate AllTyped(f: Field, vs: seq<Value>)
    decreases f, 1
  {
    forall k :: 0 <= k < |vs| ==> ValueTyped(f, vs[k])
  }

  predicate SlotTyped(f: Field, slot: Slot)
    decreases f, 1
  {
    match f.rule
    case Required | Singular => slot.Single? && ValueTyped(f, slot.v)
    case Optional => slot.Flagged? && ValueTyped(f, slot.v)
    case Repeated => slot.Items? && forall k :: 0 <= k < |slot.vs| ==> ValueTyped(f, slot.vs[k])
    case Oneof(_) => slot.InUnion?
  }

  /** Field f is the member that the union now holds. */
  predicate Holds(f: Field, u: nat, un: Union) {
    f.rule == Oneof(u) && un.which == f.tag
  }

  /** The struct's C types, and nothing more: a string may lack its NUL (its length is then
      the whole buffer), a count may exceed the array, a which-tag may be undeclared. */
  predicate Typed(d: MsgDesc, m: Msg)
    decreases d
  {
    && Shaped(d, m)
    && (forall i :: 0 <= i < |d.fields| ==> SlotTyped(d.fields[i], m.slots[i]))
    && forall i, u :: 0 <= i < |d.fields| && 0 <= u < d.unions && Holds(d.fields[i], u, m.unions[u])
        ==> ValueTyped(d.fields[i], m.unions[u].v)
  }

  //
  // Canonical messages
  //

  /** The same value with every unused part of the struct at its default. */
  function CanonValue(f: Field, v: Value): Value
    decreases f, 0
  {
    if f.kind.Submessage? && v.Sub? && Shaped(f.kind.desc, v.m) then Sub(Canon(f.kind.desc, v.m)) else v
  }

  function CanonItems(f: Field, vs: seq<Value>): (r: seq<Value>)
    ensures |r| == |vs|
    decreases f, 1, |vs|
  {
    if vs == [] then [] else CanonItems(f, vs[..|vs| - 1]) + [CanonValue(f, vs[|vs| - 1])]
  }

  function CanonSlot(f: Field, slot: Slot): Slot
    decreases f, 2
  {
    match slot
    case Single(v) => Single(CanonValue(f, v))
    case Flagged(has, v) => Flagged(has, if has then CanonValue(f, v) else DefaultValue(f))
    case Items(vs) => Items(CanonItems(f, vs))
    case InUnion => InUnion
  }

  /** The field a union holds, if its which-tag is declared. */
  function Member(d: MsgDesc, u: nat, un: Union): (r: Option<nat>)
    ensures r.Some? ==> r.value < |d.fields| && Holds(d.fields[r.value], u, un)
  {
    match FindTag(d.fields, un.which)
    case None => None
    case Some(i) => if d.fields[i].rule == Oneof(u) then Some(i) else None
  }

  function CanonUnion(d: MsgDesc, u: nat, un: Union): Union
    decreases d, 0
  {
    match Member(d, u, un)
    case None => NO_MEMBER
    case Some(i) => Union(un.which, CanonValue(d.fields[i], un.v))
  }

  function Canon(d: MsgDesc, m: Msg): (r: Msg)
    requires Shaped(d, m)
    ensures Shaped(d, r)
    decreases d, 1
  {
    Msg(seq(|d.fields|, i requires 0 <= i < |d.fields| => CanonSlot(d.fields[i], m.slots[i])),
        seq(d.unions, u requires 0 <= u < d.unions => CanonUnion(d, u, m.unions[u])))
  }
}
