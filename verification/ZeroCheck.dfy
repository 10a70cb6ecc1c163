/** The encoder's check whether a proto3 singular field is zero, and need not be written. */
module ZeroCheck {
  import opened Wire
  import opened Schema
  import opened Numbers
  import opened EncodeSpec
  import opened Iteration
  import opened Binding

  /** The loop over the bytes of a number in memory, least significant first */
  method ZeroBytes(f: Field, n: int) returns (zero: bool)
    requires InRange(f.kind, f.dataSize, n)
    ensures zero <==> n == 0
  {
    var rest := if n < 0 then n + 2 * HalfRange(f.dataSize) else n;
    var i := 0;
    while i < f.dataSize
      invariant i <= f.dataSize && 0 <= rest < Pow256(f.dataSize - i)
      invariant rest == 0 <==> n == 0
    {
      if rest % 256 != 0 {
        return false;
      }
      rest := rest / 256;
      i := i + 1;
    }
    return true;
  }

  /** The part of pb_check_proto3_default_value for singular fields, by their kind */
  method ZeroContent(f: Field, sub: Option<Table>, v: Value, ghost outer: Table) returns (zero: bool)
    requires ValidKind(f.kind, f.dataSize) && SubTableOf(f, sub, outer) && ValueTyped(f, v)
    ensures zero <==> ZeroValue(f, v)
    decreases outer, 0
  {
    match f.kind
    case Bool | Varint | UVarint | SVarint | Fixed32 | Fixed64 => zero := ZeroBytes(f, v.n);
    case Bytes => zero := |v.s| == 0;
    case String => zero := |v.s| == 0;
    case FixedLengthBytes => zero := f.dataSize == 0;
    case Submessage(_) => zero := ZeroMessage(sub.value, v.m);
  }

  /** pb_check_proto3_default_value for field i */
  method ZeroField(t: Table, m: Msg, i: nat, sub: Option<Table>) returns (zero: bool)
    requires ValidTable(t) && Typed(t.desc, m) && i < |t.desc.fields| && SubTableOf(t.desc.fields[i], sub, t)
    ensures zero <==> ZeroSlot(t.desc, m, i)
    decreases t, 1
  {
    var f := t.desc.fields[i];
    assert SlotTyped(f, m.slots[i]);
    match f.rule
    case Required => zero := false;
    case Repeated => zero := |m.slots[i].vs| == 0;
    case Oneof(u) => zero := m.unions[u].which == 0;
    case Optional => zero := !m.slots[i].has;
    case Singular => zero := ZeroContent(f, sub, m.slots[i].v, t);
  }

  /** The field at which the iterator stands */
  method ZeroCurrent(t: Table, m: Msg, iter: FieldIter) returns (zero: bool)
    requires ValidTable(t) && Typed(t.desc, m)
    requires iter.Loaded() && iter.entries == t.entries && iter.index < |t.desc.fields|
    ensures zero <==> ZeroSlot(t.desc, m, iter.index)
    decreases t, 2
  {
    var sub := CurrentSubTable(t, iter);
    zero := ZeroField(t, m, iter.index, sub);
  }

  /** The loop over the fields of a submessage */
  method ZeroMessage(t: Table, m: Msg) returns (zero: bool)
    requires ValidTable(t) && Typed(t.desc, m)
    ensures zero <==> ZeroMsg(t.desc, m)
    decreases t, 3
  {
    if |t.desc.fields| == 0 {
      return true;
    }
    var iter := new FieldIter.Begin(Bind(t.entries), t.entries);
    ghost var i := 0;
    var more := true;
    while more
      invariant fresh(iter) && iter.Loaded() && iter.entries == t.entries
      invariant if more then i == iter.index < |t.desc.fields| else i == |t.desc.fields|
      invariant forall j :: 0 <= j < i ==> ZeroSlot(t.desc, m, j)
      decreases |t.desc.fields| - i
    {
      zero := ZeroCurrent(t, m, iter);
      if !zero {
        return;
      }
      more := iter.Next();
      i := i + 1;
    }
    return true;
  }
}
