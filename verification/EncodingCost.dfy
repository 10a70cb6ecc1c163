/** How often an encoder looks at each value of a message. */
module EncodingCost {
  import opened Wire
  import opened Schema
  import opened EncodeSpec

  /** The way from a message to one of its values, or on into a submessage: a field, and the
      element of an array, 0 otherwise */
  datatype Hop = Hop(field: nat, element: nat)

  /** A value that is watched: the way that is left to it, or None if it is somewhere else.
      One hop further, the rest of the way is left if it begins with that hop. */
  function Under(goal: Option<seq<Hop>>, hop: Hop): Option<seq<Hop>> {
    if goal.Some? && goal.value != [] && goal.value[0] == hop then Some(goal.value[1..]) else None
  }

  function Hops(goal: Option<seq<Hop>>): nat {
    if goal.Some? then |goal.value| else 0
  }

  //
  // Is the watched value there? It is present, not a submessage, and not in a packed array.
  //

  predicate ValueStands(f: Field, v: Value, goal: Option<seq<Hop>>)
    decreases f, 0
  {
    if !f.kind.Submessage? then goal == Some([])
    else v.Sub? && Shaped(f.kind.desc, v.m) && Stands(f.kind.desc, v.m, goal)
  }

  /** Among the first n elements of field i */
  predicate ItemStands(f: Field, i: nat, vs: seq<Value>, n: nat, goal: Option<seq<Hop>>)
    requires n <= |vs|
    decreases f, 1
  {
    && goal.Some? && goal.value != []
    && goal.value[0].field == i && goal.value[0].element < n
    && ValueStands(f, vs[goal.value[0].element], Some(goal.value[1..]))
  }

  predicate FieldStands(d: MsgDesc, m: Msg, i: nat, goal: Option<seq<Hop>>)
    requires Shaped(d, m) && i < |d.fields|
    decreases d, 0
  {
    var f, rest := d.fields[i], Under(goal, Hop(i, 0));
    match (f.rule, m.slots[i])
    case (Required, Single(v)) => ValueStands(f, v, rest)
    case (Singular, Single(v)) => !ZeroValue(f, v) && ValueStands(f, v, rest)
    case (Optional, Flagged(has, v)) => has && ValueStands(f, v, rest)
    case (Repeated, Items(vs)) => !Packable(f.kind) && ItemStands(f, i, vs, |vs|, goal)
    case (Oneof(u), InUnion) =>
      u < d.unions && m.unions[u].which == f.tag && ValueStands(f, m.unions[u].v, rest)
    case _ => false
  }

  /** Among the first n fields */
  predicate StandsBefore(d: MsgDesc, m: Msg, n: nat, goal: Option<seq<Hop>>)
    requires Shaped(d, m) && n <= |d.fields|
    decreases d, 1
  {
    && goal.Some? && goal.value != [] && goal.value[0].field < n
    && FieldStands(d, m, goal.value[0].field, goal)
  }

  predicate Stands(d: MsgDesc, m: Msg, goal: Option<seq<Hop>>)
    requires Shaped(d, m)
    decreases d, 2
  {
    StandsBefore(d, m, |d.fields|, goal)
  }

  //
  // A sizing pass looks at the value once. A writing pass looks at it once for each submessage
  // around it, to size that, and once to write it: as many times as there are hops to it.
  //

  function Visits(sizing: bool, stands: bool, hops: nat): nat {
    if !stands then 0 else if sizing then 1 else hops
  }

  lemma ValueOnWay(f: Field, v: Value, goal: Option<seq<Hop>>)
    requires ValueStands(f, v, goal)
    ensures goal.Some?
  {
    if f.kind.Submessage? {
      assert StandsBefore(f.kind.desc, v.m, |f.kind.desc.fields|, goal);
    }
  }

  /** The value is in field i only if its way begins there. */
  lemma {:induction false} FieldOnWay(d: MsgDesc, m: Msg, i: nat, goal: Option<seq<Hop>>)
    requires Shaped(d, m) && i < |d.fields| && FieldStands(d, m, i, goal)
    ensures goal.Some? && goal.value != [] && goal.value[0].field == i
  {
    var f, rest := d.fields[i], Under(goal, Hop(i, 0));
    match (f.rule, m.slots[i])
    case (Repeated, Items(vs)) =>
    case (Required, Single(v)) => ValueOnWay(f, v, rest);
    case (Singular, Single(v)) => ValueOnWay(f, v, rest);
    case (Optional, Flagged(has, v)) => ValueOnWay(f, v, rest);
    case (Oneof(u), InUnion) => ValueOnWay(f, m.unions[u].v, rest);
    case _ =>
  }

  /** In a field that is not repeated the way is one hop to its value and the rest. */
  lemma OneHop(f: Field, i: nat, v: Value, goal: Option<seq<Hop>>, sizing: bool)
    ensures var rest := Under(goal, Hop(i, 0));
            Visits(sizing, ValueStands(f, v, rest), Hops(rest) + 1)
            == Visits(sizing, ValueStands(f, v, rest), Hops(goal))
  {
    var rest := Under(goal, Hop(i, 0));
    if ValueStands(f, v, rest) { ValueOnWay(f, v, rest); }
  }

  /** One more field adds the visits to the values in it. */
  lemma FieldCounted(d: MsgDesc, m: Msg, i: nat, goal: Option<seq<Hop>>, sizing: bool)
    requires Shaped(d, m) && i < |d.fields|
    ensures Visits(sizing, StandsBefore(d, m, i + 1, goal), Hops(goal))
            == Visits(sizing, StandsBefore(d, m, i, goal), Hops(goal))
               + Visits(sizing, FieldStands(d, m, i, goal), Hops(goal))
  {
    if FieldStands(d, m, i, goal) { FieldOnWay(d, m, i, goal); }
  }

  /** One more element adds the visits to the values in it. */
  lemma ItemCounted(f: Field, i: nat, vs: seq<Value>, k: nat, goal: Option<seq<Hop>>, sizing: bool)
    requires k < |vs|
    ensures var rest := Under(goal, Hop(i, k));
            Visits(sizing, ItemStands(f, i, vs, k + 1, goal), Hops(goal))
            == Visits(sizing, ItemStands(f, i, vs, k, goal), Hops(goal))
               + Visits(sizing, ValueStands(f, vs[k], rest), Hops(rest) + 1)
  {
    var rest := Under(goal, Hop(i, k));
    if ValueStands(f, vs[k], rest) { ValueOnWay(f, vs[k], rest); }
    if goal.Some? && goal.value != [] && goal.value[0].element == k && goal.value[0].field == i {
      assert goal.value[0] == Hop(i, k);
    }
  }
}
