/** What pb_decode makes of a byte string, as a function that consumes it. */
module DecodeSpec {
  import opened Wire
  import opened Schema
  import opened Numbers

  const MAX_REQUIRED_FIELDS: nat := 64

  //
  // Length-delimited payloads and unknown fields
  //

  /** pb_make_string_substream, with the substream's bytes as the value */
  function Payload(s: seq<byte>): (r: Parsed<seq<byte>>)
    ensures r.Ok? ==> |r.value| + |r.rest| < |s|
  {
    match Varint32(s)
    case Fail => Fail
    case Ok(n, rest) => Take(rest, n)
  }

  function Skip(s: seq<byte>, n: nat): (r: Parsed<()>)
    ensures r.Ok? ==> |r.rest| + n == |s|
  {
    match Take(s, n)
    case Fail => Fail
    case Ok(_, rest) => Ok((), rest)
  }

  /** pb_skip_field */
  function SkipField(wt: nat, s: seq<byte>): (r: Parsed<()>)
    ensures r.Ok? ==> |r.rest| < |s|
  {
    if wt == WT_VARINT then
      match RawVarint(s)
      case Fail => Fail
      case Ok(_, rest) => Ok((), rest)
    else if wt == WT_64BIT then Skip(s, 8)
    else if wt == WT_STRING then
      match Payload(s)
      case Fail => Fail
      case Ok(_, rest) => Ok((), rest)
    else if wt == WT_32BIT then Skip(s, 4)
    else Fail
  }

  /** The C string in a buffer: what precedes the first NUL */
  function UpToNul(s: seq<byte>): (r: seq<byte>)
    ensures |r| <= |s| && 0 !in r
  {
    if s == [] || s[0] == 0 then [] else [s[0]] + UpToNul(s[1..])
  }

  //
  // Fields
  //

  /** The message a submessage field decodes into */
  function MsgIn(desc: MsgDesc, v: Value): (m: Msg)
    ensures Shaped(desc, m)
  {
    if v.Sub? && Shaped(desc, v.m) then v.m else DefaultMsg(desc)
  }

  /** decode_basic_field for one value of the field's own wire type; prior is what the field
      held, which only a submessage builds on. */
  function DecodeBasic(f: Field, wt: nat, prior: Value, s: seq<byte>): (r: Parsed<Value>)
    ensures r.Ok? ==> |r.rest| < |s|
    decreases |s|, 0
  {
    if wt != WireType(f.kind) || !ValidKind(f.kind, f.dataSize) then Fail
    else if Packable(f.kind) then
      match DecodeNum(f.kind, f.dataSize, s)
      case Fail => Fail
      case Ok(n, rest) => Ok(Num(n), rest)
    else
      match Payload(s)
      case Fail => Fail
      case Ok(p, rest) =>
        match DecodePayload(f, prior, p)
        case None => Fail
        case Some(v) => Ok(v, rest)
  }

  /** pb_dec_bytes, pb_dec_string, pb_dec_fixed_length_bytes and pb_dec_submessage */
  function DecodePayload(f: Field, prior: Value, p: seq<byte>): Option<Value>
    decreases |p|, 6
  {
    match f.kind
    case Bytes => if |p| + 2 <= f.dataSize then Some(Str(p)) else None
    case String => if |p| + 1 <= f.dataSize then Some(Str(UpToNul(p))) else None
    case FixedLengthBytes =>
      if |p| == 0 then Some(Str(Zeros(f.dataSize)))
      else if |p| == f.dataSize then Some(Str(p))
      else None
    case Submessage(desc) =>
      (match DecodeInner(desc, MsgIn(desc, prior), p, false)
       case Fail => None
       case Ok(m, _) => Some(Sub(m)))
    case _ => None
  }

  /** The elements of a packed array, appended to vs until the payload is used up */
  function DecodePacked(f: Field, vs: seq<Value>, p: seq<byte>): Option<seq<Value>>
    decreases |p|
  {
    if p == [] then Some(vs)
    else if |vs| >= f.arraySize || !Packable(f.kind) || !ValidKind(f.kind, f.dataSize) then None
    else match DecodeNum(f.kind, f.dataSize, p)
      case Fail => None
      case Ok(n, rest) => DecodePacked(f, vs + [Num(n)], rest)
  }

  function Held(f: Field, slot: Slot): Value {
    match slot
    case Single(v) => v
    case Flagged(_, v) => v
    case _ => DefaultValue(f)
  }

  /** What a union member starts from: the old content if the member stays the same */
  function HeldInUnion(f: Field, un: Union): Value {
    if un.which == f.tag then un.v else DefaultValue(f)
  }

  function ItemsIn(slot: Slot): seq<Value> {
    if slot.Items? then slot.vs else []
  }

  /** decode_static_field for field i */
  function ApplyField(d: MsgDesc, m: Msg, i: nat, wt: nat, s: seq<byte>): (r: Parsed<Msg>)
    requires Shaped(d, m) && i < |d.fields|
    ensures r.Ok? ==> |r.rest| < |s| && Shaped(d, r.value)
    decreases |s|, 2
  {
    var f := d.fields[i];
    match f.rule
    case Required | Singular =>
      (match DecodeBasic(f, wt, Held(f, m.slots[i]), s)
       case Fail => Fail
       case Ok(v, rest) => Ok(m.(slots := m.slots[i := Single(v)]), rest))
    case Optional =>
      (match DecodeBasic(f, wt, Held(f, m.slots[i]), s)
       case Fail => Fail
       case Ok(v, rest) => Ok(m.(slots := m.slots[i := Flagged(true, v)]), rest))
    case Repeated =>
      (match ApplyRepeated(f, ItemsIn(m.slots[i]), wt, s)
       case Fail => Fail
       case Ok(vs, rest) => Ok(m.(slots := m.slots[i := Items(vs)]), rest))
    case Oneof(u) =>
      if u >= d.unions then Fail else
      (match DecodeBasic(f, wt, HeldInUnion(f, m.unions[u]), s)
       case Fail => Fail
       case Ok(v, rest) => Ok(m.(unions := m.unions[u := Union(f.tag, v)]), rest))
  }

  function ApplyRepeated(f: Field, vs: seq<Value>, wt: nat, s: seq<byte>): (r: Parsed<seq<Value>>)
    ensures r.Ok? ==> |r.rest| < |s|
    decreases |s|, 1
  {
    if wt == WT_STRING && Packable(f.kind) then
      match Payload(s)
      case Fail => Fail
      case Ok(p, rest) =>
        match DecodePacked(f, vs, p)
        case None => Fail
        case Some(vs') => Ok(vs', rest)
    else if |vs| >= f.arraySize then Fail
    else
      match DecodeBasic(f, wt, DefaultValue(f), s)
      case Fail => Fail
      case Ok(v, rest) => Ok(vs + [v], rest)
  }

  //
  // Messages
  //

  /** The message so far and the required fields seen. */
  datatype State = State(m: Msg, seen: set<nat>)

  datatype StepResult = Bad | ZeroTag(rest: seq<byte>) | Next(st: State, rest: seq<byte>)

  function Seen(d: MsgDesc, seen: set<nat>, i: nat): set<nat>
    requires i < |d.fields|
  {
    if d.fields[i].rule.Required? then seen + {i} else seen
  }

  /** One turn of the loop of pb_decode_inner: a tag and the field it announces */
  function Step(d: MsgDesc, st: State, s: seq<byte>): (r: StepResult)
    requires Shaped(d, st.m)
    ensures !r.Bad? ==> |r.rest| < |s|
    ensures r.Next? ==> Shaped(d, r.st.m)
    decreases |s|, 3
  {
    match Varint32(s)
    case Fail => Bad
    case Ok(v, s1) =>
      if v / 8 == 0 then ZeroTag(s1)
      else
        match FindTag(d.fields, v / 8)
        case None =>
          (match SkipField(v % 8, s1)
           case Fail => Bad
           case Ok(_, rest) => Next(st, rest))
        case Some(i) =>
          (match ApplyField(d, st.m, i, v % 8, s1)
           case Fail => Bad
           case Ok(m, rest) => Next(State(m, Seen(d, st.seen, i)), rest))
  }

  /** What follows a nonzero tag */
  function AfterTag(d: MsgDesc, st: State, wt: nat, tag: nat, s: seq<byte>): StepResult
    requires Shaped(d, st.m)
  {
    match FindTag(d.fields, tag)
    case None => (match SkipField(wt, s) case Fail => Bad case Ok(_, rest) => Next(st, rest))
    case Some(i) =>
      (match ApplyField(d, st.m, i, wt, s)
       case Fail => Bad
       case Ok(m, rest) => Next(State(m, Seen(d, st.seen, i)), rest))
  }

  lemma StepAfterTag(d: MsgDesc, st: State, s: seq<byte>)
    requires Shaped(d, st.m) && Varint32(s).Ok? && Varint32(s).value / 8 != 0
    ensures Step(d, st, s) == AfterTag(d, st, Varint32(s).value % 8, Varint32(s).value / 8, Varint32(s).rest)
  {
  }

  function Loop(d: MsgDesc, st: State, s: seq<byte>, nullTerm: bool): (r: Parsed<State>)
    requires Shaped(d, st.m)
    ensures r.Ok? ==> |r.rest| <= |s| && Shaped(d, r.value.m)
    decreases |s|, 4
  {
    if s == [] then Ok(st, s)
    else match Step(d, st, s)
      case Bad => Fail
      case ZeroTag(rest) => if nullTerm then Ok(st, rest) else Fail
      case Next(st', rest) => Loop(d, st', rest, nullTerm)
  }

  /** Field i is required and has a bit in the decoder's bitset. */
  predicate Tracked(d: MsgDesc, i: nat)
    requires i < |d.fields|
  {
    d.fields[i].rule.Required? && RequiredIndex(d.fields, i) < MAX_REQUIRED_FIELDS
  }

  /** Every required field among the first 64 has been seen. */
  predicate RequiredSeen(d: MsgDesc, seen: set<nat>) {
    forall i :: 0 <= i < |d.fields| && Tracked(d, i) ==> i in seen
  }

  /** pb_decode_inner, merging into m */
  function DecodeInner(d: MsgDesc, m: Msg, s: seq<byte>, nullTerm: bool): (r: Parsed<Msg>)
    requires Shaped(d, m)
    ensures r.Ok? ==> |r.rest| <= |s| && Shaped(d, r.value)
    decreases |s|, 5
  {
    match Loop(d, State(m, {}), s, nullTerm)
    case Fail => Fail
    case Ok(st, rest) => if RequiredSeen(d, st.seen) then Ok(st.m, rest) else Fail
  }

  /** pb_decode with the PB_DECODE_NOINIT flag, on exactly the bytes of s */
  function DecodeInto(d: MsgDesc, m: Msg, s: seq<byte>): (r: Option<Msg>)
    requires Shaped(d, m)
    ensures r.Some? ==> Shaped(d, r.value)
  {
    match DecodeInner(d, m, s, false)
    case Fail => None
    case Ok(m', _) => Some(m')
  }

  /** pb_decode on exactly the bytes of s */
  function Decode(d: MsgDesc, s: seq<byte>): (r: Option<Msg>)
    ensures r.Some? ==> Shaped(d, r.value)
  {
    DecodeInto(d, DefaultMsg(d), s)
  }

  /** What pb_decode_inner makes of a message and its input */
  function Outcome(d: MsgDesc, m: Msg, noInit: bool, s: seq<byte>, nullTerm: bool): Parsed<Msg>
    requires Shaped(d, m)
  {
    DecodeInner(d, if noInit then m else DefaultMsg(d), s, nullTerm)
  }

  /** What pb_decode_ex makes of its input, and what it leaves */
  function OutcomeEx(d: MsgDesc, m: Msg, noInit: bool, delimited: bool, nullTerm: bool, s: seq<byte>): Parsed<Msg>
    requires Shaped(d, m)
  {
    if !delimited then Outcome(d, m, noInit, s, nullTerm)
    else
      match Payload(s)
      case Fail => Fail
      case Ok(p, rest) =>
        match Outcome(d, m, noInit, p, nullTerm)
        case Fail => Fail
        case Ok(m', _) => Ok(m', rest)
  }
}
