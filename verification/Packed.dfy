/** A repeated number field may arrive packed or not, cut into pieces in any way. */
module Packed {
  import opened Wire
  import opened Schema
  import opened Numbers
  import opened EncodeSpec
  import opened DecodeSpec
  import opened FieldSteps

  /** A piece of a repeated field on the wire: a packed run, possibly empty, or one element
      with its own tag */
  datatype Piece = Run(vs: seq<Value>) | Element(v: Value)

  function ValuesOf(p: Piece): seq<Value> {
    match p
    case Run(vs) => vs
    case Element(v) => [v]
  }

  function AllValues(ps: seq<Piece>): seq<Value> {
    if ps == [] then [] else ValuesOf(ps[0]) + AllValues(ps[1..])
  }

  /** The values fit the field's C type, and a run has a 32-bit length. */
  predicate ValidPiece(f: Field, p: Piece) {
    && AllTyped(f, ValuesOf(p))
    && (p.Run? ==> EncodePacked(f, p.vs).Some? && |EncodePacked(f, p.vs).value| < TWO32)
  }

  predicate ValidPieces(f: Field, ps: seq<Piece>) {
    forall k :: 0 <= k < |ps| ==> ValidPiece(f, ps[k])
  }

  function PieceWireType(f: Field, p: Piece): nat {
    if p.Run? then WT_STRING else WireType(f.kind)
  }

  function PieceContent(f: Field, p: Piece): seq<byte>
    requires Packable(f.kind) && ValidPiece(f, p)
  {
    match p
    case Run(vs) => Delimited(EncodePacked(f, vs).value)
    case Element(v) =>
      assert ValueTyped(f, ValuesOf(p)[0]);
      EncodeNum(f.kind, f.dataSize, v.n)
  }

  function PieceBytes(f: Field, p: Piece): seq<byte>
    requires Packable(f.kind) && ValidPiece(f, p)
  {
    TagBytes(f.tag, PieceWireType(f, p)) + PieceContent(f, p)
  }

  function PiecesBytes(f: Field, ps: seq<Piece>): seq<byte>
    requires Packable(f.kind) && ValidPieces(f, ps)
  {
    if ps == [] then [] else PieceBytes(f, ps[0]) + PiecesBytes(f, ps[1..])
  }

  /** Is there room for more values behind n others? No values always fit. */
  predicate Room(f: Field, n: nat, more: nat) {
    more == 0 || n + more <= f.arraySize
  }

  /** A packed run is appended if there is room, and refused otherwise. */
  lemma {:induction false} RunOutcome(f: Field, pre: seq<Value>, vs: seq<Value>)
    requires Packable(f.kind) && ValidKind(f.kind, f.dataSize) && AllTyped(f, vs)
    requires EncodePacked(f, vs).Some?
    ensures DecodePacked(f, pre, EncodePacked(f, vs).value)
            == if Room(f, |pre|, |vs|) then Some(pre + vs) else None
    decreases |vs|
  {
    if vs == [] {
      assert pre + vs == pre;
    } else {
      assert ValueTyped(f, vs[0]);
      var n, tail := vs[0].n, vs[1..];
      var rest := EncodePacked(f, tail).value;
      NumRoundTrip(f.kind, f.dataSize, n, rest);
      if |pre| < f.arraySize {
        RunOutcome(f, pre + [Num(n)], tail);
        assert pre + [Num(n)] + tail == pre + vs;
      }
    }
  }

  /** The state with more values in field i */
  function Appended(st: State, i: nat, vs: seq<Value>): State
    requires i < |st.m.slots|
  {
    State(st.m.(slots := st.m.slots[i := Items(ItemsIn(st.m.slots[i]) + vs)]), st.seen)
  }

  predicate RepeatedNumbers(d: MsgDesc, i: nat) {
    ValidDesc(d) && i < |d.fields| && d.fields[i].rule.Repeated? && Packable(d.fields[i].kind)
  }

  lemma PieceApplies(f: Field, vs0: seq<Value>, p: Piece, y: seq<byte>)
    requires Packable(f.kind) && ValidKind(f.kind, f.dataSize) && ValidPiece(f, p)
    ensures ApplyRepeated(f, vs0, PieceWireType(f, p), PieceContent(f, p) + y)
            == if Room(f, |vs0|, |ValuesOf(p)|) then Ok(vs0 + ValuesOf(p), y) else Fail
  {
    match p
    case Run(vs) =>
      PayloadOfDelimited(EncodePacked(f, vs).value, y);
      RunOutcome(f, vs0, vs);
    case Element(v) =>
      assert ValueTyped(f, ValuesOf(p)[0]);
      NumRoundTrip(f.kind, f.dataSize, v.n, y);
  }

  /** One piece: its values are appended, or there is no room for them. */
  lemma PieceStep(d: MsgDesc, st: State, i: nat, p: Piece, y: seq<byte>)
    requires RepeatedNumbers(d, i) && Shaped(d, st.m) && ValidPiece(d.fields[i], p)
    ensures Step(d, st, PieceBytes(d.fields[i], p) + y)
            == if Room(d.fields[i], |ItemsIn(st.m.slots[i])|, |ValuesOf(p)|)
               then Next(Appended(st, i, ValuesOf(p)), y) else Bad
  {
    var f := d.fields[i];
    var c := PieceContent(f, p) + y;
    assert PieceBytes(f, p) + y == TagBytes(f.tag, PieceWireType(f, p)) + c;
    KnownStep(d, st, i, PieceWireType(f, p), c);
    PieceApplies(f, ItemsIn(st.m.slots[i]), p, y);
  }

  lemma AppendedTwice(st: State, i: nat, a: seq<Value>, b: seq<Value>)
    requires i < |st.m.slots|
    ensures Appended(Appended(st, i, a), i, b) == Appended(st, i, a + b)
  {
    var vs := ItemsIn(st.m.slots[i]);
    assert vs + a + b == vs + (a + b);
    assert st.m.slots[i := Items(vs + a)][i := Items(vs + a + b)] == st.m.slots[i := Items(vs + (a + b))];
  }

  /** Whatever the cutting, the decoder appends the values in order if they all fit, and
      fails otherwise. */
  lemma {:induction false} CuttingIrrelevant(
    d: MsgDesc, st: State, i: nat, ps: seq<Piece>, y: seq<byte>, nullTerm: bool)
    requires RepeatedNumbers(d, i) && Shaped(d, st.m) && st.m.slots[i].Items? && ValidPieces(d.fields[i], ps)
    ensures Loop(d, st, PiecesBytes(d.fields[i], ps) + y, nullTerm)
            == if Room(d.fields[i], |st.m.slots[i].vs|, |AllValues(ps)|)
               then Loop(d, Appended(st, i, AllValues(ps)), y, nullTerm) else Fail
    decreases |ps|
  {
    var f := d.fields[i];
    if ps == [] {
      assert PiecesBytes(f, ps) + y == y;
      assert st.m.slots[i].vs + [] == st.m.slots[i].vs;
      assert st.m.slots[i := st.m.slots[i]] == st.m.slots;
    } else {
      var p, tail := ps[0], ps[1..];
      assert ValidPiece(f, p);
      var s := PieceBytes(f, p) + (PiecesBytes(f, tail) + y);
      assert PiecesBytes(f, ps) + y == s;
      PieceStep(d, st, i, p, PiecesBytes(f, tail) + y);
      LoopStep(d, st, s, nullTerm);
      if Room(f, |st.m.slots[i].vs|, |ValuesOf(p)|) {
        var next := Appended(st, i, ValuesOf(p));
        CuttingIrrelevant(d, next, i, tail, y, nullTerm);
        AppendedTwice(st, i, ValuesOf(p), AllValues(tail));
      }
    }
  }

  lemma OnePiece(f: Field, p: Piece)
    requires Packable(f.kind) && ValidPiece(f, p)
    ensures ValidPieces(f, [p]) && AllValues([p]) == ValuesOf(p) && PiecesBytes(f, [p]) == PieceBytes(f, p)
  {
    var ps := [p];
    assert ps[1..] == [] && ps[0] == p;
    assert AllValues(ps) == ValuesOf(p) + AllValues(ps[1..]) == ValuesOf(p) + [];
    assert PiecesBytes(f, ps) == PieceBytes(f, p) + PiecesBytes(f, ps[1..]) == PieceBytes(f, p) + [];
  }

  /** encode_array writes one packed run with the exact length. */
  lemma ArrayIsOneRun(f: Field, vs: seq<Value>)
    requires Packable(f.kind) && ValidKind(f.kind, f.dataSize) && AllTyped(f, vs)
    requires 0 < |vs| <= f.arraySize < 0x1_0000
    ensures ValidPieces(f, [Run(vs)]) && AllValues([Run(vs)]) == vs
    ensures EncodeArray(f, vs) == Some(PiecesBytes(f, [Run(vs)]))
  {
    PackedSmall(f, vs);
    OnePiece(f, Run(vs));
  }

  lemma {:induction false} AllValuesTyped(f: Field, ps: seq<Piece>)
    requires ValidPieces(f, ps)
    ensures AllTyped(f, AllValues(ps))
  {
    if ps != [] {
      assert ValidPiece(f, ps[0]);
      AllValuesTyped(f, ps[1..]);
    }
  }

  /** Every cutting of an array decodes to what the encoder's own form of it decodes to. */
  lemma CuttingsDecodeAlike(d: MsgDesc, m: Msg, i: nat, ps: seq<Piece>)
    requires RepeatedNumbers(d, i) && Shaped(d, m) && m.slots[i].Items? && ValidPieces(d.fields[i], ps)
    requires 0 < |AllValues(ps)| <= d.fields[i].arraySize
    ensures EncodeArray(d.fields[i], AllValues(ps)).Some?
    ensures DecodeInto(d, m, PiecesBytes(d.fields[i], ps))
            == DecodeInto(d, m, EncodeArray(d.fields[i], AllValues(ps)).value)
  {
    var f, vs := d.fields[i], AllValues(ps);
    AllValuesTyped(f, ps);
    ArrayIsOneRun(f, vs);
    var a, b := PiecesBytes(f, ps), PiecesBytes(f, [Run(vs)]);
    CuttingIrrelevant(d, State(m, {}), i, ps, [], false);
    CuttingIrrelevant(d, State(m, {}), i, [Run(vs)], [], false);
    assert a + [] == a && b + [] == b;
  }
}
