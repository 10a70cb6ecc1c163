/** The UTF-8 check of strings (option PB_VALIDATE_UTF8), against section 3 of RFC 3629. */
module Utf8 {
  import opened Bits
  import opened Wire

  //
  // UTF-8
  //

  /** Unicode scalar values, without NUL, which ends the string, and the two noncharacters
      that the check refuses */
  predicate Allowed(c: nat) {
    0 < c < 0x11_0000 && !(0xD800 <= c < 0xE000) && c != 0xFFFE && c != 0xFFFF
  }

  function Tail(c: nat): byte {
    0x80 + c % 0x40
  }

  /** The table in section 3 of RFC 3629 */
  function EncodeScalar(c: nat): (s: seq<byte>)
    requires c < 0x11_0000
    ensures |s| >= 1
  {
    if c < 0x80 then [c]
    else if c < 0x800 then [0xC0 + c / 0x40, Tail(c)]
    else if c < 0x1_0000 then [0xE0 + c / 0x1000, Tail(c / 0x40), Tail(c)]
    else [0xF0 + c / 0x4_0000, Tail(c / 0x1000), Tail(c / 0x40), Tail(c)]
  }

  predicate AllAllowed(cs: seq<nat>) {
    forall k :: 0 <= k < |cs| ==> Allowed(cs[k])
  }

  function EncodeText(cs: seq<nat>): seq<byte>
    requires AllAllowed(cs)
  {
    if cs == [] then []
    else
      assert Allowed(cs[0]);
      EncodeScalar(cs[0]) + EncodeText(cs[1..])
  }

  /** t is a concatenation of encodings. */
  ghost predicate IsUtf8(t: seq<byte>) {
    exists cs :: AllAllowed(cs) && EncodeText(cs) == t
  }

  //
  // One sequence at the front of a text
  //

  predicate IsTail(t: seq<byte>, k: nat) {
    k < |t| && 0x80 <= t[k] < 0xC0
  }

  /** The length of the sequence that t starts with, 0 if it starts with none: the ranges of
      section 4 of RFC 3629, less U+FFFE and U+FFFF */
  function SequenceLength(t: seq<byte>): (n: nat)
    requires t != []
    ensures n <= |t| && n <= 4
  {
    var b := t[0];
    if b == 0 then 0
    else if b < 0x80 then 1
    else if b < 0xC2 then 0
    else if b < 0xE0 then if IsTail(t, 1) then 2 else 0
    else if b < 0xF0 then
      if IsTail(t, 1) && IsTail(t, 2)
         && !(b == 0xE0 && t[1] < 0xA0) && !(b == 0xED && t[1] >= 0xA0)
         && !(b == 0xEF && t[1] == 0xBF && t[2] >= 0xBE) then 3 else 0
    else if b < 0xF5 then
      if IsTail(t, 1) && IsTail(t, 2) && IsTail(t, 3)
         && !(b == 0xF0 && t[1] < 0x90) && !(b == 0xF4 && t[1] >= 0x90) then 4 else 0
    else 0
  }

  /** Six more bits, from a tail byte */
  function Append(high: nat, b: nat): nat
    requires b >= 0x80
  {
    0x40 * high + (b - 0x80)
  }

  function ScalarAt(t: seq<byte>): nat
    requires t != [] && SequenceLength(t) > 0
  {
    var n := SequenceLength(t);
    if n == 1 then t[0]
    else if n == 2 then Append(t[0] - 0xC0, t[1])
    else if n == 3 then Append(Append(t[0] - 0xE0, t[1]), t[2])
    else Append(Append(Append(t[0] - 0xF0, t[1]), t[2]), t[3])
  }

  /** Taking the six bits off again */
  lemma AppendParts(high: nat, b: byte)
    requires 0x80 <= b < 0xC0
    ensures Append(high, b) / 0x40 == high && Tail(Append(high, b)) == b
  {
  }

  lemma Quotients(c: nat)
    ensures c / 0x1000 == c / 0x40 / 0x40 && c / 0x4_0000 == c / 0x40 / 0x40 / 0x40
  {
  }

  lemma ThreeEncode(b0: byte, b1: byte, b2: byte)
    requires 0xE0 <= b0 < 0xF0 && 0x80 <= b1 < 0xC0 && 0x80 <= b2 < 0xC0 && !(b0 == 0xE0 && b1 < 0xA0)
    ensures var c := Append(Append(b0 - 0xE0, b1), b2);
            0x800 <= c < 0x1_0000 && EncodeScalar(c) == [b0, b1, b2]
  {
    var c2 := Append(b0 - 0xE0, b1);
    var c := Append(c2, b2);
    AppendParts(b0 - 0xE0, b1);
    AppendParts(c2, b2);
    Quotients(c);
  }

  lemma FourEncode(b0: byte, b1: byte, b2: byte, b3: byte)
    requires 0xF0 <= b0 < 0xF5 && 0x80 <= b1 < 0xC0 && 0x80 <= b2 < 0xC0 && 0x80 <= b3 < 0xC0
    requires !(b0 == 0xF0 && b1 < 0x90) && !(b0 == 0xF4 && b1 >= 0x90)
    ensures var c := Append(Append(Append(b0 - 0xF0, b1), b2), b3);
            0x1_0000 <= c < 0x11_0000 && EncodeScalar(c) == [b0, b1, b2, b3]
  {
    var c3 := Append(b0 - 0xF0, b1);
    var c2 := Append(c3, b2);
    var c := Append(c2, b3);
    AppendParts(b0 - 0xF0, b1);
    AppendParts(c3, b2);
    AppendParts(c2, b3);
    Quotients(c);
  }

  /** A sequence of the right form encodes an allowed scalar value. */
  lemma SequenceEncodes(t: seq<byte>)
    requires t != [] && SequenceLength(t) > 0
    ensures Allowed(ScalarAt(t)) && EncodeScalar(ScalarAt(t)) == t[..SequenceLength(t)]
  {
    var n := SequenceLength(t);
    if n == 3 {
      ThreeEncode(t[0], t[1], t[2]);
      assert t[..3] == [t[0], t[1], t[2]];
    } else if n == 4 {
      FourEncode(t[0], t[1], t[2], t[3]);
      assert t[..4] == [t[0], t[1], t[2], t[3]];
    }
  }

  /** Conversely, the encoding of an allowed scalar value has the right form. */
  lemma EncodingIsSequence(c: nat, rest: seq<byte>)
    requires Allowed(c)
    ensures SequenceLength(EncodeScalar(c) + rest) == |EncodeScalar(c)|
  {
  }

  //
  // Whole texts
  //

  lemma EmptyText()
    ensures IsUtf8([])
  {
    assert AllAllowed([]) && EncodeText([]) == [];
  }

  lemma TextInFront(c: nat, cs: seq<nat>)
    requires Allowed(c) && AllAllowed(cs)
    ensures AllAllowed([c] + cs) && EncodeText([c] + cs) == EncodeScalar(c) + EncodeText(cs)
  {
    assert ([c] + cs)[1..] == cs;
  }

  lemma SequenceInFront(t: seq<byte>)
    requires t != [] && SequenceLength(t) > 0 && IsUtf8(t[SequenceLength(t)..])
    ensures IsUtf8(t)
  {
    var n, c := SequenceLength(t), ScalarAt(t);
    SequenceEncodes(t);
    var cs :| AllAllowed(cs) && EncodeText(cs) == t[n..];
    TextInFront(c, cs);
    assert t[..n] + t[n..] == t;
  }

  lemma SequenceTakenOff(t: seq<byte>)
    requires t != [] && SequenceLength(t) > 0 && IsUtf8(t)
    ensures IsUtf8(t[SequenceLength(t)..])
  {
    var cs :| AllAllowed(cs) && EncodeText(cs) == t;
    assert cs != [] && Allowed(cs[0]);
    EncodingIsSequence(cs[0], EncodeText(cs[1..]));
    assert t[SequenceLength(t)..] == EncodeText(cs[1..]);
  }

  /** After one good sequence, all depends on the rest. */
  lemma AfterSequence(t: seq<byte>)
    requires t != [] && SequenceLength(t) > 0
    ensures IsUtf8(t) <==> IsUtf8(t[SequenceLength(t)..])
  {
    if IsUtf8(t[SequenceLength(t)..]) { SequenceInFront(t); }
    if IsUtf8(t) { SequenceTakenOff(t); }
  }

  lemma NoSequence(t: seq<byte>)
    requires t != [] && SequenceLength(t) == 0
    ensures !IsUtf8(t)
  {
    if IsUtf8(t) {
      var cs :| AllAllowed(cs) && EncodeText(cs) == t;
      assert cs != [] && Allowed(cs[0]);
      EncodingIsSequence(cs[0], EncodeText(cs[1..]));
    }
  }

  /** Stray and impossible first bytes, overlong forms, surrogates, what lies beyond U+10FFFF, and
      the two noncharacters: no text begins with them. */
  lemma NeverUtf8(t: seq<byte>)
    requires t != []
    requires || t[0] == 0 || 0x80 <= t[0] < 0xC2 || t[0] >= 0xF5
             || (|t| > 1 && ((t[0] == 0xE0 && t[1] < 0xA0) || (t[0] == 0xED && t[1] >= 0xA0)
                             || (t[0] == 0xF0 && t[1] < 0x90) || (t[0] == 0xF4 && t[1] >= 0x90)))
             || (|t| > 2 && t[0] == 0xEF && t[1] == 0xBF && t[2] >= 0xBE)
    ensures !IsUtf8(t)
  {
    NoSequence(t);
  }

  //
  // The check
  //

  /** b & 0xC0 */
  method MaskedC0(b: byte) returns (r: nat)
    ensures r == b - b % 64
  {
    assert Pow2(6) == 64 && Pow2(8) == 256;
    AndHighMask(b, 6, 8);
    ShrOfSum(b % 64, b / 64, 6);
    r := And(b, 0xC0);
  }

  /** b & 0xE0 */
  method MaskedE0(b: byte) returns (r: nat)
    ensures r == b - b % 32
  {
    assert Pow2(5) == 32 && Pow2(8) == 256;
    AndHighMask(b, 5, 8);
    ShrOfSum(b % 32, b / 32, 5);
    r := And(b, 0xE0);
  }

  /** b & 0xF0 */
  method MaskedF0(b: byte) returns (r: nat)
    ensures r == b - b % 16
  {
    assert Pow2(4) == 16 && Pow2(8) == 256;
    AndHighMask(b, 4, 8);
    ShrOfSum(b % 16, b / 16, 4);
    r := And(b, 0xF0);
  }

  /** b & 0xF8 */
  method MaskedF8(b: byte) returns (r: nat)
    ensures r == b - b % 8
  {
    assert Pow2(3) == 8 && Pow2(8) == 256;
    AndHighMask(b, 3, 8);
    ShrOfSum(b % 8, b / 8, 3);
    r := And(b, 0xF8);
  }

  /** b & 0xFE */
  method MaskedFE(b: byte) returns (r: nat)
    ensures r == b - b % 2
  {
    assert Pow2(1) == 2 && Pow2(8) == 256;
    AndHighMask(b, 1, 8);
    ShrOfSum(b % 2, b / 2, 1);
    r := And(b, 0xFE);
  }

  /** The bytes before the NUL, with which the array ends */
  ghost predicate Terminated(s: array<byte>, n: nat)
    reads s
  {
    s.Length == n + 1 && s[n] == 0 && forall k :: 0 <= k < n ==> s[k] != 0
  }

  /** The branch for a lead byte of two */
  method TwoBytes(s: array<byte>, i: nat, ghost n: nat) returns (ok: bool)
    requires Terminated(s, n) && i < n && 0xC0 <= s[i] < 0xE0
    ensures ok <==> SequenceLength(s[i..n]) == 2
    ensures !ok ==> SequenceLength(s[i..n]) == 0
  {
    ghost var t := s[i..n];
    assert t[0] == s[i] && (i + 1 < n ==> t[1] == s[i + 1]);
    var x := MaskedC0(s[i + 1]);
    var y := MaskedFE(s[i]);
    ok := !(x != 0x80 || y == 0xC0);
  }

  /** The branch for a lead byte of three; each byte is read only after the one before it
      proved not to be the NUL. */
  method ThreeBytes(s: array<byte>, i: nat, ghost n: nat) returns (ok: bool)
    requires Terminated(s, n) && i < n && 0xE0 <= s[i] < 0xF0
    ensures ok <==> SequenceLength(s[i..n]) == 3
    ensures !ok ==> SequenceLength(s[i..n]) == 0
  {
    ghost var t := s[i..n];
    assert t[0] == s[i] && (i + 1 < n ==> t[1] == s[i + 1]) && (i + 2 < n ==> t[2] == s[i + 2]);
    var x := MaskedC0(s[i + 1]);
    if x != 0x80 {
      return false;
    }
    x := MaskedC0(s[i + 2]);
    if x != 0x80 {
      return false;
    }
    x := MaskedE0(s[i + 1]);
    if (s[i] == 0xE0 && x == 0x80) || (s[i] == 0xED && x == 0xA0) {
      return false;
    }
    x := MaskedFE(s[i + 2]);
    ok := !(s[i] == 0xEF && s[i + 1] == 0xBF && x == 0xBE);
  }

  /** The branch for a lead byte of four */
  method FourBytes(s: array<byte>, i: nat, ghost n: nat) returns (ok: bool)
    requires Terminated(s, n) && i < n && 0xF0 <= s[i] < 0xF8
    ensures ok <==> SequenceLength(s[i..n]) == 4
    ensures !ok ==> SequenceLength(s[i..n]) == 0
  {
    ghost var t := s[i..n];
    assert t[0] == s[i] && (i + 1 < n ==> t[1] == s[i + 1]);
    assert (i + 2 < n ==> t[2] == s[i + 2]) && (i + 3 < n ==> t[3] == s[i + 3]);
    var x := MaskedC0(s[i + 1]);
    if x != 0x80 {
      return false;
    }
    x := MaskedC0(s[i + 2]);
    if x != 0x80 {
      return false;
    }
    x := MaskedC0(s[i + 3]);
    if x != 0x80 {
      return false;
    }
    x := MaskedF0(s[i + 1]);
    ok := !((s[i] == 0xF0 && x == 0x80) || (s[i] == 0xF4 && s[i + 1] > 0x8F) || s[i] > 0xF4);
  }

  /** One turn of the loop of pb_validate_utf8: the length of the sequence at s, or 0 */
  method Sequence(s: array<byte>, i: nat, ghost n: nat) returns (len: nat)
    requires Terminated(s, n) && i < n
    ensures len == SequenceLength(s[i..n])
  {
    if s[i] < 0x80 {
      return 1;
    }
    len := 0;
    var e0 := MaskedE0(s[i]);
    var f0 := MaskedF0(s[i]);
    var f8 := MaskedF8(s[i]);
    var ok;
    if e0 == 0xC0 {
      ok := TwoBytes(s, i, n);
      len := if ok then 2 else 0;
    } else if f0 == 0xE0 {
      ok := ThreeBytes(s, i, n);
      len := if ok then 3 else 0;
    } else if f8 == 0xF0 {
      ok := FourBytes(s, i, n);
      len := if ok then 4 else 0;
    }
  }

  /** One turn of the loop of pb_validate_utf8 */
  lemma TextStep(t: seq<byte>, i: nat)
    requires i < |t|
    ensures var len := SequenceLength(t[i..]);
            if len == 0 then !IsUtf8(t[i..]) else (IsUtf8(t[i..]) <==> IsUtf8(t[i + len..]))
  {
    var len := SequenceLength(t[i..]);
    if len == 0 {
      NoSequence(t[i..]);
    } else {
      AfterSequence(t[i..]);
      assert t[i..][len..] == t[i + len..];
    }
  }

  /** pb_validate_utf8, for a string whose array ends with its NUL: exactly the concatenations
      of encodings are accepted, and nothing behind the NUL is read. */
  method ValidateUtf8(s: array<byte>, ghost n: nat) returns (ok: bool)
    requires Terminated(s, n)
    ensures ok <==> IsUtf8(s[..n])
  {
    ghost var t := s[..n];
    var i := 0;
    while s[i] != 0
      invariant i <= n && (IsUtf8(t) <==> IsUtf8(t[i..]))
      decreases n - i
    {
      var len := Sequence(s, i, n);
      assert s[i..n] == t[i..];
      TextStep(t, i);
      if len == 0 {
        return false;
      }
      i := i + len;
    }
    assert t[n..] == [];
    EmptyText();
    return true;
  }
}
