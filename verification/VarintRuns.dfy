/** A varint as the decoders meet it: a run of continuing bytes, and its groups of seven bits. */
module VarintRuns {
  import opened Bits
  import opened Wire
  import Varints

  /** The first i bytes of s continue. */
  predicate Run(s: seq<byte>, i: nat) {
    i <= |s| && forall k :: 0 <= k < i ==> s[k] >= 128
  }

  /** The number in the groups of s, whether they continue or not */
  function Groups(s: seq<byte>): nat {
    if s == [] then 0 else s[0] % 128 + 128 * Groups(s[1..])
  }

  lemma Scale(p: nat, q: nat)
    ensures (128 * p) * q == 128 * (p * q)
  {
  }

  /** One more group */
  lemma {:induction false} GroupsAppend(s: seq<byte>, b: byte)
    ensures Groups(s + [b]) == Groups(s) + Pow128(|s|) * (b % 128)
  {
    if s != [] {
      assert (s + [b])[1..] == s[1..] + [b];
      GroupsAppend(s[1..], b);
      Scale(Pow128(|s| - 1), b % 128);
    }
  }

  lemma {:induction false} GroupsBound(s: seq<byte>)
    ensures Groups(s) < Pow128(|s|)
  {
    if s != [] { GroupsBound(s[1..]); }
  }

  /** A run that ends */
  lemma {:induction false} RunEnds(s: seq<byte>, i: nat)
    requires Run(s, i) && i < |s| && s[i] < 128
    ensures RawVarint(s) == Ok(Groups(s[..i + 1]), s[i + 1..])
  {
    if i == 0 {
      assert s[..1] == [s[0]];
      assert Groups([s[0]]) == s[0] + 128 * Groups([s[0]][1..]);
    } else {
      assert Run(s[1..], i - 1);
      RunEnds(s[1..], i - 1);
      assert s[..i + 1] == [s[0]] + s[1..][..i];
      assert s[..i + 1][1..] == s[1..][..i];
    }
  }

  /** A run that does not end within its first i bytes */
  lemma {:induction false} RunGoesOn(s: seq<byte>, i: nat)
    requires Run(s, i)
    ensures RawVarint(s).Ok? ==> i < |s| - |RawVarint(s).rest|
  {
    if i > 0 {
      assert Run(s[1..], i - 1);
      RunGoesOn(s[1..], i - 1);
    }
  }

  /** Bit positions of the groups */
  lemma {:induction false} GroupPosition(i: nat)
    ensures Pow2(7 * i) == Pow128(i)
  {
    if i > 0 {
      GroupPosition(i - 1);
      var p := Pow2(7 * i - 7);
      assert Pow2(7 * i - 5) == 4 * p;
      assert Pow2(7 * i - 3) == 16 * p;
      assert Pow2(7 * i - 1) == 64 * p;
      assert Pow2(7 * i) == 128 * p;
    }
  }

  //
  // The low 32 bits
  //

  /** Groups from the sixth on do not reach the low 32 bits. */
  lemma {:induction false} HighGroup(k: nat, x: nat)
    requires k >= 5
    ensures exists y: nat :: Pow128(k) * x == TWO32 * y
  {
    if k == 5 {
      assert Pow128(5) == 128 * 128 * 128 * 128 * 128;
      assert Pow128(k) * x == TWO32 * (8 * x);
    } else {
      HighGroup(k - 1, x);
      var y: nat :| Pow128(k - 1) * x == TWO32 * y;
      Scale(Pow128(k - 1), x);
      assert Pow128(k) * x == TWO32 * (128 * y);
    }
  }

  lemma LowWordKept(c: nat, a: nat, y: nat)
    requires c == a + TWO32 * y
    ensures c % TWO32 == a % TWO32
  {
  }

  lemma HighGroupsKeepLowWord(s: seq<byte>, b: byte)
    requires |s| >= 5
    ensures Groups(s + [b]) % TWO32 == Groups(s) % TWO32
  {
    GroupsAppend(s, b);
    HighGroup(|s|, b % 128);
    var y: nat :| Pow128(|s|) * (b % 128) == TWO32 * y;
    LowWordKept(Groups(s + [b]), Groups(s), y);
  }

  lemma FourGroups()
    ensures Pow128(4) == 0x1000_0000
  {
    assert Pow128(4) == 128 * 128 * 128 * 128;
  }

  lemma FifthAppend(s: seq<byte>, b: byte)
    requires |s| == 4
    ensures Groups(s) < 0x1000_0000 && Groups(s + [b]) == Groups(s) + 0x1000_0000 * (b % 128)
  {
    GroupsAppend(s, b);
    GroupsBound(s);
    FourGroups();
  }

  lemma FifthByte(g: nat, b: byte)
    requires g < 0x1000_0000
    ensures (g + 0x1000_0000 * (b % 128)) % TWO32 == g + 0x1000_0000 * (b % 16)
    ensures (g + 0x1000_0000 * (b % 16)) / 0x8000_0000 == b / 8 % 2
  {
    assert b % 128 == b % 16 + 16 * (b / 16 % 8);
    LowWordKept(g + 0x1000_0000 * (b % 128), g + 0x1000_0000 * (b % 16), b / 16 % 8);
    assert b % 16 == b % 8 + 8 * (b / 8 % 2);
  }

  /** The fifth group contributes its low four bits, and the last of them is bit 31. */
  lemma FifthGroup(s: seq<byte>, b: byte)
    requires |s| == 4
    ensures Groups(s) < 0x1000_0000
    ensures Groups(s + [b]) % TWO32 == Groups(s) + 0x1000_0000 * (b % 16)
    ensures (Groups(s) + 0x1000_0000 * (b % 16)) / 0x8000_0000 == b / 8 % 2
  {
    FifthAppend(s, b);
    FifthByte(Groups(s), b);
  }

  //
  // The 32-bit decoder, group by group
  //

  /** What the decoder makes of its i-th byte, i at least 1, after the result so far */
  function WithGroup(result: nat, i: nat, b: byte): Option<nat> {
    if i >= 10 then None
    else if i >= 5 then
      if b % 128 == 0 || (result / 0x8000_0000 != 0 && b == if i < 9 then 0xFF else 1) then Some(result) else None
    else if i == 4 then
      if b / 16 % 8 == 0 || b / 8 % 16 == 15 then Some(result + 0x1000_0000 * (b % 16)) else None
    else Some(result + Pow128(i) * (b % 128))
  }

  /** The result after i bytes that the decoder has let pass */
  ghost predicate Partial32(s: seq<byte>, i: nat, result: nat) {
    && 1 <= i <= |s| && i <= 10
    && Narrow(s, i)
    && result == Groups(s[..i]) % TWO32
    && (i < 5 ==> result == Groups(s[..i]) < Pow128(i))
    && (i >= 5 ==> result / 0x8000_0000 == s[4] / 8 % 2)
  }

  lemma FirstGroup(s: seq<byte>)
    requires s != []
    ensures Partial32(s, 1, s[0] % 128)
  {
    assert s[..1] == [s[0]] && [s[0]][1..] == [];
    assert Groups([s[0]]) == s[0] % 128;
    assert Pow128(1) == 128 * Pow128(0);
  }

  lemma EarlyGroups(p: seq<byte>, b: byte)
    requires |p| < 4
    ensures Groups(p + [b]) == Groups(p) + Pow128(|p|) * (b % 128)
    ensures Groups(p + [b]) < Pow128(|p| + 1) && Groups(p + [b]) < TWO32
  {
    GroupsAppend(p, b);
    GroupsBound(p + [b]);
    Varints.Pow128Mono(|p| + 1, 4);
    FourGroups();
  }

  lemma StillExact(s: seq<byte>, i: nat)
    requires 1 <= i <= |s| && i <= 4 && Groups(s[..i]) < Pow128(i) && Groups(s[..i]) < TWO32
    ensures Partial32(s, i, Groups(s[..i]))
  {
  }

  lemma EarlyGroup32(s: seq<byte>, i: nat, result: nat)
    requires Partial32(s, i, result) && i < |s| && i < 4
    ensures Partial32(s, i + 1, result + Pow128(i) * (s[i] % 128))
  {
    assert s[..i + 1] == s[..i] + [s[i]];
    EarlyGroups(s[..i], s[i]);
    StillExact(s, i + 1);
  }

  lemma NextGroup32(s: seq<byte>, i: nat, result: nat)
    requires Partial32(s, i, result) && i < |s|
    ensures WithGroup(result, i, s[i]).Some? ==> Partial32(s, i + 1, WithGroup(result, i, s[i]).value)
    ensures WithGroup(result, i, s[i]).None? ==> i == 10 || !Narrow(s, i + 1)
  {
    if i < 4 {
      EarlyGroup32(s, i, result);
    } else {
      assert s[..i + 1] == s[..i] + [s[i]];
      if i == 4 { FifthGroup(s[..i], s[i]); } else { HighGroupsKeepLowWord(s[..i], s[i]); }
    }
  }

  /** The decoder stops in time: what it refuses half-way no continuation can mend. */
  lemma Refused32(s: seq<byte>, i: nat)
    requires Run(s, i) && i < |s| && (i == 10 || !Narrow(s, i + 1))
    ensures Varint32(s).Fail?
  {
    RunGoesOn(s, i);
  }

  lemma Accepted32(s: seq<byte>, i: nat, result: nat)
    requires Run(s, i) && i < |s| && s[i] < 128 && Partial32(s, i + 1, result)
    ensures Varint32(s) == Ok(result, s[i + 1..])
  {
    RunEnds(s, i);
  }

  /** The input ends before the varint does. */
  lemma Unfinished(s: seq<byte>)
    requires Run(s, |s|)
    ensures RawVarint(s).Fail? && Varint32(s).Fail? && Varint64(s).Fail?
  {
    RunGoesOn(s, |s|);
  }

  //
  // The 64-bit decoder
  //

  lemma Refused64(s: seq<byte>)
    requires Run(s, 9) && 9 < |s| && s[9] >= 2
    ensures Varint64(s).Fail?
  {
    Varints.Varint64Exact(s);
    RunGoesOn(s, 9);
  }

  lemma Accepted64(s: seq<byte>, i: nat)
    requires Run(s, i) && i < |s| && s[i] < 128 && i <= 9 && (i == 9 ==> s[9] < 2)
    ensures Varint64(s) == Ok(Groups(s[..i + 1]), s[i + 1..])
  {
    Varints.Varint64Exact(s);
    RunEnds(s, i);
  }

  lemma NextGroup64(s: seq<byte>, i: nat)
    requires i < |s|
    ensures Groups(s[..i + 1]) == Groups(s[..i]) + Pow128(i) * (s[i] % 128)
    ensures Groups(s[..i]) < Pow128(i)
  {
    assert s[..i + 1] == s[..i] + [s[i]];
    GroupsAppend(s[..i], s[i]);
    GroupsBound(s[..i]);
  }
}
