/** The required fields that a decoder has seen: one bit each, in two 32-bit words. */
module FieldsSeen {
  import opened Bits
  import opened Schema
  import opened DecodeSpec

  /** a | (1 << bit) */
  lemma OneBit(a: nat, bit: nat, width: nat)
    requires a < Pow2(width) && bit < width
    ensures Shl(1, bit) == Pow2(bit) && Or(a, Pow2(bit)) < Pow2(width)
  {
    ShlIsTimes(1, bit);
    Pow2Mono(bit, width);
    OrBound(a, Pow2(bit), width);
  }

  lemma OneBitSet(a: nat, bit: nat, k: nat)
    ensures Bit(Or(a, Pow2(bit)), k) <==> Bit(a, k) || k == bit
  {
    OrBit(a, Pow2(bit), k);
    BitOfPow2(bit, k);
  }

  /** A word of n ones, shifted right */
  lemma {:induction false} ShiftedOnes(n: nat, k: nat)
    requires k <= n
    ensures Shr(Pow2(n) - 1, k) == Pow2(n - k) - 1
  {
    if k > 0 {
      assert (Pow2(n) - 1) / 2 == Pow2(n - 1) - 1;
      ShiftedOnes(n - 1, k - 1);
    }
  }

  /** allbits >> (width - rest) */
  lemma RemainingOnes(width: nat, rest: nat)
    requires rest <= width
    ensures 0 < Pow2(width) && Shr(Not(0, width), width - rest) == Pow2(rest) - 1
  {
    ShiftedOnes(width, width - rest);
  }

  /** If only the low n bits of a word can be set, and all of them are, it is 2^n - 1. */
  lemma AllOnes(a: nat, n: nat)
    requires n <= 32 && a < Pow2(32)
    requires forall k :: 0 <= k < 32 ==> Bit(a, k) == (k < n)
    ensures a == Pow2(n) - 1
  {
    forall k | 0 <= k < 32 ensures Bit(Pow2(n) - 1, k) == Bit(a, k) {
      BitOfMask(n, k);
    }
    Pow2Mono(n, 32);
    BitsExtensional(a, Pow2(n) - 1, 32);
  }

  //
  // Required fields and their bits
  //

  /** The bits marked are those of the required fields seen, as far as they have bits. */
  ghost predicate Mirrors(d: MsgDesc, seen: set<nat>, marks: set<nat>) {
    && (forall i :: 0 <= i < |d.fields| && Tracked(d, i) ==>
          (i in seen <==> RequiredIndex(d.fields, i) in marks))
    && forall k :: k in marks ==> k < RequiredIndex(d.fields, |d.fields|)
  }

  lemma {:induction false} RequiredIndexMono(fields: seq<Field>, i: nat, j: nat)
    requires i <= j <= |fields|
    ensures RequiredIndex(fields, i) <= RequiredIndex(fields, j)
    ensures i < j && fields[i].rule.Required? ==> RequiredIndex(fields, i) < RequiredIndex(fields, j)
  {
    if i + 1 < j {
      RequiredIndexMono(fields, i, j - 1);
    }
  }

  /** Every number below the count is the index of a required field. */
  lemma {:induction false} RequiredFieldOf(fields: seq<Field>, k: nat, n: nat) returns (i: nat)
    requires n <= |fields| && k < RequiredIndex(fields, n)
    ensures i < n && fields[i].rule.Required? && RequiredIndex(fields, i) == k
  {
    if fields[n - 1].rule.Required? && RequiredIndex(fields, n - 1) == k {
      i := n - 1;
    } else {
      i := RequiredFieldOf(fields, k, n - 1);
    }
  }

  /** Seeing required field i marks its bit. */
  lemma MarkMirrors(d: MsgDesc, seen: set<nat>, marks: set<nat>, i: nat)
    requires i < |d.fields| && Mirrors(d, seen, marks)
    ensures var k := RequiredIndex(d.fields, i);
            Mirrors(d, Seen(d, seen, i), if Tracked(d, i) then marks + {k} else marks)
  {
    RequiredIndexMono(d.fields, i, |d.fields|);
    forall j | 0 <= j < |d.fields| && Tracked(d, j) && d.fields[i].rule.Required?
      ensures RequiredIndex(d.fields, j) == RequiredIndex(d.fields, i) ==> j == i
    {
      if i < j { RequiredIndexMono(d.fields, i, j); }
      if j < i { RequiredIndexMono(d.fields, j, i); }
    }
  }

  function Least(a: nat, b: nat): nat {
    if a <= b then a else b
  }

  /** Every required field that has a bit is marked. */
  ghost predicate AllMarked(marks: set<nat>, count: nat) {
    forall k: nat :: k < Least(count, MAX_REQUIRED_FIELDS) ==> k in marks
  }

  /** The test on the bits is the test on the set of fields. */
  lemma BitsTellRequired(d: MsgDesc, seen: set<nat>, marks: set<nat>)
    requires Mirrors(d, seen, marks)
    ensures RequiredSeen(d, seen)
            <==> AllMarked(marks, RequiredIndex(d.fields, |d.fields|))
  {
    var count := RequiredIndex(d.fields, |d.fields|);
    if RequiredSeen(d, seen) {
      forall k: nat | k < Least(count, MAX_REQUIRED_FIELDS) ensures k in marks {
        var i := RequiredFieldOf(d.fields, k, |d.fields|);
        assert Tracked(d, i);
      }
    }
    if AllMarked(marks, count) {
      forall i | 0 <= i < |d.fields| && Tracked(d, i) ensures i in seen {
        RequiredIndexMono(d.fields, i, |d.fields|);
      }
    }
  }

  class SeenBits {
    const bitfield: array<nat>

    ghost predicate Valid()
      reads bitfield
    {
      bitfield.Length == 2 && bitfield[0] < Pow2(32) && bitfield[1] < Pow2(32)
    }

    /** The k-th required field has been seen. */
    ghost predicate Has(k: nat)
      requires Valid()
      reads bitfield
    {
      k < MAX_REQUIRED_FIELDS && Bit(bitfield[k / 32], k % 32)
    }

    ghost function Marks(): set<nat>
      requires Valid()
      reads bitfield
    {
      set k: nat | k < MAX_REQUIRED_FIELDS && Has(k)
    }

    constructor ()
      ensures Valid() && fresh(bitfield) && Marks() == {}
    {
      bitfield := new nat[2];
      new;
      bitfield[0], bitfield[1] := 0, 0;
      forall k: nat ensures !Bit(0, k) {
        ZeroBits(k);
      }
    }

    /** bitfield[i >> 5] |= 1 << (i & 31) */
    method Mark(i: nat)
      requires Valid() && i < MAX_REQUIRED_FIELDS
      modifies bitfield
      ensures Valid() && Marks() == old(Marks()) + {i}
    {
      SetBit(i);
    }

    method SetBit(i: nat)
      requires Valid() && i < MAX_REQUIRED_FIELDS
      modifies bitfield
      ensures Valid() && forall k: nat :: k < MAX_REQUIRED_FIELDS ==> (Has(k) <==> old(Has(k)) || k == i)
    {
      WordAndBit(i);
      var bit, w := And(i, 31), Shr(i, 5);
      var tmp := Shl(1, bit);
      OneBit(bitfield[w], bit, 32);
      WordMarked(bitfield[w], i);
      bitfield[w] := Or(bitfield[w], tmp);
    }

    /** In the word of bit i, that bit and no other is new. */
    lemma WordMarked(a: nat, i: nat)
      ensures forall k: nat :: k / 32 == i / 32 ==>
                (Bit(Or(a, Pow2(i % 32)), k % 32) <==> Bit(a, k % 32) || k == i)
    {
      forall k: nat | k / 32 == i / 32
        ensures Bit(Or(a, Pow2(i % 32)), k % 32) <==> Bit(a, k % 32) || k == i
      {
        OneBitSet(a, i % 32, k % 32);
        SamePlace(k, i);
      }
    }

    lemma SamePlace(k: nat, i: nat)
      ensures k / 32 == i / 32 && k % 32 == i % 32 <==> k == i
    {
    }

    lemma WordAndBit(i: nat)
      ensures And(i, 31) == i % 32 && Shr(i, 5) == i / 32
    {
      assert Pow2(5) == 32;
      LowMaskOfSum(i % 32, i / 32, 5);
      ShrOfSum(i % 32, i / 32, 5);
    }

    lemma WordParts(i: nat)
      ensures i == 32 * Shr(i, 5) + And(i, 31) && And(i, 31) < 32
    {
      WordAndBit(i);
    }

    /** The check at the end of pb_decode_inner: whole words, then the remaining bits. It is
        the set test because no bit beyond the count is ever set. */
    method AllSeen(requiredFieldCount: nat) returns (all: bool)
      requires Valid() && forall k :: k in Marks() ==> k < requiredFieldCount
      ensures all <==> AllMarked(Marks(), requiredFieldCount)
    {
      var count := requiredFieldCount;
      if count == 0 {
        return true;
      }
      if count > MAX_REQUIRED_FIELDS {
        count := MAX_REQUIRED_FIELDS;
      }
      assert forall k: nat :: Has(k) <==> k in Marks();
      all := WordsSeen(count);
      if all {
        forall k: nat | k < count ensures k in Marks() {
          assert Has(k);
        }
      } else {
        ghost var k: nat :| k < count && !Has(k);
        assert k !in Marks();
      }
    }

    method WordsSeen(count: nat) returns (all: bool)
      requires Valid() && count <= MAX_REQUIRED_FIELDS && forall k: nat :: Has(k) ==> k < count
      ensures all <==> forall k: nat :: k < count ==> Has(k)
    {
      WordParts(count);
      var allbits := Not(0, 32);
      var i, words := 0, Shr(count, 5);
      while i < words
        invariant i <= words <= 2 && forall k: nat :: k < 32 * i ==> Has(k)
      {
        WordTest(i, 32);
        if bitfield[i] != allbits {
          return false;
        }
        i := i + 1;
      }
      var rest := And(count, 31);
      if rest != 0 {
        all := RestSeen(words, rest);
      } else {
        all := true;
      }
    }

    /** The remaining bits of the check */
    method RestSeen(words: nat, rest: nat) returns (all: bool)
      requires Valid() && words < 2 && 0 < rest < 32
      requires forall k: nat :: Has(k) ==> k < 32 * words + rest
      ensures all <==> HasAll(words, rest)
    {
      RemainingOnes(32, rest);
      WordTest(words, rest);
      return bitfield[words] == Shr(Not(0, 32), 32 - rest);
    }

    lemma HasInWord(w: nat, j: nat)
      requires Valid() && w < 2 && j < 32
      ensures Has(32 * w + j) <==> Bit(bitfield[w], j)
    {
      assert (32 * w + j) / 32 == w && (32 * w + j) % 32 == j;
    }

    /** The fields of one word, up to its n-th, have all been seen. */
    ghost predicate HasAll(w: nat, n: nat)
      requires Valid()
      reads bitfield
    {
      forall k: nat :: 32 * w <= k < 32 * w + n ==> Has(k)
    }

    /** Word w, of which only the first n bits may be set */
    lemma WordTest(w: nat, n: nat)
      requires Valid() && w < 2 && n <= 32
      requires forall k: nat :: 32 * w + n <= k < 32 * w + 32 ==> !Has(k)
      ensures bitfield[w] == Pow2(n) - 1 <==> HasAll(w, n)
    {
      if bitfield[w] == Pow2(n) - 1 { OnesMeanAll(w, n); }
      if HasAll(w, n) { AllMeanOnes(w, n); }
    }

    lemma AllMeanOnes(w: nat, n: nat)
      requires Valid() && w < 2 && n <= 32 && HasAll(w, n)
      requires forall k: nat :: 32 * w + n <= k < 32 * w + 32 ==> !Has(k)
      ensures bitfield[w] == Pow2(n) - 1
    {
      forall j | 0 <= j < 32 ensures Bit(bitfield[w], j) == (j < n) {
        HasInWord(w, j);
      }
      AllOnes(bitfield[w], n);
    }

    lemma OnesMeanAll(w: nat, n: nat)
      requires Valid() && w < 2 && n <= 32 && bitfield[w] == Pow2(n) - 1
      ensures HasAll(w, n)
    {
      forall k: nat | 32 * w <= k < 32 * w + n ensures Has(k) {
        BitOfMask(n, k - 32 * w);
        HasInWord(w, k - 32 * w);
      }
    }
  }
}
