/** Bitwise operators of C on unsigned integers of any width, bit by bit, and the arithmetic
    they amount to when an operand is a mask, a single bit or shares no bit with the other. */
module Bits {
  function Pow2(n: nat): (r: nat)
    ensures r >= 1
  {
    if n == 0 then 1 else 2 * Pow2(n - 1)
  }

  /** a & b */
  function And(a: nat, b: nat): nat
  {
    if a == 0 || b == 0 then 0
    else 2 * And(a / 2, b / 2) + (if a % 2 == 1 && b % 2 == 1 then 1 else 0)
  }

  /** a | b */
  function Or(a: nat, b: nat): nat
    decreases a + b
  {
    if a == 0 then b else if b == 0 then a
    else 2 * Or(a / 2, b / 2) + (if a % 2 == 1 || b % 2 == 1 then 1 else 0)
  }

  /** a << n, before any truncation */
  function Shl(a: nat, n: nat): nat {
    if n == 0 then a else 2 * Shl(a, n - 1)
  }

  /** a >> n */
  function Shr(a: nat, n: nat): nat {
    if n == 0 then a else Shr(a / 2, n - 1)
  }

  /** ~a on a word of the given width */
  function Not(a: nat, width: nat): nat
    requires a < Pow2(width)
  {
    Pow2(width) - 1 - a
  }

  /** The low k bits of a: a modulo 2^k */
  function Low(a: nat, k: nat): (r: nat)
    ensures r <= a
  {
    if k == 0 then 0 else a % 2 + 2 * Low(a / 2, k - 1)
  }

  /** Is bit k of a set? */
  predicate Bit(a: nat, k: nat) {
    if k == 0 then a % 2 == 1 else Bit(a / 2, k - 1)
  }

  lemma {:induction false} Pow2Mono(m: nat, n: nat)
    requires m <= n
    ensures Pow2(m) <= Pow2(n)
    ensures m < n ==> 2 * Pow2(m) <= Pow2(n)
    decreases n - m
  {
    if m < n { Pow2Mono(m, n - 1); }
  }

  lemma {:induction false} LowSmall(a: nat, k: nat)
    requires a < Pow2(k)
    ensures Low(a, k) == a
  {
    if k > 0 { LowSmall(a / 2, k - 1); }
  }

  lemma {:induction false} LowBound(a: nat, k: nat)
    ensures Low(a, k) < Pow2(k)
  {
    if k > 0 { LowBound(a / 2, k - 1); }
  }

  lemma {:induction false} ZeroBits(k: nat)
    ensures Low(0, k) == 0 && !Bit(0, k) && Shr(0, k) == 0
  {
    if k > 0 { ZeroBits(k - 1); }
  }

  /** a & (2^k - 1) keeps the low k bits. */
  lemma {:induction false} AndLowMask(a: nat, k: nat)
    ensures And(a, Pow2(k) - 1) == Low(a, k)
  {
    ZeroBits(k);
    if k > 0 && a > 0 {
      AndLowMask(a / 2, k - 1);
      assert (Pow2(k) - 1) / 2 == Pow2(k - 1) - 1 && (Pow2(k) - 1) % 2 == 1;
    }
  }

  lemma AndEven(a: nat, h: nat)
    ensures And(a, 2 * h) == 2 * And(a / 2, h)
  {
    assert 2 * h / 2 == h && 2 * h % 2 == 0;
  }

  /** a & (2^n - 2^k) keeps the bits from k up to n. */
  lemma {:induction false} AndMiddleMask(a: nat, k: nat, n: nat)
    requires k <= n
    ensures Pow2(k) <= Pow2(n)
    ensures And(a, Pow2(n) - Pow2(k)) == Low(a, n) - Low(a, k)
  {
    Pow2Mono(k, n);
    if k == 0 {
      AndLowMask(a, n);
    } else if k == n {
      assert And(a, 0) == 0;
    } else {
      AndMiddleMask(a / 2, k - 1, n - 1);
      AndEven(a, Pow2(n - 1) - Pow2(k - 1));
    }
  }

  /** a & (2^n - 2^k) clears the low k bits of an n-bit word. */
  lemma AndHighMask(a: nat, k: nat, n: nat)
    requires k <= n && a < Pow2(n)
    ensures Pow2(k) <= Pow2(n)
    ensures And(a, Pow2(n) - Pow2(k)) == a - Low(a, k)
  {
    AndMiddleMask(a, k, n);
    LowSmall(a, n);
  }

  lemma {:induction false} LowOfShl(a: nat, k: nat)
    ensures Low(Shl(a, k), k) == 0
  {
    if k > 0 { LowOfShl(a, k - 1); }
  }

  /** Operands that share no bit: a | b == a + b. */
  lemma {:induction false} OrDisjoint(a: nat, b: nat, k: nat)
    requires a < Pow2(k) && Low(b, k) == 0
    ensures Or(a, b) == a + b
  {
    if a != 0 && b != 0 && k != 0 {
      OrDisjoint(a / 2, b / 2, k - 1);
    }
  }

  /** The same with the operands the other way round. */
  lemma {:induction false} OrDisjointHigh(a: nat, b: nat, k: nat)
    requires Low(a, k) == 0 && b < Pow2(k)
    ensures Or(a, b) == a + b
  {
    if a != 0 && b != 0 && k != 0 {
      OrDisjointHigh(a / 2, b / 2, k - 1);
    }
  }

  /** Or sets exactly the bits of its operands. */
  lemma {:induction false} OrBit(a: nat, b: nat, k: nat)
    ensures Bit(Or(a, b), k) == (Bit(a, k) || Bit(b, k))
  {
    ZeroBits(k);
    if a != 0 && b != 0 && k != 0 {
      assert Or(a, b) / 2 == Or(a / 2, b / 2);
      OrBit(a / 2, b / 2, k - 1);
    }
  }

  lemma {:induction false} OrBound(a: nat, b: nat, n: nat)
    requires a < Pow2(n) && b < Pow2(n)
    ensures Or(a, b) < Pow2(n)
  {
    if a != 0 && b != 0 { OrBound(a / 2, b / 2, n - 1); }
  }

  /** A power of two has one bit. */
  lemma {:induction false} BitOfPow2(j: nat, k: nat)
    ensures Bit(Pow2(j), k) == (j == k)
  {
    if k == 0 {
    } else if j == 0 {
      ZeroBits(k - 1);
    } else {
      BitOfPow2(j - 1, k - 1);
    }
  }

  /** The word 2^n - 1 has exactly the bits below n. */
  lemma {:induction false} BitOfMask(n: nat, k: nat)
    ensures Bit(Pow2(n) - 1, k) == (k < n)
  {
    if n == 0 {
      ZeroBits(k);
    } else if k > 0 {
      BitOfMask(n - 1, k - 1);
      assert (Pow2(n) - 1) / 2 == Pow2(n - 1) - 1;
    }
  }

  /** An n-bit word is determined by its bits. */
  lemma {:induction false} BitsExtensional(a: nat, b: nat, n: nat)
    requires a < Pow2(n) && b < Pow2(n)
    requires forall k :: 0 <= k < n ==> Bit(a, k) == Bit(b, k)
    ensures a == b
  {
    if n > 0 {
      assert Bit(a, 0) == Bit(b, 0);
      forall k | 0 <= k < n - 1 ensures Bit(a / 2, k) == Bit(b / 2, k) {
        assert Bit(a, k + 1) == Bit(b, k + 1);
      }
      BitsExtensional(a / 2, b / 2, n - 1);
    }
  }

  lemma Double(p: nat, q: nat)
    ensures (2 * p) * q == 2 * (p * q)
  {
  }

  /** A word is its low k bits and the rest, shifted. */
  lemma {:induction false} Split(a: nat, k: nat)
    ensures a == Low(a, k) + Pow2(k) * Shr(a, k)
    ensures Low(a, k) < Pow2(k)
  {
    LowBound(a, k);
    if k > 0 {
      Split(a / 2, k - 1);
      Double(Pow2(k - 1), Shr(a, k));
    }
  }

  lemma {:induction false} ShlIsTimes(a: nat, k: nat)
    ensures Shl(a, k) == Pow2(k) * a
  {
    if k > 0 {
      ShlIsTimes(a, k - 1);
      Double(Pow2(k - 1), a);
    }
  }

  /** Shifting out the low k bits */
  lemma {:induction false} ShrOfSum(lo: nat, q: nat, k: nat)
    requires lo < Pow2(k)
    ensures Shr(lo + Pow2(k) * q, k) == q && Low(lo + Pow2(k) * q, k) == lo
  {
    if k > 0 {
      Double(Pow2(k - 1), q);
      var h := Pow2(k - 1) * q;
      assert (lo + 2 * h) / 2 == lo / 2 + h && (lo + 2 * h) % 2 == lo % 2;
      ShrOfSum(lo / 2, q, k - 1);
    }
  }

  lemma LowMaskOfSum(x: nat, hi: nat, k: nat)
    requires x < Pow2(k)
    ensures And(x + Pow2(k) * hi, Pow2(k) - 1) == x
  {
    ShrOfSum(x, hi, k);
    AndLowMask(x + Pow2(k) * hi, k);
  }

  /** Reading a field of k bits that stands above s bits */
  lemma ReadField(w: nat, lo: nat, q: nat, x: nat, hi: nat, s: nat, k: nat)
    requires lo < Pow2(s) && x < Pow2(k)
    requires w == lo + Pow2(s) * q && q == x + Pow2(k) * hi
    ensures Shr(w, s) == q && Low(w, s) == lo
    ensures And(Shr(w, s), Pow2(k) - 1) == x
  {
    ShrOfSum(lo, q, s);
    LowMaskOfSum(x, hi, k);
  }
}
