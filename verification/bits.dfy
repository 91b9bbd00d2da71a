/**
 * Bit operations on the platform's 64-bit `unsigned long`, modelled on natural
 * numbers: `>>` is division by a power of two, and `&`, `|`, `a & ~b` are
 * defined bit by bit from the least significant end.
 */
module Bits {
  import Arith

  const WordBits: nat := 64
  const WordModulus: nat := 0x1_0000_0000_0000_0000

  /** An `unsigned long` value. */
  type Word = w: nat | w < WordModulus

  function Pow2(n: nat): (r: nat)
    ensures r > 0
  {
    if n == 0 then 1 else 2 * Pow2(n - 1)
  }

  /** `x << s` */
  function Shl(x: nat, s: nat): nat
  {
    if s == 0 then x else 2 * Shl(x, s - 1)
  }

  /** `x >> s`: `s` halvings. */
  function Shr(x: nat, s: nat): nat
  {
    if s == 0 then x else Shr(x / 2, s - 1)
  }

  /** Bit `i` of `x`, 0 or 1. */
  function Bit(x: nat, i: nat): nat
  {
    Shr(x, i) % 2
  }

  /** `a & b` */
  function And(a: nat, b: nat): nat
    decreases a
  {
    if a == 0 || b == 0 then 0 else 2 * And(a / 2, b / 2) + (if a % 2 == 1 && b % 2 == 1 then 1 else 0)
  }

  /** `a | b` */
  function Or(a: nat, b: nat): nat
    decreases a + b
  {
    if a == 0 then b
    else if b == 0 then a
    else 2 * Or(a / 2, b / 2) + (if a % 2 == 1 || b % 2 == 1 then 1 else 0)
  }

  /** `a & ~b`: the bits of `a` that are clear in `b`. */
  function AndNot(a: nat, b: nat): nat
    decreases a
  {
    if a == 0 then 0 else 2 * AndNot(a / 2, b / 2) + (if a % 2 == 1 && b % 2 == 0 then 1 else 0)
  }

  /** Number of set bits. A non-zero value has at least one. */
  function PopCount(x: nat): (r: nat)
    ensures x > 0 ==> r > 0
  {
    if x == 0 then 0 else x % 2 + PopCount(x / 2)
  }

  /** Index of the least significant set bit of a non-zero value. */
  function LowestSetBit(m: nat): (s: nat)
    requires m > 0
    ensures Bit(m, s) == 1
    ensures forall i: nat :: i < s ==> Bit(m, i) == 0
  {
    BitShiftAll(m);
    if m % 2 == 1 then 0 else 1 + LowestSetBit(m / 2)
  }

  // ---------------------------------------------------------------------------
  // Shifts and single bits

  lemma Pow2Monotone(m: nat, n: nat)
    requires m <= n
    ensures Pow2(m) <= Pow2(n)
  {
    if m < n {
      Pow2Monotone(m, n - 1);
    }
  }

  lemma {:induction false} Pow2Add(m: nat, n: nat)
    ensures Pow2(m + n) == Pow2(m) * Pow2(n)
    decreases m
  {
    if m > 0 {
      Pow2Add(m - 1, n);
    }
  }

  /** Shifting right by one more place is shifting the halved value. */
  lemma {:induction false} ShrStep(x: nat, s: nat)
    ensures Shr(x, s + 1) == Shr(x / 2, s)
  {
  }

  /** `x >> s` is the quotient by `2^s`. */
  lemma {:induction false} ShrIsQuotient(x: nat, s: nat)
    ensures Shr(x, s) == x / Pow2(s)
    decreases s
  {
    if s > 0 {
      ShrIsQuotient(x / 2, s - 1);
      Arith.ModDouble(x, Pow2(s - 1));
    }
  }

  /** A right shift preserves the order of its operands. */
  lemma {:induction false} ShrMonotone(a: nat, b: nat, s: nat)
    requires a <= b
    ensures Shr(a, s) <= Shr(b, s)
    decreases s
  {
    if s > 0 {
      ShrMonotone(a / 2, b / 2, s - 1);
    }
  }

  lemma BitShift(x: nat, i: nat)
    requires 0 < i
    ensures Bit(x, i) == Bit(x / 2, i - 1)
  {
    ShrStep(x, i - 1);
  }

  lemma BitShiftAll(x: nat)
    ensures Bit(x, 0) == x % 2
    ensures forall i: nat :: 0 < i ==> Bit(x, i) == Bit(x / 2, i - 1)
  {
    forall i: nat | 0 < i
      ensures Bit(x, i) == Bit(x / 2, i - 1)
    {
      ShrStep(x, i - 1);
    }
  }

  /** A value below `2^n` has no set bit at position `n` or above. */
  lemma {:induction false} BitAboveWidth(x: nat, n: nat, i: nat)
    requires x < Pow2(n) && n <= i
    ensures Bit(x, i) == 0
    decreases n
  {
    if n == 0 {
      BitOfZero(i);
    } else {
      BitShift(x, i);
      BitAboveWidth(x / 2, n - 1, i - 1);
    }
  }

  /** The lowest set bit of an `unsigned long` is one of its 64 bit positions. */
  lemma LowestSetBitInWord(m: Word)
    requires m > 0
    ensures LowestSetBit(m) < WordBits
  {
    WordModulusIsPow2();
    if LowestSetBit(m) >= WordBits {
      BitAboveWidth(m, WordBits, LowestSetBit(m));
    }
  }

  lemma WordModulusIsPow2()
    ensures Pow2(WordBits) == WordModulus
  {
    Pow2Values();
    Pow2Add(32, 32);
  }

  // ---------------------------------------------------------------------------
  // Properties of `&`

  lemma {:induction false} AndBelowRight(a: nat, b: nat)
    ensures And(a, b) <= b
    decreases a
  {
    if a != 0 && b != 0 {
      AndBelowRight(a / 2, b / 2);
    }
  }

  lemma {:induction false} AndBelowLeft(a: nat, b: nat)
    ensures And(a, b) <= a
    decreases a
  {
    if a != 0 && b != 0 {
      AndBelowLeft(a / 2, b / 2);
    }
  }

  lemma {:induction false} AndSelf(m: nat)
    ensures And(m, m) == m
    decreases m
  {
    if m != 0 {
      AndSelf(m / 2);
    }
  }

  /** Masking twice with the same mask is masking once. */
  lemma {:induction false} AndIdempotent(p: nat, m: nat)
    ensures And(And(p, m), m) == And(p, m)
    decreases p
  {
    if p != 0 && m != 0 {
      AndIdempotent(p / 2, m / 2);
      var c := And(p, m);
      assert c / 2 == And(p / 2, m / 2) && c % 2 == (if p % 2 == 1 && m % 2 == 1 then 1 else 0);
    }
  }

  /** A mask whose lowest bit is clear selects the bits of the halved value, moved up one place. */
  lemma AndEvenMask(a: nat, b: nat)
    ensures And(a, 2 * b) == 2 * And(a / 2, b)
  {
  }

  /** A mask whose lowest bit is set keeps the pixel's lowest bit. */
  lemma AndOddMask(a: nat, b: nat)
    requires b % 2 == 1
    ensures And(a, b) == 2 * And(a / 2, b / 2) + a % 2
  {
  }

  lemma LowOnesHalf(n: nat)
    requires n > 0
    ensures (Pow2(n) - 1) % 2 == 1 && (Pow2(n) - 1) / 2 == Pow2(n - 1) - 1
  {
  }

  /** Masking with `(2^n) - 1` keeps the low `n` bits. */
  lemma {:induction false} AndLowOnes(p: nat, n: nat)
    ensures And(p, Pow2(n) - 1) == p % Pow2(n)
    decreases n
  {
    if n > 0 {
      LowOnesHalf(n);
      AndOddMask(p, Pow2(n) - 1);
      AndLowOnes(p / 2, n - 1);
      Arith.ModDouble(p, Pow2(n - 1));
    }
  }

  /** Masking with `field << k` is shifting down by `k`, masking with `field`, and shifting back. */
  lemma {:induction false} AndShiftedMask(p: nat, field: nat, k: nat)
    ensures And(p, Shl(field, k)) == Shl(And(Shr(p, k), field), k)
    decreases k
  {
    if k > 0 {
      AndEvenMask(p, Shl(field, k - 1));
      AndShiftedMask(p / 2, field, k - 1);
      ShrStep(p, k - 1);
    }
  }

  /** Shifting left then right by the same amount loses nothing. */
  lemma {:induction false} ShrShl(x: nat, k: nat)
    ensures Shr(Shl(x, k), k) == x
    decreases k
  {
    if k > 0 {
      ShrStep(Shl(x, k), k - 1);
      ShrShl(x, k - 1);
    }
  }

  // ---------------------------------------------------------------------------
  // Bitwise characterisations of `|`, `a & ~b` and low-bit masks

  lemma {:induction false} OrBit(a: nat, b: nat, i: nat)
    ensures Bit(Or(a, b), i) == (if Bit(a, i) == 1 || Bit(b, i) == 1 then 1 else 0)
    decreases i
  {
    if a == 0 {
      BitOfZero(i);
    } else if b == 0 {
      BitOfZero(i);
    } else if i == 0 {
      assert Bit(Or(a, b), 0) == Or(a, b) % 2;
    } else {
      BitShift(a, i);
      BitShift(b, i);
      var c := Or(a, b);
      assert c / 2 == Or(a / 2, b / 2);
      BitShift(c, i);
      OrBit(a / 2, b / 2, i - 1);
    }
  }

  lemma {:induction false} AndNotBit(a: nat, b: nat, i: nat)
    ensures Bit(AndNot(a, b), i) == (if Bit(a, i) == 1 && Bit(b, i) == 0 then 1 else 0)
    decreases i
  {
    if a == 0 {
      BitOfZero(i);
    } else if i == 0 {
      assert Bit(AndNot(a, b), 0) == AndNot(a, b) % 2;
    } else {
      BitShift(a, i);
      BitShift(b, i);
      var c := AndNot(a, b);
      assert c / 2 == AndNot(a / 2, b / 2);
      BitShift(c, i);
      AndNotBit(a / 2, b / 2, i - 1);
    }
  }

  lemma {:induction false} AndNotBelow(a: nat, b: nat)
    ensures AndNot(a, b) <= a
    decreases a
  {
    if a != 0 {
      AndNotBelow(a / 2, b / 2);
    }
  }

  /** `(1 << n) - 1` has exactly the bits below `n` set. */
  lemma {:induction false} LowOnesBit(n: nat, i: nat)
    ensures Bit(Pow2(n) - 1, i) == (if i < n then 1 else 0)
    decreases n
  {
    BitShiftAll(Pow2(n) - 1);
    if n == 0 {
      BitOfZero(i);
    } else {
      assert (Pow2(n) - 1) / 2 == Pow2(n - 1) - 1;
      if i > 0 {
        LowOnesBit(n - 1, i - 1);
      }
    }
  }

  lemma {:induction false} BitOfZero(i: nat)
    ensures Bit(0, i) == 0
  {
    ShrOfZero(i);
  }

  lemma BitsOfZero()
    ensures forall i: nat :: Bit(0, i) == 0
  {
    forall i: nat
      ensures Bit(0, i) == 0
    {
      BitOfZero(i);
    }
  }

  lemma {:induction false} ShrOfZero(s: nat)
    ensures Shr(0, s) == 0
  {
    if s > 0 {
      ShrOfZero(s - 1);
    }
  }

  // ---------------------------------------------------------------------------
  // Disjoint bit fields

  /** A few powers of two used by concrete pixel formats. */
  lemma Pow2Values()
    ensures Pow2(8) == 0x100 && Pow2(11) == 0x800 && Pow2(16) == 0x1_0000
    ensures Pow2(24) == 0x100_0000 && Pow2(32) == 0x1_0000_0000
  {
    assert Pow2(3) == 8;
    assert Pow2(8) == 256;
    Pow2Add(8, 3);
    Pow2Add(8, 8);
    Pow2Add(16, 8);
    Pow2Add(16, 16);
  }

  /** A value with no bits below `k` and a value below `2^k` share no set bit. */
  lemma {:induction false} DisjointFields(a: nat, b: nat, k: nat)
    requires a % Pow2(k) == 0 && b < Pow2(k)
    ensures And(a, b) == 0 && And(b, a) == 0
    ensures Or(a, b) == a + b
    decreases k
  {
    if k > 0 && a != 0 && b != 0 {
      Arith.ModDouble(a, Pow2(k - 1));
      DisjointFields(a / 2, b / 2, k - 1);
    }
  }

  lemma {:induction false} AndNotZero(a: nat)
    ensures AndNot(a, 0) == a
    decreases a
  {
    if a != 0 {
      AndNotZero(a / 2);
    }
  }

  /** `a & ~((1 << n) - 1)` clears the low `n` bits. */
  lemma {:induction false} AndNotLowOnes(a: nat, n: nat)
    ensures AndNot(a, Pow2(n) - 1) == a - a % Pow2(n)
    decreases n
  {
    if n == 0 {
      AndNotZero(a);
    } else if a != 0 {
      LowOnesHalf(n);
      AndNotLowOnes(a / 2, n - 1);
      Arith.ModDouble(a, Pow2(n - 1));
      assert AndNot(a, Pow2(n) - 1) == 2 * AndNot(a / 2, Pow2(n - 1) - 1);
      assert a == 2 * (a / 2) + a % 2;
    }
  }
}
