/** Bitwise operations of unsigned C integers, as functions on natural numbers.
    Each is defined bit by bit, so that every proof about it is linear. */
module BitOps {

  /** One past the largest 64-bit word. */
  const WORD := 0x1_0000_0000_0000_0000

  function Pow2(n: nat): (r: nat)
    ensures r > 0
  {
    if n == 0 then 1 else 2 * Pow2(n - 1)
  }

  lemma Pow2Values()
    ensures Pow2(8) == 0x100 && Pow2(9) == 0x200 && Pow2(12) == 0x1000 && Pow2(15) == 0x8000 && Pow2(16) == 0x10000
  {
    assert Pow2(4) == 0x10;
    assert Pow2(6) == 0x40;
    assert Pow2(8) == 0x100;
    assert Pow2(10) == 0x400;
    assert Pow2(12) == 0x1000;
    assert Pow2(14) == 0x4000;
  }

  /** a << n, on unbounded integers */
  function Shl(a: nat, n: nat): nat
  {
    if n == 0 then a else 2 * Shl(a, n - 1)
  }

  lemma ShlEight(a: nat)
    ensures Shl(a, 8) == 256 * a
  {
    assert Shl(a, 1) == 2 * a;
    assert Shl(a, 2) == 4 * a;
    assert Shl(a, 4) == 4 * Shl(a, 2);
    assert Shl(a, 6) == 4 * Shl(a, 4);
    assert Shl(a, 8) == 4 * Shl(a, 6);
  }

  /** a >> n */
  function Shr(a: nat, n: nat): nat
  {
    if n == 0 then a else Shr(a / 2, n - 1)
  }

  /** The low n bits of a. */
  function Low(a: nat, n: nat): (r: nat)
    ensures r < Pow2(n)
  {
    if n == 0 then 0 else a % 2 + 2 * Low(a / 2, n - 1)
  }

  function BitOr(a: nat, b: nat): nat
    decreases a + b
  {
    if a == 0 && b == 0 then 0
    else (if a % 2 == 1 || b % 2 == 1 then 1 else 0) + 2 * BitOr(a / 2, b / 2)
  }

  function BitAnd(a: nat, b: nat): nat
    decreases a + b
  {
    if a == 0 && b == 0 then 0
    else (if a % 2 == 1 && b % 2 == 1 then 1 else 0) + 2 * BitAnd(a / 2, b / 2)
  }

  function BitXor(a: nat, b: nat): nat
    decreases a + b
  {
    if a == 0 && b == 0 then 0
    else (if a % 2 != b % 2 then 1 else 0) + 2 * BitXor(a / 2, b / 2)
  }

  /** a & ~b */
  function BitAndNot(a: nat, b: nat): nat
  {
    if a == 0 then 0
    else (if a % 2 == 1 && b % 2 == 0 then 1 else 0) + 2 * BitAndNot(a / 2, b / 2)
  }

  /** Bit k of a. */
  predicate BitSet(a: nat, k: nat)
  {
    if k == 0 then a % 2 == 1 else BitSet(a / 2, k - 1)
  }

  // Bits of a result in terms of the bits of the operands.

  lemma {:induction false} ZeroBit(k: nat)
    ensures !BitSet(0, k)
  {
    if k == 0 {
    } else {
      ZeroBit(k - 1);
    }
  }

  lemma {:induction false} Pow2Bit(c: nat, k: nat)
    ensures BitSet(Pow2(c), k) <==> k == c
  {
    if k > 0 && c > 0 {
      Pow2Bit(c - 1, k - 1);
    } else if k > 0 {
      ZeroBit(k - 1);
    }
  }

  lemma OrStep(a: nat, b: nat)
    ensures BitOr(a, b) / 2 == BitOr(a / 2, b / 2)
    ensures BitOr(a, b) % 2 == 1 <==> a % 2 == 1 || b % 2 == 1
  {
    var low := if a % 2 == 1 || b % 2 == 1 then 1 else 0;
    assert BitOr(a, b) == low + 2 * BitOr(a / 2, b / 2);
  }

  lemma {:induction false} OrBit(a: nat, b: nat, k: nat)
    ensures BitSet(BitOr(a, b), k) <==> BitSet(a, k) || BitSet(b, k)
  {
    OrStep(a, b);
    if k == 0 {
    } else {
      OrBit(a / 2, b / 2, k - 1);
    }
  }

  lemma AndStep(a: nat, b: nat)
    ensures BitAnd(a, b) / 2 == BitAnd(a / 2, b / 2)
    ensures BitAnd(a, b) % 2 == 1 <==> a % 2 == 1 && b % 2 == 1
  {
    var low := if a % 2 == 1 && b % 2 == 1 then 1 else 0;
    assert BitAnd(a, b) == low + 2 * BitAnd(a / 2, b / 2);
  }

  lemma {:induction false} AndBit(a: nat, b: nat, k: nat)
    ensures BitSet(BitAnd(a, b), k) <==> BitSet(a, k) && BitSet(b, k)
  {
    AndStep(a, b);
    if k == 0 {
    } else {
      AndBit(a / 2, b / 2, k - 1);
    }
  }

  lemma AndNotStep(a: nat, b: nat)
    ensures BitAndNot(a, b) / 2 == BitAndNot(a / 2, b / 2)
    ensures BitAndNot(a, b) % 2 == 1 <==> a % 2 == 1 && b % 2 == 0
  {
    var low := if a % 2 == 1 && b % 2 == 0 then 1 else 0;
    assert BitAndNot(a, b) == low + 2 * BitAndNot(a / 2, b / 2);
  }

  lemma {:induction false} AndNotBit(a: nat, b: nat, k: nat)
    ensures BitSet(BitAndNot(a, b), k) <==> BitSet(a, k) && !BitSet(b, k)
  {
    AndNotStep(a, b);
    if k == 0 {
    } else {
      AndNotBit(a / 2, b / 2, k - 1);
    }
  }

  lemma {:induction false} ShrBit(a: nat, n: nat, k: nat)
    ensures BitSet(Shr(a, n), k) == BitSet(a, k + n)
  {
    if n == 0 {
    } else {
      ShrBit(a / 2, n - 1, k);
    }
  }

  lemma {:induction false} ShlBit(a: nat, n: nat, k: nat)
    ensures BitSet(Shl(a, n), k) <==> k >= n && BitSet(a, k - n)
  {
    if n == 0 || k == 0 {
    } else {
      ShlBit(a, n - 1, k - 1);
    }
  }

  /** Two numbers with the same bits below n, and none from n on, are equal. */
  lemma {:induction false} SameBits(a: nat, b: nat, n: nat)
    requires a < Pow2(n) && b < Pow2(n)
    requires forall k: nat | k < n :: BitSet(a, k) == BitSet(b, k)
    ensures a == b
  {
    if n == 0 {
    } else {
      forall k: nat | k < n - 1 ensures BitSet(a / 2, k) == BitSet(b / 2, k) {
        assert BitSet(a, k + 1) == BitSet(b, k + 1);
      }
      assert BitSet(a, 0) == BitSet(b, 0);
      SameBits(a / 2, b / 2, n - 1);
    }
  }

  // Arithmetic form of the operations.

  lemma {:induction false} Pow2Monotone(m: nat, n: nat)
    requires m <= n
    ensures Pow2(m) <= Pow2(n)
  {
    if m == n {
    } else {
      Pow2Monotone(m, n - 1);
    }
  }

  lemma {:induction false} OrBound(a: nat, b: nat, n: nat)
    requires a < Pow2(n) && b < Pow2(n)
    ensures BitOr(a, b) < Pow2(n)
  {
    if n == 0 {
    } else {
      OrBound(a / 2, b / 2, n - 1);
    }
  }

  lemma {:induction false} AndBound(a: nat, b: nat)
    ensures BitAnd(a, b) <= b
  {
    if a == 0 && b == 0 {
    } else {
      AndBound(a / 2, b / 2);
    }
  }

  lemma {:induction false} AndNotBound(a: nat, b: nat)
    ensures BitAndNot(a, b) <= a
  {
    if a == 0 {
    } else {
      AndNotBound(a / 2, b / 2);
    }
  }

  lemma {:induction false} OrZero(b: nat)
    ensures BitOr(0, b) == b
  {
    if b == 0 {
    } else {
      OrZero(b / 2);
    }
  }

  /** Or of a low part and a shifted high part is their sum. */
  lemma {:induction false} OrDisjoint(a: nat, b: nat, n: nat)
    requires a < Pow2(n)
    ensures BitOr(a, Shl(b, n)) == a + Shl(b, n)
  {
    if n == 0 {
      OrZero(b);
    } else {
      OrDisjoint(a / 2, b, n - 1);
    }
  }

  lemma {:induction false} AndZero(a: nat)
    ensures BitAnd(a, 0) == 0
  {
    if a == 0 {
    } else {
      AndZero(a / 2);
    }
  }

  /** a & ((1 << n) - 1) keeps the low n bits. */
  lemma {:induction false} AndMask(a: nat, n: nat)
    ensures BitAnd(a, Pow2(n) - 1) == Low(a, n)
  {
    if n == 0 {
      AndZero(a);
    } else {
      AndMask(a / 2, n - 1);
      assert (Pow2(n) - 1) / 2 == Pow2(n - 1) - 1;
      AndStep(a, Pow2(n) - 1);
    }
  }

  lemma XorStep(a: nat, b: nat)
    ensures BitXor(a, b) == (if a % 2 != b % 2 then 1 else 0) + 2 * BitXor(a / 2, b / 2)
  {
  }

  /** Exclusive or with n ones is the complement within n bits. */
  lemma {:induction false} XorOnes(a: nat, n: nat)
    requires a < Pow2(n)
    ensures BitXor(a, Pow2(n) - 1) == Pow2(n) - 1 - a
  {
    if n == 0 {
    } else {
      XorOnes(a / 2, n - 1);
      assert (Pow2(n) - 1) / 2 == Pow2(n - 1) - 1 && (Pow2(n) - 1) % 2 == 1;
      XorStep(a, Pow2(n) - 1);
    }
  }

  lemma {:induction false} LowIdentity(a: nat, n: nat)
    requires a < Pow2(n)
    ensures Low(a, n) == a
  {
    if n == 0 {
    } else {
      LowIdentity(a / 2, n - 1);
    }
  }

  lemma {:induction false} ShlBound(a: nat, n: nat, m: nat)
    requires a < Pow2(m)
    ensures Shl(a, n) < Pow2(m + n)
  {
    if n == 0 {
    } else {
      ShlBound(a, n - 1, m);
    }
  }

  lemma {:induction false} ShrBound(a: nat, n: nat, m: nat)
    requires a < Pow2(m + n)
    ensures Shr(a, n) < Pow2(m)
  {
    if n == 0 {
    } else {
      ShrBound(a / 2, n - 1, m);
    }
  }

  /** Comparing with a left-aligned bound is comparing the shifted value. */
  lemma {:induction false} ShrBelow(k: nat, bound: nat, n: nat)
    ensures k < Shl(bound, n) <==> Shr(k, n) < bound
  {
    if n == 0 {
    } else {
      ShrBelow(k / 2, bound, n - 1);
    }
  }

  /** a & ~((1 << n) - 1) clears the low n bits. */
  lemma {:induction false} AndNotMask(a: nat, n: nat)
    ensures BitAndNot(a, Pow2(n) - 1) == Shl(Shr(a, n), n)
  {
    if n == 0 {
      AndNotZero(a);
    } else {
      AndNotMask(a / 2, n - 1);
      assert (Pow2(n) - 1) / 2 == Pow2(n - 1) - 1 && (Pow2(n) - 1) % 2 == 1;
      AndNotStep(a, Pow2(n) - 1);
    }
  }

  lemma {:induction false} AndNotZero(a: nat)
    ensures BitAndNot(a, 0) == a
  {
    if a == 0 {
    } else {
      AndNotZero(a / 2);
    }
  }

  lemma {:induction false} LowSplit(a: nat, n: nat)
    ensures Low(a, n) + Shl(Shr(a, n), n) == a
  {
    if n == 0 {
    } else {
      LowSplit(a / 2, n - 1);
    }
  }

  // Shifts by a constant as products and quotients.

  lemma ShiftThree(a: nat, n: nat)
    ensures Shl(a, 3 + n) == 8 * Shl(a, n) && Shr(a, 3 + n) == Shr(a / 8, n)
  {
    assert Shl(a, 2 + n) == 4 * Shl(a, n);
    assert Shr(a, 3 + n) == Shr(a / 2, 2 + n);
    assert Shr(a / 2, 2 + n) == Shr(a / 2 / 2 / 2, n);
    assert a / 2 / 2 / 2 == a / 8;
  }

  lemma ShiftSix(a: nat)
    ensures Shl(a, 6) == 64 * a && Shr(a, 6) == a / 64
  {
    ShiftThree(a, 3);
    ShiftThree(a, 0);
    ShiftThree(a / 8, 0);
    assert a / 8 / 8 == a / 64;
  }

  lemma ShiftTwelve(a: nat)
    ensures Shl(a, 12) == 4096 * a && Shr(a, 12) == a / 4096
  {
    ShiftThree(a, 9);
    ShiftThree(a, 6);
    ShiftThree(a / 8, 6);
    ShiftSix(a);
    ShiftSix(a / 8 / 8);
    assert a / 8 / 8 / 64 == a / 4096;
  }
}
