/** Positional numerals: the digits both integer printers produce, and their value. */
module Numerals {
  import opened BitOps

  function DigitChar(d: nat, upper: bool): char
    requires d < 36
  {
    if d < 10 then '0' + d as char else (if upper then 'A' else 'a') + (d - 10) as char
  }

  function DigitValue(c: char): nat
  {
    if '0' <= c <= '9' then (c - '0') as nat
    else if 'a' <= c <= 'z' then (c - 'a') as nat + 10
    else if 'A' <= c <= 'Z' then (c - 'A') as nat + 10
    else 0
  }

  predicate IsDigit(c: char)
  {
    '0' <= c <= '9'
  }

  predicate IsNumeral(c: char)
  {
    '0' <= c <= '9' || 'a' <= c <= 'z' || 'A' <= c <= 'Z'
  }

  lemma DigitCharValue(d: nat, upper: bool)
    requires d < 36
    ensures DigitValue(DigitChar(d, upper)) == d && IsNumeral(DigitChar(d, upper))
    ensures d < 10 ==> IsDigit(DigitChar(d, upper))
  {
  }

  // Division and multiplication by the base, step by step, so that proofs stay linear.

  function Quot(v: nat, base: nat): (q: nat)
    requires base >= 2
    ensures q <= v && (q == 0 <==> v < base) && (v > 0 ==> q < v)
  {
    if v < base then 0 else 1 + Quot(v - base, base)
  }

  function Rem(v: nat, base: nat): (r: nat)
    requires base >= 2
    ensures r < base
  {
    if v < base then v else Rem(v - base, base)
  }

  function Mul(a: nat, base: nat): nat
  {
    if a == 0 then 0 else Mul(a - 1, base) + base
  }

  lemma {:induction false} MulIsProduct(a: nat, base: nat)
    ensures Mul(a, base) == a * base
  {
    if a == 0 {
    } else {
      MulIsProduct(a - 1, base);
      assert a * base == (a - 1) * base + base;
    }
  }

  lemma {:induction false} Division(v: nat, base: nat)
    requires base >= 2
    ensures v == Mul(Quot(v, base), base) + Rem(v, base)
  {
    if v < base {
    } else {
      Division(v - base, base);
    }
  }

  /** The operators of C, on non-negative operands. */
  lemma {:induction false} DivMod(v: nat, base: nat)
    requires base >= 2
    ensures v / base == Quot(v, base) && v % base == Rem(v, base)
  {
    if v >= base {
      DivMod(v - base, base);
      DivStep(v, base);
    } else {
      DivSmall(v, base);
    }
  }

  lemma DivSmall(v: nat, base: nat)
    requires v < base
    ensures v / base == 0 && v % base == v
  {
  }

  lemma DivStep(v: nat, base: nat)
    requires v >= base > 0
    ensures v / base == 1 + (v - base) / base && v % base == (v - base) % base
  {
    var q, q' := v / base, (v - base) / base;
    assert (q - q' - 1) * base == q * base - q' * base - base;
    SmallMultiple(q - q' - 1, base);
  }

  lemma AtLeast(d: int, base: nat)
    ensures d >= 1 ==> d * base >= base
    ensures d <= -1 ==> d * base <= 0 - base
  {
    if d >= 1 {
      MulIsProduct(d, base);
    } else if d <= -1 {
      MulIsProduct(-d, base);
      assert -d * base == 0 - d * base;
    }
  }

  lemma SmallMultiple(d: int, base: nat)
    requires 0 - base < d * base < base
    ensures d == 0
  {
    AtLeast(d, base);
  }

  /** The digits of v in the order they are computed, least significant first. */
  function Digits(v: nat, base: nat, upper: bool): (s: string)
    requires 2 <= base <= 36
    ensures |s| > 0
    decreases v
  {
    [DigitChar(Rem(v, base), upper)] + (if Quot(v, base) == 0 then [] else Digits(Quot(v, base), base, upper))
  }

  function Reversed(s: string): (r: string)
    ensures |r| == |s|
  {
    if s == [] then [] else Reversed(s[1..]) + [s[0]]
  }

  lemma {:induction false} ReversedAt(s: string, k: nat)
    requires k < |s|
    ensures Reversed(s)[k] == s[|s| - 1 - k]
  {
    if k == |s| - 1 {
    } else {
      ReversedAt(s[1..], k);
    }
  }

  lemma {:induction false} ReversedConcat(s: string, t: string)
    ensures Reversed(s + t) == Reversed(t) + Reversed(s)
  {
    if s == [] {
      assert [] + t == t;
    } else {
      ReversedConcat(s[1..], t);
      assert (s + t)[1..] == s[1..] + t;
    }
  }

  function Times(c: char, n: nat): (s: string)
    ensures |s| == n && forall k :: 0 <= k < n ==> s[k] == c
  {
    if n == 0 then [] else Times(c, n - 1) + [c]
  }

  lemma {:induction false} ReversedTimes(c: char, n: nat)
    ensures Reversed(Times(c, n)) == Times(c, n)
  {
    forall k | 0 <= k < n ensures Reversed(Times(c, n))[k] == c {
      ReversedAt(Times(c, n), k);
    }
    assert Reversed(Times(c, n)) == Times(c, n);
  }

  /** The value of a numeral, most significant digit first. */
  function Eval(s: string, base: nat): nat
  {
    if s == [] then 0 else Mul(Eval(s[..|s| - 1], base), base) + DigitValue(s[|s| - 1])
  }

  lemma EvalAppend(s: string, c: char, base: nat)
    ensures Eval(s + [c], base) == Mul(Eval(s, base), base) + DigitValue(c)
  {
    assert (s + [c])[..|s|] == s;
  }

  predicate Numeral(s: string)
  {
    forall k :: 0 <= k < |s| ==> IsNumeral(s[k])
  }

  predicate Decimal(s: string)
  {
    forall k :: 0 <= k < |s| ==> IsDigit(s[k])
  }

  /** Evaluating undoes printing. */
  lemma {:induction false} EvalDigits(v: nat, base: nat, upper: bool)
    requires 2 <= base <= 36
    ensures Eval(Reversed(Digits(v, base, upper)), base) == v
    decreases v
  {
    var q, c := Quot(v, base), DigitChar(Rem(v, base), upper);
    DigitCharValue(Rem(v, base), upper);
    Division(v, base);
    if q == 0 {
      ReversedLast([], c);
      EvalAppend([], c, base);
    } else {
      EvalDigits(q, base, upper);
      ReversedLast(Digits(q, base, upper), c);
      EvalAppend(Reversed(Digits(q, base, upper)), c, base);
    }
  }

  lemma {:induction false} DigitsAreNumeral(v: nat, base: nat, upper: bool)
    requires 2 <= base <= 36
    ensures Numeral(Digits(v, base, upper)) && (base <= 10 ==> Decimal(Digits(v, base, upper)))
    decreases v
  {
    DigitCharValue(Rem(v, base), upper);
    if Quot(v, base) == 0 {
    } else {
      DigitsAreNumeral(Quot(v, base), base, upper);
    }
  }

  lemma ReversedNumeral(s: string)
    ensures Numeral(s) ==> Numeral(Reversed(s))
    ensures Decimal(s) ==> Decimal(Reversed(s))
  {
    forall k | 0 <= k < |s| ensures Reversed(s)[k] == s[|s| - 1 - k] {
      ReversedAt(s, k);
    }
  }

  lemma ReversedLast(s: string, c: char)
    ensures Reversed([c] + s) == Reversed(s) + [c]
  {
    assert ([c] + s)[1..] == s;
  }

  /** Leading zeros do not change the value. */
  lemma {:induction false} ZerosValue(n: nat, base: nat)
    ensures Eval(Times('0', n), base) == 0
  {
    if n == 0 {
    } else {
      ZerosValue(n - 1, base);
      EvalAppend(Times('0', n - 1), '0', base);
    }
  }

  lemma {:induction false} EvalZeros(n: nat, s: string, base: nat)
    ensures Eval(Times('0', n) + s, base) == Eval(s, base)
    decreases |s|
  {
    if s == [] {
      ZerosValue(n, base);
      assert Times('0', n) + s == Times('0', n);
    } else {
      var t, c := s[..|s| - 1], s[|s| - 1];
      EvalZeros(n, t, base);
      EvalAppend(t, c, base);
      EvalAppend(Times('0', n) + t, c, base);
      assert s == t + [c];
      assert Times('0', n) + (t + [c]) == (Times('0', n) + t) + [c];
    }
  }

  // Lengths.

  function Pow8(n: nat): nat
  {
    if n == 0 then 1 else 8 * Pow8(n - 1)
  }

  lemma {:induction false} QuotMonotone(v: nat, w: nat, base: nat, base': nat)
    requires v <= w && 2 <= base' <= base
    ensures Quot(v, base) <= Quot(w, base')
    decreases v
  {
    if v < base {
    } else {
      QuotMonotone(v - base, w - base', base, base');
    }
  }

  lemma {:induction false} DigitsShort(v: nat, base: nat, upper: bool, n: nat)
    requires 8 <= base <= 36 && v < Pow8(n) && n > 0
    ensures |Digits(v, base, upper)| <= n
    decreases n
  {
    var q := Quot(v, base);
    if q == 0 {
    } else {
      QuotMonotone(v, v, base, 8);
      DivMod(v, 8);
      DigitsShort(q, base, upper, n - 1);
    }
  }

  lemma {:induction false} BitsShort(v: nat, upper: bool, n: nat)
    requires v < Pow2(n) && n > 0
    ensures |Digits(v, 2, upper)| <= n
  {
    DivMod(v, 2);
    if v / 2 == 0 {
    } else {
      BitsShort(v / 2, upper, n - 1);
    }
  }

  /** The scratch buffer's 32 characters hold every 64-bit value from base 8 on, and every
      32-bit value in base 2. */
  lemma DigitsFit(v: nat, base: nat, upper: bool)
    requires 2 <= base <= 36
    requires (base >= 8 && v < 0x1_0000_0000_0000_0000) || (base == 2 && v < 0x1_0000_0000)
    ensures |Digits(v, base, upper)| <= 32
  {
    if base == 2 {
      assert Pow2(8) == 0x100;
      assert Pow2(16) == 0x10000;
      assert Pow2(24) == 0x100_0000;
      assert Pow2(32) == 0x1_0000_0000;
      BitsShort(v, upper, 32);
    } else {
      assert Pow8(8) == 0x100_0000;
      assert Pow8(16) == 0x1_0000_0000_0000;
      assert Pow8(22) == 0x4_0000_0000_0000_0000;
      DigitsShort(v, base, upper, 22);
    }
  }
}
