/** The fixed codes (section 3.2.6 of RFC 1951) use up the whole code space. */
module FixedCodes {
  import opened BitOps
  import opened CanonicalCode
  import opened Deflate

  /** The Kraft sum of n codes of weight w each. */
  function Weight(n: nat, w: nat): nat
  {
    if n == 0 then 0 else Weight(n - 1, w) + w
  }

  lemma {:induction false} WeightIsProduct(n: nat, w: nat)
    ensures Weight(n, w) == n * w
  {
    if n == 0 {
    } else {
      WeightIsProduct(n - 1, w);
      assert n * w == (n - 1) * w + w;
    }
  }

  lemma {:induction false} KraftRun(lens: seq<nat>, x: nat, n: nat)
    requires Lengths(lens) && 1 <= x <= MAX_BITS
    ensures Lengths(lens + Copies(x, n))
    ensures KraftSum(lens + Copies(x, n)) == KraftSum(lens) + Weight(n, Pow2(MAX_BITS - x))
    decreases n
  {
    var all := lens + Copies(x, n);
    if n == 0 {
      assert all == lens;
    } else {
      KraftRun(lens, x, n - 1);
      assert all[..|all| - 1] == lens + Copies(x, n - 1);
      PrefixKraft(all, |all| - 1, |all| - 1);
    }
  }

  lemma FixedRuns()
    ensures FixedLengths() == Copies(8, 144) + Copies(9, 112) + Copies(7, 24) + Copies(8, 8)
  {
  }

  /** 144 * 2^7 + 112 * 2^6 + 24 * 2^8 + 8 * 2^7 = 2^15 */
  lemma FixedLengthsComplete()
    ensures Lengths(FixedLengths()) && KraftSum(FixedLengths()) == Pow2(MAX_BITS)
  {
    Pow2Values();
    assert Pow2(7) == 128 && Pow2(6) == 64;
    WeightIsProduct(144, 128);
    WeightIsProduct(112, 64);
    WeightIsProduct(24, 256);
    WeightIsProduct(8, 128);
    FixedRuns();
    var a, b, c := Copies(8, 144), Copies(9, 112), Copies(7, 24);
    KraftRun([], 8, 144);
    assert [] + a == a;
    KraftRun(a, 9, 112);
    KraftRun(a + b, 7, 24);
    KraftRun(a + b + c, 8, 8);
  }

  /** 32 * 2^10 = 2^15 */
  lemma FixedDistancesComplete()
    ensures Lengths(FixedDistances()) && KraftSum(FixedDistances()) == Pow2(MAX_BITS)
  {
    Pow2Values();
    assert Pow2(10) == 1024;
    WeightIsProduct(32, 1024);
    KraftRun([], 5, 32);
    assert FixedDistances() == [] + Copies(5, 32);
  }

  lemma FixedCodesAreComplete()
    ensures Kraft(FixedLengths()) && KraftSum(FixedLengths()) == Pow2(MAX_BITS)
    ensures Kraft(FixedDistances()) && KraftSum(FixedDistances()) == Pow2(MAX_BITS)
  {
    FixedLengthsComplete();
    FixedDistancesComplete();
  }

  // The codewords themselves.

  lemma {:induction false} FixedCount(i: nat, s: nat)
    requires i <= 288
    ensures CountTo(FixedLengths(), i, s)
            == if s == 7 then (if i < 256 then 0 else if i < 280 then i - 256 else 24)
               else if s == 8 then (if i < 144 then i else if i < 280 then 144 else i - 136)
               else if s == 9 then (if i < 144 then 0 else if i < 256 then i - 144 else 112)
               else 0
  {
    if i == 0 {
    } else {
      FixedCount(i - 1, s);
    }
  }

  lemma {:induction false} NoneShorter(s: nat)
    requires s <= 6
    ensures End(FixedLengths(), s) == 0
  {
    if s == 0 {
    } else {
      NoneShorter(s - 1);
      FixedCount(288, s);
    }
  }

  lemma FixedFirst()
    ensures First(FixedLengths(), 7) == 0 && First(FixedLengths(), 8) == 48 && First(FixedLengths(), 9) == 400
  {
    var ll := FixedLengths();
    NoneShorter(6);
    FixedCount(288, 7);
    FixedCount(288, 8);
    assert End(ll, 7) == 24;
    assert End(ll, 8) == 200;
  }

  /** The table of section 3.2.6: which codeword, of how many bits, stands for which symbol. */
  lemma FixedCodewords(i: nat)
    requires i < 288
    ensures i <= 143 ==> FixedLengths()[i] == 8 && Code(FixedLengths(), i) == 0x30 + i
    ensures 144 <= i <= 255 ==> FixedLengths()[i] == 9 && Code(FixedLengths(), i) == 0x190 + (i - 144)
    ensures 256 <= i <= 279 ==> FixedLengths()[i] == 7 && Code(FixedLengths(), i) == i - 256
    ensures 280 <= i ==> FixedLengths()[i] == 8 && Code(FixedLengths(), i) == 0xC0 + (i - 280)
  {
    FixedFirst();
    FixedCount(i, FixedLengths()[i]);
  }

  lemma {:induction false} DistanceCount(i: nat, s: nat)
    requires i <= 32
    ensures CountTo(FixedDistances(), i, s) == if s == 5 then i else 0
  {
    if i == 0 {
    } else {
      DistanceCount(i - 1, s);
    }
  }

  lemma {:induction false} NoShortDistance(s: nat)
    requires s <= 4
    ensures End(FixedDistances(), s) == 0
  {
    if s == 0 {
    } else {
      NoShortDistance(s - 1);
      DistanceCount(32, s);
    }
  }

  /** Distance symbols are five-bit numbers. */
  lemma FixedDistanceCodewords(d: nat)
    requires d < 32
    ensures FixedDistances()[d] == 5 && Code(FixedDistances(), d) == d
  {
    NoShortDistance(4);
    DistanceCount(d, 5);
  }
}
