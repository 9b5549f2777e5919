/** The 16-bit reversal of ssfn.h, and the reversal it computes. */
module BitReversal {
  import opened BitOps

  /** Exchanges neighbouring groups of w bits, selected by the two masks. */
  function SwapGroups(n: nat, high: nat, low: nat, w: nat): nat
  {
    BitOr(Shr(BitAnd(n, high), w), Shl(BitAnd(n, low), w))
  }

  function BitReverse16(n: nat): nat
  {
    var n := SwapGroups(n, 0xAAAA, 0x5555, 1);
    var n := SwapGroups(n, 0xCCCC, 0x3333, 2);
    var n := SwapGroups(n, 0xF0F0, 0x0F0F, 4);
    SwapGroups(n, 0xFF00, 0x00FF, 8)
  }

  function BitReverse(v: nat, bits: nat): nat
    requires bits <= 16
  {
    Shr(BitReverse16(v), 16 - bits)
  }

  /** The reversal of the low n bits of v: bit k becomes bit n - 1 - k. */
  function Rev(v: nat, n: nat): (r: nat)
    ensures r < Pow2(n)
  {
    if n == 0 then 0 else Rev(v / 2, n - 1) + (if v % 2 == 1 then Pow2(n - 1) else 0)
  }

  lemma {:induction false} RevBit(v: nat, n: nat, k: nat)
    ensures BitSet(Rev(v, n), k) <==> k < n && BitSet(v, n - 1 - k)
  {
    if n == 0 {
      ZeroBit(k);
    } else {
      RevBit(v / 2, n - 1, k);
      var bit := if v % 2 == 1 then 1 else 0;
      ShlOne(n - 1);
      ShlZero(n - 1);
      OrDisjoint(Rev(v / 2, n - 1), bit, n - 1);
      OrBit(Rev(v / 2, n - 1), Shl(bit, n - 1), k);
      ShlBit(bit, n - 1, k);
      if k > n - 1 {
        ZeroBit(k - n);
      }
    }
  }

  lemma {:induction false} ShlOne(n: nat)
    ensures Shl(1, n) == Pow2(n)
  {
    if n == 0 {
    } else {
      ShlOne(n - 1);
    }
  }

  lemma {:induction false} ShlZero(n: nat)
    ensures Shl(0, n) == 0
  {
    if n == 0 {
    } else {
      ShlZero(n - 1);
    }
  }

  /** Reversal is one to one on n-bit values. */
  lemma RevInjective(v: nat, w: nat, n: nat)
    requires v < Pow2(n) && w < Pow2(n) && Rev(v, n) == Rev(w, n)
    ensures v == w
  {
    forall k: nat | k < n ensures BitSet(v, k) == BitSet(w, k) {
      RevBit(v, n, n - 1 - k);
      RevBit(w, n, n - 1 - k);
    }
    SameBits(v, w, n);
  }

  // The masks: groups of 2w bits, each w ones above w zeros or the other way round.

  /** Copies of a w-bit group, side by side in as many bits as size allows. */
  function Repeat(group: nat, w: nat, size: nat): nat
    requires w > 0
  {
    if size < w then 0 else group + Shl(Repeat(group, w, size - w), w)
  }

  predicate Divides(w: nat, size: nat)
    requires w > 0
  {
    size == 0 || (size >= w && Divides(w, size - w))
  }

  /** Bit k lies in the upper half of its group of 2w bits. */
  predicate Upper(k: nat, w: nat)
    requires w > 0
  {
    if k < w + w then k >= w else Upper(k - (w + w), w)
  }

  /** The bit that trades places with bit k. */
  function Partner(k: nat, w: nat): (r: nat)
    requires w > 0
    ensures r == if Upper(k, w) then k - w else k + w
    ensures Upper(r, w) == !Upper(k, w)
  {
    if k < w then k + w else if k < w + w then k - w else w + w + Partner(k - (w + w), w)
  }

  lemma {:induction false} OnesBit(w: nat, k: nat)
    ensures BitSet(Pow2(w) - 1, k) <==> k < w
  {
    if w == 0 {
      ZeroBit(k);
    } else if k > 0 {
      OnesBit(w - 1, k - 1);
      assert (Pow2(w) - 1) / 2 == Pow2(w - 1) - 1;
    }
  }

  lemma OnesShiftedBit(w: nat, k: nat)
    ensures BitSet(Shl(Pow2(w) - 1, w), k) <==> w <= k < w + w
  {
    ShlBit(Pow2(w) - 1, w, k);
    if k >= w {
      OnesBit(w, k - w);
    }
  }

  lemma {:induction false} RepeatBit(upper: bool, group: nat, w: nat, size: nat, k: nat)
    requires w > 0 && Divides(w + w, size)
    requires group == if upper then Shl(Pow2(w) - 1, w) else Pow2(w) - 1
    ensures BitSet(Repeat(group, w + w, size), k) <==> k < size && Upper(k, w) == upper
    decreases size
  {
    if size == 0 {
      ZeroBit(k);
    } else {
      var rest := Repeat(group, w + w, size - (w + w));
      assert BitSet(group, k) <==> k < w + w && (k >= w) == upper by {
        OnesBit(w, k);
        OnesShiftedBit(w, k);
      }
      GroupBound(upper, group, w);
      OrDisjoint(group, rest, w + w);
      OrBit(group, Shl(rest, w + w), k);
      ShlBit(rest, w + w, k);
      if k >= w + w {
        RepeatBit(upper, group, w, size - (w + w), k - (w + w));
      }
    }
  }

  lemma GroupBound(upper: bool, group: nat, w: nat)
    requires group == if upper then Shl(Pow2(w) - 1, w) else Pow2(w) - 1
    ensures group < Pow2(w + w)
  {
    var ones := Pow2(w) - 1;
    if upper {
      ShlBound(ones, w, w);
    } else {
      Pow2Monotone(w, w + w);
    }
  }

  /** What one stage does when its masks are the two halves of each group. */
  lemma StageBit(n: nat, high: nat, low: nat, w: nat, k: nat)
    requires w > 0 && Divides(w + w, 16)
    requires high == Repeat(Shl(Pow2(w) - 1, w), w + w, 16) && low == Repeat(Pow2(w) - 1, w + w, 16)
    ensures BitSet(SwapGroups(n, high, low, w), k) <==> k < 16 && BitSet(n, Partner(k, w))
  {
    OrBit(Shr(BitAnd(n, high), w), Shl(BitAnd(n, low), w), k);
    FromAbove(n, high, w, k);
    FromBelow(n, low, w, k);
    PartnerGroup(k, w, 16);
  }

  lemma FromAbove(n: nat, high: nat, w: nat, k: nat)
    requires w > 0 && Divides(w + w, 16) && high == Repeat(Shl(Pow2(w) - 1, w), w + w, 16)
    ensures BitSet(Shr(BitAnd(n, high), w), k) <==> k + w < 16 && Upper(k + w, w) && BitSet(n, k + w)
  {
    ShrBit(BitAnd(n, high), w, k);
    AndBit(n, high, k + w);
    RepeatBit(true, Shl(Pow2(w) - 1, w), w, 16, k + w);
  }

  lemma FromBelow(n: nat, low: nat, w: nat, k: nat)
    requires w > 0 && Divides(w + w, 16) && low == Repeat(Pow2(w) - 1, w + w, 16)
    ensures BitSet(Shl(BitAnd(n, low), w), k) <==> k >= w && k - w < 16 && !Upper(k - w, w) && BitSet(n, k - w)
  {
    ShlBit(BitAnd(n, low), w, k);
    if k >= w {
      AndBit(n, low, k - w);
      RepeatBit(false, Pow2(w) - 1, w, 16, k - w);
    }
  }

  /** Partners lie in the same group. */
  lemma {:induction false} PartnerGroup(k: nat, w: nat, size: nat)
    requires w > 0 && Divides(w + w, size)
    ensures Upper(k, w) ==> k >= w && !Upper(k - w, w) && !Upper(k + w, w)
    ensures !Upper(k, w) ==> Upper(k + w, w) && (k >= w ==> Upper(k - w, w))
    ensures !Upper(k, w) ==> (k < size <==> k + w < size)
    ensures Upper(k, w) ==> (k - w < size <==> k < size)
    decreases k
  {
    if k < w + w {
    } else {
      PartnerGroup(k - (w + w), w, if size == 0 then 0 else size - (w + w));
    }
  }

  /** The four stages, with the masks the source writes out. */
  lemma Stage1Bit(n: nat, k: nat)
    ensures BitSet(SwapGroups(n, 0xAAAA, 0x5555, 1), k) <==> k < 16 && BitSet(n, Partner(k, 1))
  {
    assert Repeat(Shl(Pow2(1) - 1, 1), 2, 16) == 0xAAAA && Repeat(Pow2(1) - 1, 2, 16) == 0x5555;
    StageBit(n, 0xAAAA, 0x5555, 1, k);
  }

  lemma Stage2Bit(n: nat, k: nat)
    ensures BitSet(SwapGroups(n, 0xCCCC, 0x3333, 2), k) <==> k < 16 && BitSet(n, Partner(k, 2))
  {
    assert Repeat(Shl(Pow2(2) - 1, 2), 4, 16) == 0xCCCC && Repeat(Pow2(2) - 1, 4, 16) == 0x3333;
    StageBit(n, 0xCCCC, 0x3333, 2, k);
  }

  lemma Stage4Bit(n: nat, k: nat)
    ensures BitSet(SwapGroups(n, 0xF0F0, 0x0F0F, 4), k) <==> k < 16 && BitSet(n, Partner(k, 4))
  {
    assert Repeat(Shl(Pow2(4) - 1, 4), 8, 16) == 0xF0F0 && Repeat(Pow2(4) - 1, 8, 16) == 0x0F0F;
    StageBit(n, 0xF0F0, 0x0F0F, 4, k);
  }

  lemma Stage8Bit(n: nat, k: nat)
    ensures BitSet(SwapGroups(n, 0xFF00, 0x00FF, 8), k) <==> k < 16 && BitSet(n, Partner(k, 8))
  {
    Pow2Values();
    assert Shl(0xFF, 8) == 0xFF00;
    ShlZero(16);
    assert Repeat(0xFF00, 16, 16) == 0xFF00 && Repeat(0xFF, 16, 16) == 0xFF;
    StageBit(n, 0xFF00, 0x00FF, 8, k);
  }

  /** Where bit k of the result of all four stages comes from. */
  function Origin(k: nat): nat
  {
    Partner(Partner(Partner(Partner(k, 8), 4), 2), 1)
  }

  /** Exchanging groups of 8, 4, 2 and 1 bits moves bit k to 15 - k. */
  lemma FourPartners(k: nat)
    requires k < 16
    ensures Partner(k, 8) < 16 && Partner(Partner(k, 8), 4) < 16 && Partner(Partner(Partner(k, 8), 4), 2) < 16
    ensures Origin(k) == 15 - k
  {
    PartnerGroup(k, 8, 16);
    PartnerGroup(Partner(k, 8), 4, 16);
    PartnerGroup(Partner(Partner(k, 8), 4), 2, 16);
    OriginTable(k);
  }

  lemma OriginTable(k: nat)
    requires k < 16
    ensures Origin(k) == 15 - k
  {
    if k < 8 {
      OriginLow(k);
    } else {
      OriginHigh(k);
    }
  }

  lemma OriginLow(k: nat)
    requires k < 8
    ensures Origin(k) == 15 - k
  {
    assert Origin(0) == 15 && Origin(1) == 14 && Origin(2) == 13 && Origin(3) == 12;
    assert Origin(4) == 11 && Origin(5) == 10 && Origin(6) == 9 && Origin(7) == 8;
  }

  lemma OriginHigh(k: nat)
    requires 8 <= k < 16
    ensures Origin(k) == 15 - k
  {
    assert Origin(8) == 7 && Origin(9) == 6 && Origin(10) == 5 && Origin(11) == 4;
    assert Origin(12) == 3 && Origin(13) == 2 && Origin(14) == 1 && Origin(15) == 0;
  }

  lemma Reverse16Bit(n: nat, k: nat)
    ensures BitSet(BitReverse16(n), k) <==> k < 16 && BitSet(n, 15 - k)
  {
    var n1 := SwapGroups(n, 0xAAAA, 0x5555, 1);
    var n2 := SwapGroups(n1, 0xCCCC, 0x3333, 2);
    var n3 := SwapGroups(n2, 0xF0F0, 0x0F0F, 4);
    Stage8Bit(n3, k);
    if k < 16 {
      FourPartners(k);
      Stage4Bit(n2, Partner(k, 8));
      Stage2Bit(n1, Partner(Partner(k, 8), 4));
      Stage1Bit(n, Partner(Partner(Partner(k, 8), 4), 2));
    }
  }

  /** The four masked exchanges reverse 16 bits. */
  lemma BitReverse16IsRev(n: nat)
    ensures BitReverse16(n) == Rev(n, 16)
  {
    BitReverse16Bound(n);
    forall k: nat | k < 16 ensures BitSet(BitReverse16(n), k) == BitSet(Rev(n, 16), k) {
      Reverse16Bit(n, k);
      RevBit(n, 16, k);
    }
    SameBits(BitReverse16(n), Rev(n, 16), 16);
  }

  lemma BitReverse16Bound(n: nat)
    ensures BitReverse16(n) < Pow2(16)
  {
    var n1 := SwapGroups(n, 0xAAAA, 0x5555, 1);
    var n2 := SwapGroups(n1, 0xCCCC, 0x3333, 2);
    var n3 := SwapGroups(n2, 0xF0F0, 0x0F0F, 4);
    AndBound(n3, 0xFF00);
    AndBound(n3, 0x00FF);
    Pow2Values();
    ShrBound(BitAnd(n3, 0xFF00), 8, 8);
    ShlBound(BitAnd(n3, 0x00FF), 8, 8);
    Pow2Monotone(8, 16);
    OrBound(Shr(BitAnd(n3, 0xFF00), 8), Shl(BitAnd(n3, 0x00FF), 8), 16);
  }

  lemma RevPrefixBit(v: nat, bits: nat, k: nat)
    requires k < bits <= 16
    ensures BitSet(Shr(Rev(v, 16), 16 - bits), k) == BitSet(Rev(v, bits), k)
  {
    ShrBit(Rev(v, 16), 16 - bits, k);
    RevBit(v, 16, k + 16 - bits);
    RevBit(v, bits, k);
  }

  lemma RevPrefix(v: nat, bits: nat)
    requires bits <= 16 && v < Pow2(bits)
    ensures Shr(Rev(v, 16), 16 - bits) == Rev(v, bits)
  {
    var r := Rev(v, 16);
    ShrBound(r, 16 - bits, bits);
    forall k: nat | k < bits ensures BitSet(Shr(r, 16 - bits), k) == BitSet(Rev(v, bits), k) {
      RevPrefixBit(v, bits, k);
    }
    SameBits(Shr(r, 16 - bits), Rev(v, bits), bits);
  }

  /** bit_reverse(v, bits) reverses a codeword of that many bits. */
  lemma BitReverseIsRev(v: nat, bits: nat)
    requires bits <= 16 && v < Pow2(bits)
    ensures BitReverse(v, bits) == Rev(v, bits)
  {
    BitReverse16IsRev(v);
    RevPrefix(v, bits);
  }
}
