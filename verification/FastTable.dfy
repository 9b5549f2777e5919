/** What the 512-entry fast table has to hold, for a list of code lengths. */
module FastTable {
  import opened BitOps
  import opened BitReversal
  import opened BitStream
  import opened CanonicalCode

  const FAST_BITS := 9
  const FAST_SIZE := 512

  /** Symbol i has a codeword of at most 9 bits, and its reversal is what the low bits of j show. */
  predicate FastMatch(lens: seq<nat>, i: nat, j: nat)
  {
    i < |lens| && 1 <= lens[i] <= FAST_BITS && Low(j, lens[i]) == Rev(Code(lens, i), lens[i])
  }

  function Packed(lens: seq<nat>, i: nat): nat
    requires i < |lens|
  {
    BitOr(i, Shl(lens[i], 9))
  }

  /** Entry j after the first n symbols have been written, each over its predecessors. */
  function FastEntry(lens: seq<nat>, n: nat, j: nat): nat
    requires n <= |lens|
  {
    if n == 0 then 0
    else if FastMatch(lens, n - 1, j) then Packed(lens, n - 1)
    else FastEntry(lens, n - 1, j)
  }

  /** The two fields of an entry come back, and an entry in use is not 0. */
  lemma PackedFields(lens: seq<nat>, i: nat)
    requires i < |lens| <= 288 && 1 <= lens[i]
    ensures Packed(lens, i) == 512 * lens[i] + i
    ensures Shr(Packed(lens, i), 9) == lens[i] && Low(Packed(lens, i), 9) == i
  {
    Pow2Values();
    OrDisjoint(i, lens[i], 9);
    ShlNine(lens[i]);
    SumFields(i, lens[i], 9);
  }

  lemma ShlNine(a: nat)
    ensures Shl(a, 9) == 512 * a
  {
    ShlEight(a);
    assert Shl(a, 9) == 2 * Shl(a, 8);
  }

  lemma {:induction false} SumFields(a: nat, b: nat, n: nat)
    requires a < Pow2(n)
    ensures Shr(a + Shl(b, n), n) == b && Low(a + Shl(b, n), n) == a
  {
    if n == 0 {
    } else {
      SumFields(a / 2, b, n - 1);
      assert (a + Shl(b, n)) / 2 == a / 2 + Shl(b, n - 1);
    }
  }

  lemma {:induction false} LowOfWord(j: nat, s: nat, n: nat)
    requires s <= n
    ensures Lsb(LsbWord(j, n), 0, s) == Low(j, s)
  {
    LowOfSuffix([], j, s, n);
    assert [] + LsbWord(j, n) == LsbWord(j, n);
  }

  lemma {:induction false} LowOfSuffix(pre: seq<bool>, j: nat, s: nat, n: nat)
    requires s <= n
    ensures Lsb(pre + LsbWord(j, n), |pre|, s) == Low(j, s)
    decreases s
  {
    if s == 0 {
    } else {
      LsbWordUnfold(j, n);
      LowOfSuffix(pre + [j % 2 == 1], j / 2, s - 1, n - 1);
      assert pre + LsbWord(j, n) == pre + [j % 2 == 1] + LsbWord(j / 2, n - 1);
    }
  }

  /** A fast match is a match in any stream whose next bits are the index. */
  lemma FastMatchIsMatch(lens: seq<nat>, i: nat, bits: seq<bool>, p: nat)
    requires Kraft(lens) && i < |lens| && p + FAST_BITS <= |bits|
    ensures FastMatch(lens, i, Lsb(bits, p, FAST_BITS)) <==> lens[i] <= FAST_BITS && Matches(lens, i, bits, p)
  {
    if 1 <= lens[i] <= FAST_BITS {
      LsbSplit(bits, p, lens[i], FAST_BITS - lens[i]);
      CodeRange(lens, i);
      RevMsb(bits, p, lens[i], Code(lens, i));
    }
  }

  lemma FastMatchUnique(lens: seq<nat>, i: nat, k: nat, j: nat)
    requires Kraft(lens) && j < FAST_SIZE && FastMatch(lens, i, j) && FastMatch(lens, k, j)
    ensures i == k
  {
    var w := LsbWord(j, FAST_BITS);
    LowOfWord(j, FAST_BITS, FAST_BITS);
    Pow2Values();
    LowIdentity(j, FAST_BITS);
    FastMatchIsMatch(lens, i, w, 0);
    FastMatchIsMatch(lens, k, w, 0);
    UniqueMatch(lens, i, k, w, 0);
  }

  /** An entry is the packed symbol of its one match. */
  lemma FastEntryFor(lens: seq<nat>, i: nat, j: nat)
    requires Kraft(lens) && |lens| <= 288 && j < FAST_SIZE && i < |lens| && lens[i] > 0
    ensures FastEntry(lens, |lens|, j) == 512 * lens[i] + i <==> FastMatch(lens, i, j)
  {
    LastWriter(lens, |lens|, j);
    if k: nat :| k < |lens| && FastMatch(lens, k, j) && FastEntry(lens, |lens|, j) == Packed(lens, k) {
      PackedApart(lens, i, k);
      if FastMatch(lens, i, j) {
        FastMatchUnique(lens, i, k, j);
      }
    }
  }

  lemma PackedApart(lens: seq<nat>, i: nat, k: nat)
    requires i < |lens| <= 288 && k < |lens| && 1 <= lens[k]
    ensures Packed(lens, k) == 512 * lens[i] + i <==> i == k
  {
    PackedFields(lens, k);
    FieldsApart(lens[i], i, lens[k], k);
  }

  lemma FieldsApart(a: nat, i: nat, b: nat, k: nat)
    requires i < 512 && k < 512
    ensures 512 * a + i == 512 * b + k ==> a == b && i == k
  {
  }

  lemma FastEntryNone(lens: seq<nat>, j: nat)
    requires |lens| <= 288
    ensures FastEntry(lens, |lens|, j) == 0 <==> forall i: nat :: !FastMatch(lens, i, j)
  {
    LastWriter(lens, |lens|, j);
    if FastEntry(lens, |lens|, j) != 0 {
      var k: nat :| k < |lens| && FastMatch(lens, k, j) && FastEntry(lens, |lens|, j) == Packed(lens, k);
    } else if k: nat :| k < |lens| && FastMatch(lens, k, j) && FastEntry(lens, |lens|, j) == Packed(lens, k) {
      PackedFields(lens, k);
    }
  }

  /** Exactness: an entry is the packed symbol of the one match, or 0 when there is none. */
  lemma FastEntryExact(lens: seq<nat>, j: nat)
    requires Kraft(lens) && |lens| <= 288 && j < FAST_SIZE
    ensures forall i: nat :: i < |lens| && lens[i] > 0 ==>
              (FastEntry(lens, |lens|, j) == 512 * lens[i] + i <==> FastMatch(lens, i, j))
    ensures FastEntry(lens, |lens|, j) == 0 <==> forall i: nat :: !FastMatch(lens, i, j)
  {
    forall i: nat | i < |lens| && lens[i] > 0
      ensures FastEntry(lens, |lens|, j) == 512 * lens[i] + i <==> FastMatch(lens, i, j)
    {
      FastEntryFor(lens, i, j);
    }
    FastEntryNone(lens, j);
  }

  lemma {:induction false} LastWriter(lens: seq<nat>, n: nat, j: nat)
    requires n <= |lens|
    ensures (FastEntry(lens, n, j) == 0 && forall i: nat :: i < n ==> !FastMatch(lens, i, j))
            || (exists i: nat :: i < n && FastMatch(lens, i, j) && FastEntry(lens, n, j) == Packed(lens, i))
  {
    if n == 0 {
    } else {
      LastWriter(lens, n - 1, j);
    }
  }

  /** What the entry for the next nine bits says about the stream. */
  lemma FastLookup(lens: seq<nat>, bits: seq<bool>, p: nat)
    requires Kraft(lens) && |lens| <= 288 && p + FAST_BITS <= |bits|
    ensures var b := FastEntry(lens, |lens|, Lsb(bits, p, FAST_BITS));
            if b != 0 then Matches(lens, BitAnd(b, 511), bits, p) && lens[BitAnd(b, 511)] == Shr(b, 9)
            else forall i: nat {:trigger Matches(lens, i, bits, p)} :: Matches(lens, i, bits, p) ==> lens[i] > FAST_BITS
  {
    var j := Lsb(bits, p, FAST_BITS);
    LastWriter(lens, |lens|, j);
    Pow2Values();
    AndMask(FastEntry(lens, |lens|, j), 9);
    forall i: nat | i < |lens| ensures FastMatch(lens, i, j) <==> lens[i] <= FAST_BITS && Matches(lens, i, bits, p) {
      FastMatchIsMatch(lens, i, bits, p);
    }
    forall i: nat | i < |lens| && FastMatch(lens, i, j)
      ensures Packed(lens, i) != 0 && Low(Packed(lens, i), 9) == i && Shr(Packed(lens, i), 9) == lens[i]
    {
      PackedFields(lens, i);
    }
  }

  /** Indices that agree on their low s bits are 2^s apart. */
  lemma {:induction false} LowStride(a: nat, d: nat, s: nat)
    requires d <= Pow2(s)
    ensures Low(a + d, s) == Low(a, s) <==> d == 0 || d == Pow2(s)
  {
    if s == 0 {
    } else {
      if d % 2 == 0 {
        LowStride(a / 2, d / 2, s - 1);
        assert (a + d) / 2 == a / 2 + d / 2 && (a + d) % 2 == a % 2;
      }
    }
  }
}
