/** The canonical Huffman code of a list of code lengths (section 3.2.2 of RFC 1951):
    codewords of one length are consecutive, in symbol order, and start at twice the
    end of the next shorter length. A length of 0 means that the symbol has no code. */
module CanonicalCode {
  import opened BitOps
  import opened BitStream
  import opened Substrings

  const MAX_BITS := 15

  /** How many of the first n symbols have length s. */
  function CountTo(lens: seq<nat>, n: nat, s: nat): (c: nat)
    requires n <= |lens|
    ensures c <= n
  {
    if n == 0 then 0 else CountTo(lens, n - 1, s) + (if lens[n - 1] == s then 1 else 0)
  }

  /** How many symbols have length s. */
  function Count(lens: seq<nat>, s: nat): nat
  {
    CountTo(lens, |lens|, s)
  }

  /** The first codeword of length s. */
  function First(lens: seq<nat>, s: nat): nat
    decreases s, 0
  {
    if s <= 1 then 0 else 2 * End(lens, s - 1)
  }

  /** One past the last codeword of length s. */
  function End(lens: seq<nat>, s: nat): nat
    decreases s, 1
  {
    if s == 0 then 0 else First(lens, s) + Count(lens, s)
  }

  /** How many codewords are shorter than s. */
  function Shorter(lens: seq<nat>, s: nat): nat
  {
    if s <= 1 then 0 else Shorter(lens, s - 1) + Count(lens, s - 1)
  }

  /** How many earlier symbols have the same length as symbol i. */
  function Rank(lens: seq<nat>, i: nat): nat
    requires i < |lens|
  {
    CountTo(lens, i, lens[i])
  }

  function Code(lens: seq<nat>, i: nat): nat
    requires i < |lens|
  {
    First(lens, lens[i]) + Rank(lens, i)
  }

  predicate Lengths(lens: seq<nat>)
  {
    forall i :: 0 <= i < |lens| ==> lens[i] <= MAX_BITS
  }

  /** The share of all 15-bit words that the first n codewords use up: the sum of 2^(15 - length). */
  function KraftTo(lens: seq<nat>, n: nat): nat
    requires Lengths(lens) && n <= |lens|
  {
    if n == 0 then 0
    else KraftTo(lens, n - 1) + (if lens[n - 1] == 0 then 0 else Pow2(MAX_BITS - lens[n - 1]))
  }

  function KraftSum(lens: seq<nat>): nat
    requires Lengths(lens)
  {
    KraftTo(lens, |lens|)
  }

  predicate Kraft(lens: seq<nat>)
  {
    Lengths(lens) && KraftSum(lens) <= Pow2(MAX_BITS)
  }

  /** The codeword of symbol i is what the stream shows at p. */
  predicate Matches(lens: seq<nat>, i: nat, bits: seq<bool>, p: nat)
  {
    i < |lens| && lens[i] > 0 && p + lens[i] <= |bits| && Msb(bits, p, lens[i]) == Code(lens, i)
  }

  // Counting.

  lemma {:induction false} CountMonotone(lens: seq<nat>, i: nat, j: nat, s: nat)
    requires i <= j <= |lens|
    ensures CountTo(lens, i, s) <= CountTo(lens, j, s)
  {
    if i == j {
    } else {
      CountMonotone(lens, i, j - 1, s);
    }
  }

  lemma RankBound(lens: seq<nat>, i: nat)
    requires i < |lens|
    ensures Rank(lens, i) < Count(lens, lens[i])
  {
    CountMonotone(lens, i + 1, |lens|, lens[i]);
  }

  /** Two symbols of one length have different ranks. */
  lemma RankInjective(lens: seq<nat>, i: nat, j: nat)
    requires i < |lens| && j < |lens| && lens[i] == lens[j] && Rank(lens, i) == Rank(lens, j)
    ensures i == j
  {
    if i < j {
      CountMonotone(lens, i + 1, j, lens[i]);
    } else if j < i {
      CountMonotone(lens, j + 1, i, lens[i]);
    }
  }

  /** Every rank below the count belongs to a symbol. */
  lemma {:induction false} Select(lens: seq<nat>, n: nat, s: nat, r: nat) returns (i: nat)
    requires n <= |lens| && r < CountTo(lens, n, s)
    ensures i < n && lens[i] == s && Rank(lens, i) == r
  {
    if lens[n - 1] == s && r == CountTo(lens, n - 1, s) {
      i := n - 1;
    } else {
      i := Select(lens, n - 1, s, r);
    }
  }

  lemma {:induction false} PrefixCount(lens: seq<nat>, m: nat, n: nat, s: nat)
    requires n <= m <= |lens|
    ensures CountTo(lens[..m], n, s) == CountTo(lens, n, s)
  {
    if n == 0 {
    } else {
      PrefixCount(lens, m, n - 1, s);
    }
  }

  /** Counting without the last symbol. */
  lemma CountDropLast(lens: seq<nat>, s: nat)
    requires lens != []
    ensures Count(lens, s) == Count(lens[..|lens| - 1], s) + (if lens[|lens| - 1] == s then 1 else 0)
  {
    PrefixCount(lens, |lens| - 1, |lens| - 1, s);
  }

  lemma {:induction false} ShorterMonotone(lens: seq<nat>, s: nat, t: nat)
    requires 1 <= s < t
    ensures Shorter(lens, s) + Count(lens, s) <= Shorter(lens, t)
  {
    if s + 1 == t {
    } else {
      ShorterMonotone(lens, s, t - 1);
    }
  }

  /** Codewords of lengths 1 to s are no more than the symbols. */
  lemma {:induction false} ShorterBound(lens: seq<nat>, s: nat)
    ensures Shorter(lens, s) + (if s == 0 then 0 else Count(lens, s)) <= |lens|
  {
    if lens == [] {
      ShorterEmpty(s);
    } else {
      ShorterBound(lens[..|lens| - 1], s);
      ShorterDropLast(lens, s);
      CountDropLast(lens, s);
    }
  }

  lemma {:induction false} ShorterEmpty(s: nat)
    ensures Shorter([], s) == 0
  {
    if s <= 1 {
    } else {
      ShorterEmpty(s - 1);
    }
  }

  lemma {:induction false} ShorterDropLast(lens: seq<nat>, s: nat)
    requires lens != []
    ensures Shorter(lens, s) == Shorter(lens[..|lens| - 1], s) + (if 1 <= lens[|lens| - 1] < s then 1 else 0)
  {
    if s <= 1 {
    } else {
      ShorterDropLast(lens, s - 1);
      CountDropLast(lens, s - 1);
    }
  }

  /** Different coded symbols have different places in the order of (length, rank). */
  lemma PlaceInjective(lens: seq<nat>, i: nat, j: nat)
    requires i < |lens| && j < |lens| && lens[i] > 0 && lens[j] > 0
    requires Shorter(lens, lens[i]) + Rank(lens, i) == Shorter(lens, lens[j]) + Rank(lens, j)
    ensures i == j
  {
    RankBound(lens, i);
    RankBound(lens, j);
    if lens[i] < lens[j] {
      ShorterMonotone(lens, lens[i], lens[j]);
    } else if lens[j] < lens[i] {
      ShorterMonotone(lens, lens[j], lens[i]);
    } else {
      RankInjective(lens, i, j);
    }
  }

  // The Kraft inequality.

  /** The Kraft sum, counted length by length instead of symbol by symbol. */
  lemma {:induction false} KraftSumIsEnd(lens: seq<nat>)
    requires Lengths(lens)
    ensures KraftSum(lens) == End(lens, MAX_BITS)
  {
    if lens == [] {
      EndEmpty(MAX_BITS);
    } else {
      var rest := lens[..|lens| - 1];
      KraftSumIsEnd(rest);
      PrefixKraft(lens, |rest|, |rest|);
      assert KraftSum(rest) == KraftTo(lens, |rest|);
      EndDropLast(lens, MAX_BITS);
    }
  }

  lemma {:induction false} PrefixKraft(lens: seq<nat>, m: nat, n: nat)
    requires Lengths(lens) && n <= m <= |lens|
    ensures KraftTo(lens[..m], n) == KraftTo(lens, n)
  {
    if n == 0 {
    } else {
      PrefixKraft(lens, m, n - 1);
    }
  }

  lemma {:induction false} EndEmpty(s: nat)
    ensures End([], s) == 0
  {
    if s == 0 {
    } else {
      EndEmpty(s - 1);
    }
  }

  lemma {:induction false} EndDropLast(lens: seq<nat>, s: nat)
    requires lens != []
    ensures End(lens, s) == End(lens[..|lens| - 1], s)
                            + (var x := lens[|lens| - 1]; if 1 <= x <= s then Pow2(s - x) else 0)
  {
    if s == 0 {
    } else {
      EndDropLast(lens, s - 1);
      CountDropLast(lens, s);
    }
  }

  /** End only doubles from one length to the next, so an overrun at one length lasts. */
  lemma {:induction false} EndGrows(lens: seq<nat>, s: nat, t: nat)
    requires s <= t && End(lens, s) > Pow2(s)
    ensures End(lens, t) > Pow2(t)
  {
    if s == t {
    } else {
      EndGrows(lens, s, t - 1);
    }
  }

  /** With Kraft's inequality every length has room for its codewords. */
  lemma KraftRoom(lens: seq<nat>, s: nat)
    requires Kraft(lens) && s <= MAX_BITS
    ensures End(lens, s) <= Pow2(s)
  {
    KraftSumIsEnd(lens);
    if End(lens, s) > Pow2(s) {
      EndGrows(lens, s, MAX_BITS);
    }
  }

  lemma CodeRange(lens: seq<nat>, i: nat)
    requires i < |lens| && lens[i] > 0
    ensures First(lens, lens[i]) <= Code(lens, i) < End(lens, lens[i])
    ensures Kraft(lens) ==> Code(lens, i) < Pow2(lens[i])
  {
    RankBound(lens, i);
    if Kraft(lens) {
      KraftRoom(lens, lens[i]);
    }
  }

  /** The s-bit window at p is past the codewords of length s. */
  predicate PastEnd(lens: seq<nat>, bits: seq<bool>, p: nat, s: nat)
    requires p + s <= |bits|
  {
    Msb(bits, p, s) >= End(lens, s)
  }

  // Decoding: the right length is the first one whose window lies below End.

  /** Once the window is below End it stays below First, and before that it is never below First. */
  lemma {:induction false} WindowOrder(lens: seq<nat>, bits: seq<bool>, p: nat, s: nat, t: nat)
    requires 1 <= s < t && p + t <= |bits|
    ensures Msb(bits, p, s) < End(lens, s) ==> Msb(bits, p, t) < First(lens, t)
    decreases t
  {
    MsbStep(bits, p, t - 1);
    if s + 1 == t {
    } else {
      WindowOrder(lens, bits, p, s, t - 1);
    }
  }

  lemma WindowAtLeastFirst(lens: seq<nat>, bits: seq<bool>, p: nat, s: nat)
    requires 1 <= s && p + s <= |bits|
    requires s > 1 ==> PastEnd(lens, bits, p, s - 1)
    ensures Msb(bits, p, s) >= First(lens, s)
  {
    if s > 1 {
      MsbStep(bits, p, s - 1);
    }
  }

  /** At most one symbol matches: the codewords are prefix free. */
  lemma UniqueMatch(lens: seq<nat>, i: nat, j: nat, bits: seq<bool>, p: nat)
    requires Matches(lens, i, bits, p) && Matches(lens, j, bits, p)
    ensures i == j
  {
    CodeRange(lens, i);
    CodeRange(lens, j);
    if lens[i] < lens[j] {
      WindowOrder(lens, bits, p, lens[i], lens[j]);
    } else if lens[j] < lens[i] {
      WindowOrder(lens, bits, p, lens[j], lens[i]);
    } else {
      RankInjective(lens, i, j);
    }
  }

  /** A window inside the codewords of length s shows the codeword of exactly one symbol. */
  lemma WindowMatch(lens: seq<nat>, bits: seq<bool>, p: nat, s: nat) returns (i: nat)
    requires 1 <= s && p + s <= |bits|
    requires First(lens, s) <= Msb(bits, p, s) < End(lens, s)
    ensures Matches(lens, i, bits, p) && lens[i] == s && Rank(lens, i) == Msb(bits, p, s) - First(lens, s)
  {
    i := Select(lens, |lens|, s, Msb(bits, p, s) - First(lens, s));
  }

  /** With no match of at most s bits, the window is past End at every length up to s. */
  lemma {:induction false} NoShortMatch(lens: seq<nat>, bits: seq<bool>, p: nat, s: nat)
    requires p + s <= |bits|
    requires forall i: nat {:trigger Matches(lens, i, bits, p)} :: Matches(lens, i, bits, p) ==> lens[i] > s
    ensures forall t :: 1 <= t <= s ==> PastEnd(lens, bits, p, t)
  {
    if s == 0 {
    } else {
      NoShortMatch(lens, bits, p, s - 1);
      WindowAtLeastFirst(lens, bits, p, s);
      if !PastEnd(lens, bits, p, s) {
        var i := WindowMatch(lens, bits, p, s);
      }
    }
  }

  /** A window past End at every length is the start of no codeword. */
  lemma NoMatch(lens: seq<nat>, bits: seq<bool>, p: nat)
    requires Lengths(lens) && p + MAX_BITS <= |bits|
    requires forall t :: 1 <= t <= MAX_BITS ==> PastEnd(lens, bits, p, t)
    ensures forall i: nat :: !Matches(lens, i, bits, p)
  {
    forall i: nat ensures !Matches(lens, i, bits, p) {
      if i < |lens| && lens[i] > 0 {
        CodeRange(lens, i);
        assert PastEnd(lens, bits, p, lens[i]);
      }
    }
  }

  /** No codeword is a prefix of another one's. */
  lemma PrefixFree(lens: seq<nat>, i: nat, j: nat)
    requires Kraft(lens) && i < |lens| && j < |lens| && i != j && 0 < lens[i] <= lens[j]
    ensures MsbWord(Code(lens, i), lens[i]) != MsbWord(Code(lens, j), lens[j])[..lens[i]]
  {
    var w := MsbWord(Code(lens, j), lens[j]);
    CodeRange(lens, i);
    CodeRange(lens, j);
    HoldsSlice(w, 0, w);
    HoldsSlice(w, 0, MsbWord(Code(lens, i), lens[i]));
    MsbHolds(w, 0, lens[j], Code(lens, j));
    MsbHolds(w, 0, lens[i], Code(lens, i));
    if w[..lens[i]] == MsbWord(Code(lens, i), lens[i]) {
      UniqueMatch(lens, i, j, w, 0);
    }
  }
}
