/** The decoding table of ssfn.h and the function that builds it. */
module HuffmanTable {
  import opened BitOps
  import opened BitReversal
  import opened CanonicalCode
  import opened FastTable

  class Huffman {
    const fast: array<nat>
    const firstCode: array<nat>
    const maxCode: array<nat>
    const firstSymbol: array<nat>
    const size: array<nat>
    const value: array<nat>

    ghost predicate Valid()
    {
      && fast.Length == FAST_SIZE && firstCode.Length == 16 && maxCode.Length == 17
      && firstSymbol.Length == 16 && size.Length == 288 && value.Length == 288
      && fast != size && fast != value && size != value && firstCode != firstSymbol
    }

    ghost function Repr(): set<object>
    {
      {fast, firstCode, maxCode, firstSymbol, size, value}
    }

    constructor ()
      ensures Valid() && fresh(Repr())
    {
      fast := new nat[FAST_SIZE];
      firstCode := new nat[16];
      maxCode := new nat[17];
      firstSymbol := new nat[16];
      size := new nat[288];
      value := new nat[288];
    }

    /** The place of symbol i among all codewords, shortest first. */
    static function Place(lens: seq<nat>, i: nat): nat
      requires i < |lens|
    {
      Shorter(lens, lens[i]) + Rank(lens, i)
    }

    /** The per-length columns describe the canonical code of lens. */
    ghost predicate Columns(lens: seq<nat>)
      reads firstCode, maxCode, firstSymbol
      requires Valid()
    {
      && (forall s {:trigger firstCode[s]} :: 1 <= s <= MAX_BITS ==> firstCode[s] == First(lens, s))
      && (forall s {:trigger firstSymbol[s]} :: 1 <= s <= MAX_BITS ==> firstSymbol[s] == Shorter(lens, s))
      && (forall s {:trigger maxCode[s]} :: 1 <= s <= MAX_BITS ==> maxCode[s] == Shl(End(lens, s), 16 - s))
      && maxCode[16] == 0x10000
    }

    ghost predicate Symbols(lens: seq<nat>, n: nat)
      reads value, size
      requires Valid() && n <= |lens|
    {
      forall i {:trigger Place(lens, i)} :: 0 <= i < n && lens[i] > 0 ==>
        Place(lens, i) < 288 && value[Place(lens, i)] == i && size[Place(lens, i)] == lens[i]
    }

    ghost predicate FastEntries(lens: seq<nat>, n: nat)
      reads fast
      requires Valid() && n <= |lens|
    {
      forall j {:trigger fast[j]} :: 0 <= j < FAST_SIZE ==> fast[j] == FastEntry(lens, n, j)
    }

    /** The table decodes the canonical code of lens. */
    ghost predicate BuiltFrom(lens: seq<nat>)
      reads Repr()
    {
      && Valid() && Kraft(lens) && |lens| <= 288
      && Columns(lens) && Symbols(lens, |lens|) && FastEntries(lens, |lens|)
    }

    /** Builds the table, or returns false exactly when the lengths break Kraft's inequality. */
    method Build(sizelist: seq<nat>) returns (ok: bool)
      requires Valid() && Lengths(sizelist) && |sizelist| <= 288
      modifies Repr()
      ensures ok <==> Kraft(sizelist)
      ensures ok ==> BuiltFrom(sizelist)
    {
      forall j | 0 <= j < FAST_SIZE {
        fast[j] := 0;
      }
      var sizes := CountSizes(sizelist);
      var i := 1;
      while i < 16
        invariant 1 <= i <= 16
      {
        if sizes[i] > Shl(1, i) {
          ShlOne(i);
          KraftFails(sizelist, i);
          return false;
        }
        i := i + 1;
      }
      var nextCode := new nat[16];
      ok := AssignCodes(sizelist, sizes[..], nextCode);
      if ok {
        Fill(sizelist, nextCode);
      }
    }

    static method CountSizes(sizelist: seq<nat>) returns (sizes: array<nat>)
      requires Lengths(sizelist)
      ensures fresh(sizes) && sizes.Length == 17 && sizes[0] == 0
      ensures forall s {:trigger sizes[s]} :: 1 <= s <= MAX_BITS ==> sizes[s] == Count(sizelist, s)
    {
      sizes := new nat[17](_ => 0);
      for i := 0 to |sizelist|
        invariant forall s {:trigger sizes[s]} :: 0 <= s < 17 ==> sizes[s] == CountTo(sizelist, i, s)
      {
        sizes[sizelist[i]] := sizes[sizelist[i]] + 1;
      }
      sizes[0] := 0;
    }

    /** An overfull length refutes Kraft's inequality. */
    static lemma KraftFails(lens: seq<nat>, s: nat)
      requires Lengths(lens) && 1 <= s <= MAX_BITS && End(lens, s) > Pow2(s)
      ensures !Kraft(lens)
    {
      if Kraft(lens) {
        KraftRoom(lens, s);
      }
    }

    /** From one length to the next: the running code and symbol count, and their ranges. */
    static lemma Advance(lens: seq<nat>, i: nat)
      requires 1 <= i <= MAX_BITS && |lens| <= 288 && End(lens, i - 1) <= Pow2(i - 1)
      ensures First(lens, i) <= Pow2(i) && First(lens, i) < 0x10000 && Shorter(lens, i) < 0x10000
      ensures End(lens, i) == First(lens, i) + Count(lens, i)
      ensures First(lens, i + 1) == Shl(End(lens, i), 1)
      ensures Shorter(lens, i + 1) == Shorter(lens, i) + Count(lens, i)
    {
      Pow2Monotone(i, 15);
      Pow2Values();
      ShorterBound(lens, i);
    }

    /** The columns describe the codewords of the lengths below n. */
    ghost predicate ColumnsTo(lens: seq<nat>, n: nat, nextCode: array<nat>)
      reads firstCode, maxCode, firstSymbol, nextCode
      requires Valid() && n <= 16 && nextCode.Length == 16
    {
      && (forall s {:trigger nextCode[s]} :: 1 <= s < n ==> nextCode[s] == First(lens, s))
      && (forall s {:trigger firstCode[s]} :: 1 <= s < n ==> firstCode[s] == First(lens, s))
      && (forall s {:trigger firstSymbol[s]} :: 1 <= s < n ==> firstSymbol[s] == Shorter(lens, s))
      && (forall s {:trigger maxCode[s]} :: 1 <= s < n ==> maxCode[s] == Shl(End(lens, s), 16 - s))
    }

    /** One length: its first code and symbol, and where its codes end; false when they overrun. */
    method AssignLength(ghost lens: seq<nat>, i: nat, count: nat, code: nat, k: nat, nextCode: array<nat>)
        returns (ok: bool, code': nat)
      requires Valid() && Lengths(lens) && |lens| <= 288 && 1 <= i < 16 && count == Count(lens, i)
      requires nextCode.Length == 16 && nextCode != firstCode && nextCode != firstSymbol && nextCode != maxCode
      requires code == First(lens, i) && k == Shorter(lens, i) && End(lens, i - 1) <= Pow2(i - 1)
      requires ColumnsTo(lens, i, nextCode)
      modifies firstCode, maxCode, firstSymbol, nextCode
      ensures ok <==> End(lens, i) <= Pow2(i)
      ensures ok ==> ColumnsTo(lens, i + 1, nextCode) && code' == First(lens, i + 1)
    {
      Advance(lens, i);
      code' := code;
      var code16, k16 := code % 0x10000, k % 0x10000;
      assert code16 == First(lens, i) && k16 == Shorter(lens, i);
      nextCode[i], firstCode[i], firstSymbol[i] := code, code16, k16;
      code' := code' + count;
      if count != 0 {
        ShlOne(i);
        if code' - 1 >= Shl(1, i) {
          return false, code';
        }
      }
      maxCode[i] := Shl(code', 16 - i);
      code' := Shl(code', 1);
      ok := true;
    }

    /** The column of the last codes ends with a value above every window. */
    method CloseColumns(ghost lens: seq<nat>, ghost nextCode: array<nat>)
      requires Valid() && nextCode.Length == 16 && nextCode != maxCode && ColumnsTo(lens, 16, nextCode)
      modifies maxCode
      ensures Columns(lens) && ColumnsTo(lens, 16, nextCode)
    {
      maxCode[16] := 0x10000;
    }

    method AssignCodes(ghost lens: seq<nat>, sizes: seq<nat>, nextCode: array<nat>) returns (ok: bool)
      requires Valid() && Lengths(lens) && |lens| <= 288
      requires |sizes| == 17 && nextCode.Length == 16
      requires nextCode != firstCode && nextCode != firstSymbol && nextCode != maxCode
      requires forall s {:trigger sizes[s]} :: 1 <= s <= MAX_BITS ==> sizes[s] == Count(lens, s)
      modifies firstCode, maxCode, firstSymbol, nextCode
      ensures ok <==> Kraft(lens)
      ensures ok ==> Columns(lens)
      ensures ok ==> forall s {:trigger nextCode[s]} :: 1 <= s <= MAX_BITS ==> nextCode[s] == First(lens, s)
    {
      var code: nat, k: nat := 0, 0;
      var i := 1;
      while i < 16
        invariant 1 <= i <= 16
        invariant code == First(lens, i) && k == Shorter(lens, i)
        invariant End(lens, i - 1) <= Pow2(i - 1)
        invariant ColumnsTo(lens, i, nextCode)
      {
        ok, code := AssignLength(lens, i, sizes[i], code, k, nextCode);
        if !ok {
          KraftFails(lens, i);
          return;
        }
        k := k + sizes[i];
        i := i + 1;
      }
      CloseColumns(lens, nextCode);
      KraftSumIsEnd(lens);
      ok := true;
    }

    /** Symbol i gets a place of its own. */
    static lemma NewPlace(lens: seq<nat>, i: nat)
      requires i < |lens| <= 288 && lens[i] > 0
      ensures Place(lens, i) < 288
      ensures forall h :: 0 <= h < i && lens[h] > 0 ==> Place(lens, h) != Place(lens, i)
    {
      RankBound(lens, i);
      ShorterBound(lens, lens[i]);
      forall h | 0 <= h < i && lens[h] > 0 ensures Place(lens, h) != Place(lens, i) {
        if Place(lens, h) == Place(lens, i) {
          PlaceInjective(lens, h, i);
        }
      }
    }

    /** nextCode has moved on past the codewords of the first n symbols. */
    ghost predicate NextCodes(lens: seq<nat>, n: nat, nextCode: array<nat>)
      reads nextCode
      requires n <= |lens| && nextCode.Length == 16
    {
      forall s {:trigger nextCode[s]} :: 1 <= s <= MAX_BITS ==> nextCode[s] == First(lens, s) + CountTo(lens, n, s)
    }

    method Fill(sizelist: seq<nat>, nextCode: array<nat>)
      requires Valid() && Kraft(sizelist) && |sizelist| <= 288 && Columns(sizelist)
      requires nextCode.Length == 16 && nextCode !in Repr()
      requires forall s {:trigger nextCode[s]} :: 1 <= s <= MAX_BITS ==> nextCode[s] == First(sizelist, s)
      requires forall j {:trigger fast[j]} :: 0 <= j < FAST_SIZE ==> fast[j] == 0
      modifies fast, size, value, nextCode
      ensures Symbols(sizelist, |sizelist|) && FastEntries(sizelist, |sizelist|)
    {
      for i := 0 to |sizelist|
        invariant NextCodes(sizelist, i, nextCode)
        invariant Symbols(sizelist, i)
        invariant FastEntries(sizelist, i)
      {
        if sizelist[i] != 0 {
          FillSymbol(sizelist, i, nextCode);
        }
      }
    }

    method FillSymbol(sizelist: seq<nat>, i: nat, nextCode: array<nat>)
      requires Valid() && Kraft(sizelist) && |sizelist| <= 288 && Columns(sizelist)
      requires i < |sizelist| && sizelist[i] > 0
      requires nextCode.Length == 16 && nextCode !in Repr()
      requires NextCodes(sizelist, i, nextCode) && Symbols(sizelist, i) && FastEntries(sizelist, i)
      modifies fast, size, value, nextCode
      ensures NextCodes(sizelist, i + 1, nextCode)
      ensures Symbols(sizelist, i + 1) && FastEntries(sizelist, i + 1)
    {
      var s := sizelist[i];
      var code := nextCode[s];
      var c := code - firstCode[s] + firstSymbol[s];
      assert code == Code(sizelist, i) && c == Place(sizelist, i);
      var fastv := BitOr(i, Shl(s, 9)) % 0x10000;
      assert fastv == Packed(sizelist, i) by { PackedFields(sizelist, i); }
      NewPlace(sizelist, i);
      size[c], value[c] := s, i;
      assert Symbols(sizelist, i + 1);
      nextCode[s] := code + 1;
      assert NextCodes(sizelist, i + 1, nextCode);
      if s <= FAST_BITS {
        var start := BitReverse(code, s);
        assert start == Rev(code, s) by {
          CodeRange(sizelist, i);
          BitReverseIsRev(code, s);
        }
        FillFast(sizelist, i, s, start, fastv);
      }
    }

    /** The strided writes for one symbol: exactly the indices that end in its reversed codeword. */
    method FillFast(ghost lens: seq<nat>, ghost i: nat, s: nat, start: nat, fastv: nat)
      requires Valid() && i < |lens| && 1 <= s == lens[i] <= FAST_BITS
      requires start == Rev(Code(lens, i), s) && fastv == Packed(lens, i)
      requires FastEntries(lens, i)
      modifies fast
      ensures FastEntries(lens, i + 1)
    {
      var j := start;
      ShlOne(s);
      Pow2Monotone(s, 9);
      Pow2Values();
      LowIdentity(start, s);
      forall x | 0 <= x < j ensures !FastMatch(lens, i, x) {
        LowIdentity(x, s);
      }
      while j < FAST_SIZE
        invariant Low(j, s) == start
        invariant forall x {:trigger fast[x]} :: 0 <= x < FAST_SIZE ==>
                    fast[x] == if x < j && FastMatch(lens, i, x) then fastv else FastEntry(lens, i, x)
      {
        fast[j] := fastv;
        forall x | j <= x < j + Pow2(s) ensures FastMatch(lens, i, x) <==> x == j {
          LowStride(j, x - j, s);
        }
        LowStride(j, Pow2(s), s);
        j := j + Shl(1, s);
      }
    }
  }
}
