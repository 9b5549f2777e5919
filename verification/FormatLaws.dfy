/** What the reference decoder reads, said in the numbers of RFC 1951 and of the stream's bits
    alone: block kinds, header counts, code length code, runs, stored lengths, symbols. */
module FormatLaws {
  import opened BitOps
  import opened BitStream
  import opened CanonicalCode
  import opened Tables
  import opened Deflate
  import opened TokenCoding
  import opened HeaderCoding

  // Block headers (section 3.2.3).

  lemma TwoBits(bits: seq<bool>, p: nat)
    requires p + 2 <= |bits|
    ensures Lsb(bits, p, 1) == (if bits[p] then 1 else 0)
    ensures Lsb(bits, p, 2) == (if bits[p] then 1 else 0) + (if bits[p + 1] then 2 else 0)
  {
    assert Lsb(bits, p + 2, 0) == 0;
    assert Lsb(bits, p + 1, 1) == if bits[p + 1] then 1 else 0;
  }

  function WithFlag(fin: bool, r: Outcome<seq<Byte>>): Outcome<(bool, seq<Byte>)>
  {
    match r
    case Done(o, q) => Done((fin, o), q)
    case Corrupt => Corrupt
    case Undefined => Undefined
  }

  /** The first bit says whether the block is the last one, and the next two, low one first,
      what it is: 00 stored, 01 fixed codes, 10 dynamic codes, 11 an error. */
  lemma BlockKinds(bits: seq<bool>, p: nat, out: seq<Byte>, cap: nat)
    requires p + 1 + LOOKAHEAD <= |bits|
    ensures RefAnyBlock(bits, p, out, cap)
            == WithFlag(bits[p],
                        match (bits[p + 2], bits[p + 1])
                        case (false, false) => RefStored(bits, p + 3, out, cap)
                        case (false, true) => RefBlock(FixedLengths(), FixedDistances(), bits, p + 3, out, cap)
                        case (true, false) => RefDynamic(bits, p + 3, out, cap)
                        case (true, true) => Corrupt)
  {
    TwoBits(bits, p);
    TwoBits(bits, p + 1);
    AnyBlockRead(bits, p, out, cap);
    BodySteps(Lsb(bits, p + 1, 2), bits, p + 3, out, cap, p + 5);
  }

  // Stored blocks (section 3.2.4).

  lemma StoredDone(bits: seq<bool>, p: nat, out: seq<Byte>, cap: nat) returns (a: nat, len: nat, nlen: nat)
    requires RefStored(bits, p, out, cap).Done?
    ensures p <= a < p + 8 && a % 8 == 0 && a + 32 + 8 * len <= |bits|
    ensures len == Lsb(bits, a, 16) && nlen == Lsb(bits, a + 16, 16) && nlen == 0xFFFF - len
    ensures RefStored(bits, p, out, cap) == Done(out + BytesAt(bits, a + 32, len), a + 32 + 8 * len)
  {
    a := Aligned(p);
    len, nlen := Lsb(bits, a, 16), Lsb(bits, a + 16, 16);
  }

  /** From the next byte boundary a: two bytes LEN, low one first, two bytes that are its ones'
      complement, and LEN bytes of data. */
  lemma StoredLengths(bits: seq<bool>, p: nat, out: seq<Byte>, cap: nat) returns (a: nat, lo: nat, hi: nat)
    requires RefStored(bits, p, out, cap).Done?
    ensures p <= a < p + 8 && a % 8 == 0 && a + 32 + 8 * (256 * hi + lo) <= |bits|
    ensures lo == Lsb(bits, a, 8) < 256 && hi == Lsb(bits, a + 8, 8) < 256
    ensures Lsb(bits, a + 16, 8) == 255 - lo && Lsb(bits, a + 24, 8) == 255 - hi
    ensures RefStored(bits, p, out, cap)
            == Done(out + BytesAt(bits, a + 32, 256 * hi + lo), a + 32 + 8 * (256 * hi + lo))
  {
    var len, nlen;
    a, len, nlen := StoredDone(bits, p, out, cap);
    lo, hi := BytePair(bits, a);
    var nlo, nhi := BytePair(bits, a + 16);
    Complemented(lo, hi, nlo, nhi);
  }

  lemma BytePair(bits: seq<bool>, p: nat) returns (lo: nat, hi: nat)
    requires p + 16 <= |bits|
    ensures lo == Lsb(bits, p, 8) < 256 && hi == Lsb(bits, p + 8, 8) < 256 && Lsb(bits, p, 16) == 256 * hi + lo
  {
    lo, hi := Lsb(bits, p, 8), Lsb(bits, p + 8, 8);
    Pow2Values();
    WindowBound(bits, p, 8);
    WindowBound(bits, p + 8, 8);
    LsbJoin(bits, p, 8, 8);
    ShlEight(hi);
  }

  lemma Complemented(lo: nat, hi: nat, nlo: nat, nhi: nat)
    requires lo < 256 && hi < 256 && nlo < 256 && nhi < 256
    requires 256 * nhi + nlo == 0xFFFF - (256 * hi + lo)
    ensures nlo == 255 - lo && nhi == 255 - hi
  {
  }

  // Dynamic headers (section 3.2.7).

  /** HLIT, HDIST and HCLEN: five, five and four bits, counted from 257, 1 and 4. */
  lemma HeaderCounts(bits: seq<bool>, p: nat)
    requires RefCounts(bits, p).Done?
    ensures p + 14 <= |bits| && RefCounts(bits, p).next == p + 14
    ensures RefCounts(bits, p).value == (257 + Lsb(bits, p, 5), 1 + Lsb(bits, p + 5, 5), 4 + Lsb(bits, p + 10, 4))
  {
  }

  /** Where the three bits for symbol s stand: first 16, 17, 18, then 0, then outward from 8 on. */
  function SizePlace(s: nat): (k: nat)
    requires s < 19
    ensures k < 19
  {
    if s >= 16 then s - 16 else if s == 0 then 3 else if s >= 8 then 2 * s - 12 else 19 - 2 * s
  }

  lemma PlaceOfEntry(k: nat)
    requires k < 19
    ensures |DEZIGZAG| == 19 && DEZIGZAG[k] < 19 && SizePlace(DEZIGZAG[k]) == k
  {
    match k {
      case 0 => case 1 => case 2 => case 3 => case 4 => case 5 => case 6 => case 7 => case 8 => case 9 =>
      case 10 => case 11 => case 12 => case 13 => case 14 => case 15 => case 16 => case 17 => case _ =>
    }
  }

  lemma PlaceOneToOne(s: nat, t: nat)
    requires s < 19 && t < 19 && SizePlace(s) == SizePlace(t)
    ensures s == t
  {
  }

  lemma {:induction false} SizesFrom(bits: seq<bool>, p: nat, k: nat, hclen: nat, sizes: seq<nat>, s: nat)
    requires k <= hclen <= 19 && SmallSizes(sizes) && s < 19 && RefSizes(bits, p, k, hclen, sizes).Done?
    requires p <= |bits|
    ensures p + 3 * (hclen - k) <= |bits|
    ensures RefSizes(bits, p, k, hclen, sizes).value[s]
            == if k <= SizePlace(s) < hclen then Lsb(bits, p + 3 * (SizePlace(s) - k), 3) else sizes[s]
    decreases hclen - k
  {
    if k == hclen {
    } else {
      var r := RefReceive(bits, p, 3);
      WindowBound(bits, p, 3);
      assert Pow2(3) == 8;
      SizeStep(bits, p, k, hclen, sizes, r.value);
      SizesFrom(bits, p + 3, k + 1, hclen, sizes[DEZIGZAG[k] := r.value], s);
      PlaceOfEntry(k);
      if SizePlace(s) == k {
        PlaceOneToOne(s, DEZIGZAG[k]);
      }
    }
  }

  /** The length of symbol s in the code length code is the three bits at its place, and 0 when
      HCLEN does not reach so far. */
  lemma CodeLengthSizes(bits: seq<bool>, p: nat, hclen: nat, s: nat)
    requires hclen <= 19 && s < 19 && p <= |bits| && RefSizes(bits, p, 0, hclen, Copies(0, 19)).Done?
    ensures p + 3 * hclen <= |bits|
    ensures RefSizes(bits, p, 0, hclen, Copies(0, 19)).value[s]
            == if SizePlace(s) < hclen then Lsb(bits, p + 3 * SizePlace(s), 3) else 0
  {
    SizesFrom(bits, p, 0, hclen, Copies(0, 19), s);
  }

  lemma {:induction false} PlacedAt(sizes: seq<nat>, k: nat, order: seq<nat>, s: nat)
    requires |sizes| == 19 && k + |order| <= 19 && s < 19
    ensures Placed(sizes, k, order)[s]
            == if k <= SizePlace(s) < k + |order| then order[SizePlace(s) - k] else sizes[s]
    decreases |order|
  {
    if order == [] {
    } else {
      PlaceOfEntry(k);
      if SizePlace(s) == k {
        PlaceOneToOne(s, DEZIGZAG[k]);
      }
      PlacedAt(sizes[DEZIGZAG[k] := order[0]], k + 1, order[1..], s);
    }
  }

  /** The same of what an encoder writes. */
  lemma LengthCodePlaces(order: seq<nat>, s: nat)
    requires |order| <= 19 && s < 19
    ensures LengthCode(order)[s] == if SizePlace(s) < |order| then order[SizePlace(s)] else 0
  {
    LengthCodeSteps(order, |order| + 2);
    PlacedAt(Copies(0, 19), 0, order, s);
  }

  /** Symbol 16 repeats the length before it 3 to 6 times, by two more bits; that must be there
      and fit. */
  lemma RepeatsLast(cl: seq<nat>, bits: seq<bool>, p: nat, total: nat, acc: seq<nat>, q: nat)
    requires Coder(cl) && |acc| < total && Lengths(acc) && RefSymbol(cl, bits, p) == Done(16, q)
    requires q + LOOKAHEAD <= |bits|
    ensures var again := seq(3 + Lsb(bits, q, 2), _ => if acc == [] then 0 else acc[|acc| - 1]);
            && Lengths(acc + again)
            && RefLengths(cl, bits, p, total, acc)
               == if acc == [] || |acc| + |again| > total then Corrupt
                  else RefLengths(cl, bits, q + 2, total, acc + again)
  {
    RunStep(cl, bits, p, total, acc, 16, q, Lsb(bits, q, 2), q + 2);
    var last := if acc == [] then 0 else acc[|acc| - 1];
    assert seq(3 + Lsb(bits, q, 2), _ => last) == Copies(last, 3 + Lsb(bits, q, 2));
  }

  /** Symbol 17 stands for 3 to 10 zeros, by three more bits, and symbol 18 for 11 to 138, by
      seven; they must fit. */
  lemma RunsOfZeros(cl: seq<nat>, bits: seq<bool>, p: nat, total: nat, acc: seq<nat>, c: nat, q: nat)
    requires Coder(cl) && |acc| < total && Lengths(acc) && (c == 17 || c == 18)
    requires RefSymbol(cl, bits, p) == Done(c, q) && q + LOOKAHEAD <= |bits|
    ensures var extra := if c == 17 then 3 else 7;
            var zeros := seq((if c == 17 then 3 else 11) + Lsb(bits, q, extra), _ => 0);
            && Lengths(acc + zeros)
            && RefLengths(cl, bits, p, total, acc)
               == if |acc| + |zeros| > total then Corrupt else RefLengths(cl, bits, q + extra, total, acc + zeros)
  {
    var extra := if c == 17 then 3 else 7;
    var n := (if c == 17 then 3 else 11) + Lsb(bits, q, extra);
    RunStep(cl, bits, p, total, acc, c, q, Lsb(bits, q, extra), q + extra);
    assert seq(n, _ => 0) == Copies(0, n);
  }

  /** A symbol below 16 is a length. */
  lemma PlainLength(cl: seq<nat>, bits: seq<bool>, p: nat, total: nat, acc: seq<nat>, c: nat, q: nat)
    requires Coder(cl) && |acc| < total && Lengths(acc) && c < 16 && RefSymbol(cl, bits, p) == Done(c, q)
    ensures RefLengths(cl, bits, p, total, acc) == RefLengths(cl, bits, q, total, acc + [c])
  {
    OneStep(cl, bits, p, total, acc, c, q);
  }

  /** The first HLIT lengths are those of the literal/length code, the next HDIST those of the
      distance code. */
  lemma HeaderSplit(bits: seq<bool>, p: nat)
    requires RefHeader(bits, p).Done? && p <= |bits|
    ensures p + 14 <= |bits|
    ensures var hlit, hdist, hclen := 257 + Lsb(bits, p, 5), 1 + Lsb(bits, p + 5, 5), 4 + Lsb(bits, p + 10, 4);
            && hclen <= 19
            && (var lens := RefCodeLengths(bits, p + 14, hclen, hlit + hdist);
                && lens.Done? && |lens.value| == hlit + hdist
                && RefHeader(bits, p) == Done((lens.value[..hlit], lens.value[hlit..]), lens.next))
  {
    HeaderSteps(bits, p, p + 2);
    HeaderCounts(bits, p);
  }

  // Symbols (section 3.2.5).

  /** Symbols below 256 are bytes, 256 ends the block. Symbol 257 + k is a length, of base and
      extra bits as in LengthLadder, and is followed by a distance symbol, as in DistLadder. */
  lemma SymbolNumbers(ll: seq<nat>, dl: seq<nat>, b: Byte, k: nat, e: nat, d: nat, f: nat)
    ensures Word(ll, dl, Literal(b)) == Codeword(ll, b as nat) && ItemOf(Literal(b)) == Single(b)
    ensures BlockWord(ll, dl, []) == Codeword(ll, 256)
    ensures Word(ll, dl, Match(257 + k, e, d, f))
            == Codeword(ll, 257 + k)
               + (LsbWord(e, LengthExtra(k)) + (Codeword(dl, d) + LsbWord(f, DistExtra(d))))
    ensures ItemOf(Match(257 + k, e, d, f)) == Copy(LengthBase(k) + e, DistBase(d) + f)
  {
    MatchWordSteps(dl, 257 + k, e, d, f, 257 + k + 2);
  }
}
