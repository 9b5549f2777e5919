/** Two compressed streams, byte by byte, and what they decompress to: one stored block, and one
    with the fixed codes, a literal and a match. */
module KnownStreams {
  import opened BitOps
  import opened BitStream
  import opened Substrings
  import opened CanonicalCode
  import opened Tables
  import opened Deflate
  import opened FixedCodes
  import opened Lz77
  import opened TokenCoding
  import opened StreamCoding
  import opened FormatLaws

  // Numbers in the stream, bit by bit.

  function B(bits: seq<bool>, p: nat): nat
    requires p < |bits|
  {
    if bits[p] then 1 else 0
  }

  lemma LsbThree(bits: seq<bool>, p: nat)
    requires p + 3 <= |bits|
    ensures Lsb(bits, p, 3) == B(bits, p) + 2 * B(bits, p + 1) + 4 * B(bits, p + 2)
  {
    TwoBits(bits, p + 1);
  }

  lemma LsbFive(bits: seq<bool>, p: nat)
    requires p + 5 <= |bits|
    ensures Lsb(bits, p, 5)
            == B(bits, p) + 2 * B(bits, p + 1) + 4 * B(bits, p + 2) + 8 * B(bits, p + 3) + 16 * B(bits, p + 4)
  {
    LsbThree(bits, p + 2);
    assert Lsb(bits, p + 1, 4) == B(bits, p + 1) + 2 * Lsb(bits, p + 2, 3);
  }

  lemma LsbSeven(bits: seq<bool>, p: nat)
    requires p + 7 <= |bits|
    ensures Lsb(bits, p, 7)
            == B(bits, p) + 2 * B(bits, p + 1) + 4 * B(bits, p + 2) + 8 * B(bits, p + 3) + 16 * B(bits, p + 4)
               + 32 * B(bits, p + 5) + 64 * B(bits, p + 6)
  {
    LsbFive(bits, p + 2);
    assert Lsb(bits, p + 1, 6) == B(bits, p + 1) + 2 * Lsb(bits, p + 2, 5);
  }

  function Halved(v: nat, k: nat): nat
  {
    if k == 0 then v else Halved(v / 2, k - 1)
  }

  lemma {:induction false} WordBit(v: nat, n: nat, k: nat)
    requires k < n
    ensures LsbWord(v, n)[k] == (Halved(v, k) % 2 == 1)
  {
    LsbWordUnfold(v, n);
    if k == 0 {
    } else {
      WordBit(v / 2, n - 1, k - 1);
    }
  }

  /** Bit k of a byte of the stream. */
  lemma ByteBit(bits: seq<bool>, bytes: seq<Byte>, i: nat, k: nat, v: nat)
    requires IsBitsOf(bits, bytes) && i < |bytes| && k < 8 && bytes[i] as nat == v
    ensures bits[8 * i + k] == (Halved(v, k) % 2 == 1)
  {
    Pow2Values();
    LsbHolds(bits, 8 * i, 8, v);
    HoldsAt(bits, 8 * i, LsbWord(v, 8), k);
    WordBit(v, 8, k);
  }

  lemma MsbTwo(bits: seq<bool>, p: nat)
    requires p + 2 <= |bits|
    ensures Msb(bits, p, 1) == B(bits, p) && Msb(bits, p, 2) == 2 * B(bits, p) + B(bits, p + 1)
  {
    MsbStep(bits, p, 0);
    MsbStep(bits, p, 1);
  }

  lemma MsbFive(bits: seq<bool>, p: nat)
    requires p + 5 <= |bits|
    ensures Msb(bits, p, 5)
            == 16 * B(bits, p) + 8 * B(bits, p + 1) + 4 * B(bits, p + 2) + 2 * B(bits, p + 3) + B(bits, p + 4)
  {
    MsbTwo(bits, p);
    MsbStep(bits, p, 2);
    MsbStep(bits, p, 3);
    MsbStep(bits, p, 4);
  }

  lemma MsbEight(bits: seq<bool>, p: nat)
    requires p + 8 <= |bits|
    ensures Msb(bits, p, 7)
            == 64 * B(bits, p) + 32 * B(bits, p + 1) + 16 * B(bits, p + 2) + 8 * B(bits, p + 3) + 4 * B(bits, p + 4)
               + 2 * B(bits, p + 5) + B(bits, p + 6)
    ensures Msb(bits, p, 8) == 2 * Msb(bits, p, 7) + B(bits, p + 7)
  {
    MsbFive(bits, p);
    MsbStep(bits, p, 5);
    MsbStep(bits, p, 6);
    MsbStep(bits, p, 7);
  }

  lemma Halves(v: nat)
    ensures Halved(v, 0) == v && Halved(v, 1) == v / 2 && Halved(v, 2) == v / 2 / 2 && Halved(v, 3) == v / 2 / 2 / 2
  {
    assert Halved(v / 2, 1) == v / 2 / 2;
    assert Halved(v / 2, 2) == Halved(v / 2 / 2, 1);
  }

  lemma {:induction false} HalvedMore(v: nat, k: nat)
    ensures Halved(v, k + 4) == Halved(v / 2 / 2 / 2 / 2, k)
  {
    assert Halved(v, k + 4) == Halved(v / 2, k + 3);
    assert Halved(v / 2, k + 3) == Halved(v / 2 / 2, k + 2);
    assert Halved(v / 2 / 2, k + 2) == Halved(v / 2 / 2 / 2, k + 1);
  }

  lemma Eighths(v: nat)
    ensures Halved(v, 0) == v && Halved(v, 1) == v / 2 && Halved(v, 2) == v / 4 && Halved(v, 3) == v / 8
    ensures Halved(v, 4) == v / 16 && Halved(v, 5) == v / 32 && Halved(v, 6) == v / 64 && Halved(v, 7) == v / 128
  {
    Halves(v);
    var w := v / 2 / 2 / 2 / 2;
    Halves(w);
    HalvedMore(v, 0);
    HalvedMore(v, 1);
    HalvedMore(v, 2);
    HalvedMore(v, 3);
    assert w == v / 16;
  }

  /** The eight bits of a byte of the stream. */
  lemma ByteIs(bits: seq<bool>, bytes: seq<Byte>, i: nat, v: nat)
    requires IsBitsOf(bits, bytes) && i < |bytes| && bytes[i] as nat == v
    ensures var p := 8 * i;
            && bits[p] == (v % 2 == 1) && bits[p + 1] == (v / 2 % 2 == 1)
            && bits[p + 2] == (v / 4 % 2 == 1) && bits[p + 3] == (v / 8 % 2 == 1)
            && bits[p + 4] == (v / 16 % 2 == 1) && bits[p + 5] == (v / 32 % 2 == 1)
            && bits[p + 6] == (v / 64 % 2 == 1) && bits[p + 7] == (v / 128 % 2 == 1)
  {
    Eighths(v);
    ByteBit(bits, bytes, i, 0, v);
    ByteBit(bits, bytes, i, 1, v);
    ByteBit(bits, bytes, i, 2, v);
    ByteBit(bits, bytes, i, 3, v);
    ByteBit(bits, bytes, i, 4, v);
    ByteBit(bits, bytes, i, 5, v);
    ByteBit(bits, bytes, i, 6, v);
    ByteBit(bits, bytes, i, 7, v);
  }

  /** The three bits that start the stream. */
  lemma BlockStart(bits: seq<bool>, bytes: seq<Byte>, v: nat)
    requires IsBitsOf(bits, bytes) && bytes != [] && bytes[0] as nat == v
    ensures bits[0] == (v % 2 == 1) && bits[1] == (v / 2 % 2 == 1) && bits[2] == (v / 4 % 2 == 1)
  {
    ByteIs(bits, bytes, 0, v);
  }

  /** A stream of one block. */
  lemma OneBlock(bits: seq<bool>, cap: nat, o: seq<Byte>, q: nat)
    requires 1 + LOOKAHEAD <= |bits| && bits[0]
    requires match (bits[2], bits[1])
             case (false, false) => RefStored(bits, 3, [], cap) == Done(o, q)
             case (false, true) => RefBlock(FixedLengths(), FixedDistances(), bits, 3, [], cap) == Done(o, q)
             case (true, false) => RefDynamic(bits, 3, [], cap) == Done(o, q)
             case (true, true) => false
    ensures RefStream(bits, 0, [], cap) == Done(o, q)
  {
    BlockKinds(bits, 0, [], cap);
    StreamStep(bits, 0, [], cap, true, o, q);
  }

  // A stored block.

  lemma StoredTwo(bits: seq<bool>, bytes: seq<Byte>, cap: nat)
    requires IsBitsOf(bits, bytes) && |bytes| >= 7 && bytes[5] == 0x48 && bytes[6] == 0x69 && cap >= 2
    requires Lsb(bits, 8, 16) == 2 && Lsb(bits, 24, 16) == 0xFFFD
    ensures RefStored(bits, 3, [], cap) == Done([0x48, 0x69], 56)
  {
    assert Aligned(3) == 8;
    var data := BytesAt(bits, 40, 2);
    assert data[0] as nat == bytes[5] as nat && data[1] as nat == bytes[6] as nat;
    assert [] + data == [0x48, 0x69];
  }

  lemma StoredHead(bits: seq<bool>, bytes: seq<Byte>)
    requires IsBitsOf(bits, bytes) && |bytes| >= 11
    requires bytes[1] == 2 && bytes[2] == 0 && bytes[3] == 0xFD && bytes[4] == 0xFF
    ensures Lsb(bits, 8, 16) == 2 && Lsb(bits, 24, 16) == 0xFFFD
  {
    var lo, hi := BytePair(bits, 8);
    assert lo == bytes[1] as nat && hi == bytes[2] as nat;
    var nlo, nhi := BytePair(bits, 24);
    assert nlo == bytes[3] as nat && nhi == bytes[4] as nat;
  }

  /** One final stored block: LEN 2, its complement, "Hi". */
  lemma StoredStream(bytes: seq<Byte>, cap: nat)
    requires |bytes| >= 11 && cap >= 2 && bytes[..7] == [0x01, 0x02, 0x00, 0xFD, 0xFF, 0x48, 0x69]
    ensures RefStream(Bits(bytes), 0, [], cap) == Done([0x48, 0x69], 56)
  {
    var bits := Bits(bytes);
    var head := bytes[..7];
    assert bytes[0] == head[0] && bytes[1] == head[1] && bytes[2] == head[2] && bytes[3] == head[3];
    assert bytes[4] == head[4] && bytes[5] == head[5] && bytes[6] == head[6];
    ByteBits(bytes);
    StoredHead(bits, bytes);
    StoredTwo(bits, bytes, cap);
    BlockStart(bits, bytes, 1);
    OneBlock(bits, cap, [0x48, 0x69], 56);
  }

  // The fixed codes.

  lemma CodeHeld(lens: seq<nat>, bits: seq<bool>, p: nat, i: nat)
    requires Kraft(lens) && i < |lens| && lens[i] > 0 && p + lens[i] <= |bits| && Msb(bits, p, lens[i]) == Code(lens, i)
    ensures Holds(bits, p, Codeword(lens, i))
  {
    CodewordSteps(lens, i, i + 2);
    CodeRange(lens, i);
    MsbHolds(bits, p, lens[i], Code(lens, i));
  }

  lemma FirstTwo(bits: seq<bool>, bytes: seq<Byte>)
    requires IsBitsOf(bits, bytes) && |bytes| >= 8 && bytes[0] == 0x73 && bytes[1] == 0x04 && bytes[2] == 0x02
    ensures Msb(bits, 3, 8) == 0x71 && Msb(bits, 11, 7) == 1
  {
    ByteIs(bits, bytes, 0, 0x73);
    ByteIs(bits, bytes, 1, 0x04);
    ByteIs(bits, bytes, 2, 0x02);
    MsbEight(bits, 3);
    MsbEight(bits, 11);
  }

  lemma LastTwo(bits: seq<bool>, bytes: seq<Byte>)
    requires IsBitsOf(bits, bytes) && |bytes| >= 8 && bytes[2] == 0x02 && bytes[3] == 0x00
    ensures Msb(bits, 18, 5) == 0 && Msb(bits, 23, 7) == 0
  {
    ByteIs(bits, bytes, 2, 0x02);
    ByteIs(bits, bytes, 3, 0x00);
    MsbFive(bits, 18);
    MsbEight(bits, 23);
  }

  /** The words of two tokens and of the end of the block. */
  lemma TwoTokens(ll: seq<nat>, dl: seq<nat>, bits: seq<bool>, p: nat, t: Token, u: Token)
    requires Ok(ll, dl, t) && Ok(ll, dl, u) && Holds(bits, p, Word(ll, dl, t))
    requires Holds(bits, p + |Word(ll, dl, t)|, Word(ll, dl, u))
    requires Holds(bits, p + |Word(ll, dl, t)| + |Word(ll, dl, u)|, Codeword(ll, END_OF_BLOCK))
    ensures AllOk(ll, dl, [t, u]) && Holds(bits, p, BlockWord(ll, dl, [t, u]))
    ensures |BlockWord(ll, dl, [t, u])| == |Word(ll, dl, t)| + |Word(ll, dl, u)| + |Codeword(ll, END_OF_BLOCK)|
  {
    assert [t, u][1..] == [u] && [u][1..] == [];
    HoldsConcat(bits, p + |Word(ll, dl, t)|, Word(ll, dl, u), Codeword(ll, END_OF_BLOCK));
    assert BlockWord(ll, dl, [u]) == Word(ll, dl, u) + BlockWord(ll, dl, []);
    HoldsConcat(bits, p, Word(ll, dl, t), BlockWord(ll, dl, [u]));
    assert AllOk(ll, dl, [u]);
  }

  /** A match without extra bits. */
  lemma ShortMatch(ll: seq<nat>, dl: seq<nat>, k: nat, d: nat)
    requires LengthExtra(k) == 0 && DistExtra(d) == 0
    ensures Word(ll, dl, Match(257 + k, 0, d, 0)) == Codeword(ll, 257 + k) + Codeword(dl, d)
  {
    SymbolNumbers(ll, dl, 0, k, 0, d, 0);
    LsbWordUnfold(0, 0);
    assert LsbWord(0, 0) + (Codeword(dl, d) + LsbWord(0, 0)) == Codeword(dl, d);
  }

  ghost predicate Coded(lens: seq<nat>, i: nat, n: nat, code: nat)
  {
    Kraft(lens) && i < |lens| && lens[i] == n > 0 && Code(lens, i) == code
  }

  /** Byte a, the shortest match at the shortest distance, end of block. */
  lemma ByteAndMatch(ll: seq<nat>, dl: seq<nat>, bits: seq<bool>, p: nat, a: Byte, x: nat, y: nat, z: nat, w: nat)
    requires Coded(ll, a as nat, 8, x) && Coded(ll, 257, 7, y) && Coded(dl, 0, 5, z) && Coded(ll, 256, 7, w)
    requires p + 27 <= |bits| && Msb(bits, p, 8) == x && Msb(bits, p + 8, 7) == y && Msb(bits, p + 15, 5) == z
    requires Msb(bits, p + 20, 7) == w
    ensures var ts := [Literal(a), Match(257, 0, 0, 0)];
            AllOk(ll, dl, ts) && Holds(bits, p, BlockWord(ll, dl, ts)) && |BlockWord(ll, dl, ts)| == 27
  {
    CodeHeld(ll, bits, p, a as nat);
    CodeHeld(ll, bits, p + 8, 257);
    CodeHeld(dl, bits, p + 15, 0);
    CodeHeld(ll, bits, p + 20, 256);
    LengthLadder(0);
    DistLadder(0);
    ShortMatch(ll, dl, 0, 0);
    HoldsConcat(bits, p + 8, Codeword(ll, 257), Codeword(dl, 0));
    TwoTokens(ll, dl, bits, p, Literal(a), Match(257, 0, 0, 0));
  }

  lemma FixedTokens(bits: seq<bool>)
    requires 64 <= |bits|
    requires Msb(bits, 3, 8) == 0x71 && Msb(bits, 11, 7) == 1 && Msb(bits, 18, 5) == 0 && Msb(bits, 23, 7) == 0
    ensures var ts := [Literal(65), Match(257, 0, 0, 0)];
            && BlockCodes(FixedLengths(), FixedDistances()) && AllOk(FixedLengths(), FixedDistances(), ts)
            && Holds(bits, 3, BlockWord(FixedLengths(), FixedDistances(), ts))
            && |BlockWord(FixedLengths(), FixedDistances(), ts)| == 27
  {
    FixedCodesAreComplete();
    FixedCodewords(65);
    FixedCodewords(256);
    FixedCodewords(257);
    FixedDistanceCodewords(0);
    ByteAndMatch(FixedLengths(), FixedDistances(), bits, 3, 65, 0x71, 1, 0, 0);
  }

  lemma FixedBlock(bits: seq<bool>, cap: nat)
    requires 64 <= |bits| && cap >= 4
    requires Msb(bits, 3, 8) == 0x71 && Msb(bits, 11, 7) == 1 && Msb(bits, 18, 5) == 0 && Msb(bits, 23, 7) == 0
    ensures RefBlock(FixedLengths(), FixedDistances(), bits, 3, [], cap) == Done([65, 65, 65, 65], 30)
  {
    FixedTokens(bits);
    FixedOutput(cap);
    BlockRoundTrip(FixedLengths(), FixedDistances(), bits, 3, [], cap, [Literal(65), Match(257, 0, 0, 0)]);
  }

  /** A literal 'A' and a match of length 3 at distance 1 behind it. */
  lemma FixedStream(bytes: seq<Byte>, cap: nat)
    requires |bytes| >= 8 && cap >= 4 && bytes[..4] == [0x73, 0x04, 0x02, 0x00]
    ensures RefStream(Bits(bytes), 0, [], cap) == Done([65, 65, 65, 65], 30)
  {
    var head := bytes[..4];
    assert bytes[0] == head[0] && bytes[1] == head[1] && bytes[2] == head[2] && bytes[3] == head[3];
    ByteBits(bytes);
    BlockStart(Bits(bytes), bytes, 0x73);
    FirstTwo(Bits(bytes), bytes);
    LastTwo(Bits(bytes), bytes);
    FixedBlock(Bits(bytes), cap);
    OneBlock(Bits(bytes), cap, [65, 65, 65, 65], 30);
  }

  lemma FixedOutput(cap: nat)
    requires cap >= 4
    ensures var items := Items([Literal(65), Match(257, 0, 0, 0)]);
            AllFit([], items, cap) && Expand([], items, cap) == [65, 65, 65, 65]
  {
    LengthLadder(0);
    DistLadder(0);
    var items := Items([Literal(65), Match(257, 0, 0, 0)]);
    assert items == [Single(65), Copy(3, 1)];
    ByteThenCopy(65, cap);
  }

  lemma ByteThenCopy(a: Byte, cap: nat)
    requires cap >= 4
    ensures var items := [Single(a), Copy(3, 1)];
            AllFit([], items, cap) && Expand([], items, cap) == [a, a, a, a]
  {
    var items := [Single(a), Copy(3, 1)];
    assert items[1..] == [Copy(3, 1)] && [Copy(3, 1)][1..] == [];
    CopyUnique([a], 1, 3, [a, a, a, a]);
    assert Append([], Single(a), cap) == [a];
    assert Append([a], Copy(3, 1), cap) == [a, a, a, a];
    assert AllFit([a], [Copy(3, 1)], cap) && Expand([a], [Copy(3, 1)], cap) == Expand([a, a, a, a], [], cap);
  }
}
