/** Whole DEFLATE streams as lists of blocks: what the reference decoder accepts is exactly
    what the encoder below writes, and it returns what the blocks expand to. */
module StreamCoding {
  import opened BitOps
  import opened BitStream
  import opened Substrings
  import opened Deflate
  import opened FixedCodes
  import opened TokenCoding
  import opened HeaderCoding

  /** A stored block keeps its padding bits, which the decoder skips whatever they are. */
  datatype Block =
    | Stored(pad: seq<bool>, data: seq<Byte>)
    | Fixed(tokens: seq<Token>)
    | Dynamic(header: Header, tokens: seq<Token>)

  // Stored blocks.

  function DataWord(data: seq<Byte>): (w: seq<bool>)
    ensures |w| == 8 * |data|
  {
    if data == [] then [] else LsbWord(data[0] as nat, 8) + DataWord(data[1..])
  }

  lemma ByteHolds(bits: seq<bool>, p: nat, b: Byte)
    requires p + 8 <= |bits|
    ensures Holds(bits, p, LsbWord(b as nat, 8)) <==> ByteAt(bits, p) == b
  {
    Pow2Values();
    LsbHolds(bits, p, 8, b as nat);
  }

  lemma BytesCons(bits: seq<bool>, p: nat, n: nat)
    requires n > 0 && p + 8 * n <= |bits|
    ensures BytesAt(bits, p, n) == [ByteAt(bits, p)] + BytesAt(bits, p + 8, n - 1)
  {
  }

  lemma {:induction false} DataHolds(bits: seq<bool>, p: nat, data: seq<Byte>)
    requires p + 8 * |data| <= |bits|
    ensures Holds(bits, p, DataWord(data)) <==> BytesAt(bits, p, |data|) == data
    decreases |data|
  {
    if data == [] {
      HoldsSlice(bits, p, []);
    } else {
      var rest := data[1..];
      HoldsConcat(bits, p, LsbWord(data[0] as nat, 8), DataWord(rest));
      ByteHolds(bits, p, data[0]);
      DataHolds(bits, p + 8, rest);
      BytesCons(bits, p, |data|);
      assert data == [data[0]] + rest;
    }
  }

  function StoredWord(data: seq<Byte>): (w: seq<bool>)
    ensures |w| == 32 + 8 * |data|
  {
    LsbWord(|data|, 16) + (LsbWord(if |data| < 0x10000 then 0xFFFF - |data| else 0, 16) + DataWord(data))
  }

  lemma StoredHolds(bits: seq<bool>, a: nat, data: seq<Byte>)
    requires |data| < 0x10000 && a + 32 + 8 * |data| <= |bits|
    ensures Holds(bits, a, StoredWord(data))
            <==> (Lsb(bits, a, 16) == |data| && Lsb(bits, a + 16, 16) == 0xFFFF - |data|
                  && BytesAt(bits, a + 32, |data|) == data)
  {
    Pow2Values();
    HoldsConcat(bits, a, LsbWord(|data|, 16), LsbWord(0xFFFF - |data|, 16) + DataWord(data));
    HoldsConcat(bits, a + 16, LsbWord(0xFFFF - |data|, 16), DataWord(data));
    LsbHolds(bits, a, 16, |data|);
    LsbHolds(bits, a + 16, 16, 0xFFFF - |data|);
    DataHolds(bits, a + 32, data);
  }

  lemma StoredComplete(bits: seq<bool>, p: nat, pad: seq<bool>, data: seq<Byte>, out: seq<Byte>, cap: nat)
    requires |pad| == Aligned(p) - p && |data| < 0x10000 && |out| + |data| <= cap
    requires Holds(bits, p, pad + StoredWord(data))
    ensures RefStored(bits, p, out, cap) == Done(out + data, p + |pad| + |StoredWord(data)|)
  {
    HoldsConcat(bits, p, pad, StoredWord(data));
    StoredHolds(bits, Aligned(p), data);
  }

  lemma StoredSound(bits: seq<bool>, p: nat, out: seq<Byte>, cap: nat) returns (pad: seq<bool>, data: seq<Byte>)
    requires RefStored(bits, p, out, cap).Done?
    ensures |pad| == Aligned(p) - p && |data| < 0x10000 && |out| + |data| <= cap
    ensures Holds(bits, p, pad + StoredWord(data))
    ensures RefStored(bits, p, out, cap) == Done(out + data, p + |pad| + |StoredWord(data)|)
  {
    var a := Aligned(p);
    var len := Lsb(bits, a, 16);
    WindowBound(bits, a, 16);
    Pow2Values();
    pad, data := bits[p..a], BytesAt(bits, a + 32, len);
    StoredHolds(bits, a, data);
    HoldsSlice(bits, p, pad);
    HoldsConcat(bits, p, pad, StoredWord(data));
  }

  // Blocks of any kind.

  function Kind(b: Block): (k: nat)
    ensures k < 3
  {
    match b
    case Stored(_, _) => 0
    case Fixed(_) => 1
    case Dynamic(_, _) => 2
  }

  // As in BitStream, definitions that only matter to a few lemmas sit behind some steps
  // of recursion.

  /** The block can be written at p. */
  ghost predicate BlockOk(b: Block, p: nat)
  {
    BlockOkAfter(b, p, p + 2)
  }

  ghost predicate BlockOkAfter(b: Block, p: nat, steps: nat)
  {
    if steps > 0 then BlockOkAfter(b, p, steps - 1)
    else
      match b
      case Stored(pad, data) => |pad| == Aligned(p) - p && |data| < 0x10000
      case Fixed(ts) => TokensOk(FixedLengths(), FixedDistances(), ts)
      case Dynamic(h, ts) => HeaderOk(h) && TokensOk(HeaderCodes(h).0, HeaderCodes(h).1, ts)
  }

  lemma {:induction false} BlockOkSteps(b: Block, p: nat, steps: nat)
    ensures BlockOkAfter(b, p, steps)
            <==> match b
                 case Stored(pad, data) => |pad| == Aligned(p) - p && |data| < 0x10000
                 case Fixed(ts) => TokensOk(FixedLengths(), FixedDistances(), ts)
                 case Dynamic(h, ts) => HeaderOk(h) && TokensOk(HeaderCodes(h).0, HeaderCodes(h).1, ts)
  {
    if steps == 0 {
    } else {
      BlockOkSteps(b, p, steps - 1);
    }
  }

  ghost predicate TokensOk(ll: seq<nat>, dl: seq<nat>, ts: seq<Token>)
  {
    BlockCodes(ll, dl) && AllOk(ll, dl, ts)
  }

  /** The block's bits; it need not be writable for them to be defined. */
  ghost function BodyWord(b: Block): seq<bool>
  {
    BodyWordAfter(b, (if b.Stored? then |b.pad| else |b.tokens|) + 2)
  }

  ghost function BodyWordAfter(b: Block, steps: nat): seq<bool>
  {
    if steps > 0 then BodyWordAfter(b, steps - 1)
    else
      match b
      case Stored(pad, data) => pad + StoredWord(data)
      case Fixed(ts) => BlockWord(FixedLengths(), FixedDistances(), ts)
      case Dynamic(h, ts) =>
        if HeaderOk(h) then HeaderWord(h) + BlockWord(HeaderCodes(h).0, HeaderCodes(h).1, ts) else []
  }

  lemma {:induction false} BodyWordSteps(b: Block, steps: nat)
    ensures BodyWordAfter(b, steps)
            == match b
               case Stored(pad, data) => pad + StoredWord(data)
               case Fixed(ts) => BlockWord(FixedLengths(), FixedDistances(), ts)
               case Dynamic(h, ts) =>
                 if HeaderOk(h) then HeaderWord(h) + BlockWord(HeaderCodes(h).0, HeaderCodes(h).1, ts) else []
  {
    if steps == 0 {
    } else {
      BodyWordSteps(b, steps - 1);
    }
  }

  predicate BlockFits(out: seq<Byte>, b: Block, cap: nat)
  {
    if b.Stored? then |out| + |b.data| <= cap else AllFit(out, Items(b.tokens), cap)
  }

  function BlockOutput(out: seq<Byte>, b: Block, cap: nat): seq<Byte>
    requires BlockFits(out, b, cap)
  {
    if b.Stored? then out + b.data else Expand(out, Items(b.tokens), cap)
  }

  lemma StoredMeans(pad: seq<bool>, data: seq<Byte>, p: nat)
    ensures BlockOk(Stored(pad, data), p) <==> |pad| == Aligned(p) - p && |data| < 0x10000
    ensures BodyWord(Stored(pad, data)) == pad + StoredWord(data)
  {
    BlockOkSteps(Stored(pad, data), p, p + 2);
    BodyWordSteps(Stored(pad, data), |pad| + 2);
  }

  lemma FixedMeans(ts: seq<Token>, p: nat)
    ensures BlockOk(Fixed(ts), p) <==> TokensOk(FixedLengths(), FixedDistances(), ts)
    ensures BodyWord(Fixed(ts)) == BlockWord(FixedLengths(), FixedDistances(), ts)
  {
    BlockOkSteps(Fixed(ts), p, p + 2);
    BodyWordSteps(Fixed(ts), |ts| + 2);
  }

  lemma DynamicMeans(h: Header, ts: seq<Token>, p: nat)
    ensures BlockOk(Dynamic(h, ts), p) <==> HeaderOk(h) && TokensOk(HeaderCodes(h).0, HeaderCodes(h).1, ts)
    ensures HeaderOk(h) ==>
              BodyWord(Dynamic(h, ts)) == HeaderWord(h) + BlockWord(HeaderCodes(h).0, HeaderCodes(h).1, ts)
  {
    BlockOkSteps(Dynamic(h, ts), p, p + 2);
    BodyWordSteps(Dynamic(h, ts), |ts| + 2);
  }

  lemma DynamicStep(bits: seq<bool>, p: nat, ll: seq<nat>, dl: seq<nat>, p1: nat, out: seq<Byte>, cap: nat)
    requires Codes(ll, dl) && RefHeader(bits, p) == Done((ll, dl), p1)
    ensures RefDynamic(bits, p, out, cap) == RefBlock(ll, dl, bits, p1, out, cap)
  {
  }

  lemma DynamicParts(bits: seq<bool>, p: nat, header: seq<bool>, ll: seq<nat>, dl: seq<nat>, ts: seq<Token>,
                     out: seq<Byte>, cap: nat)
    requires TokensOk(ll, dl, ts) && AllFit(out, Items(ts), cap) && RefHeader(bits, p) == Done((ll, dl), p + |header|)
    requires Holds(bits, p + |header|, BlockWord(ll, dl, ts))
             && p + |header| + |BlockWord(ll, dl, ts)| + LOOKAHEAD <= |bits|
    ensures RefDynamic(bits, p, out, cap) == Done(Expand(out, Items(ts), cap), p + |header| + |BlockWord(ll, dl, ts)|)
  {
    DynamicStep(bits, p, ll, dl, p + |header|, out, cap);
    BlockRoundTrip(ll, dl, bits, p + |header|, out, cap, ts);
  }

  lemma DynamicComplete(bits: seq<bool>, p: nat, h: Header, ts: seq<Token>, out: seq<Byte>, cap: nat)
    requires HeaderOk(h) && TokensOk(HeaderCodes(h).0, HeaderCodes(h).1, ts) && AllFit(out, Items(ts), cap)
    requires var w := HeaderWord(h) + BlockWord(HeaderCodes(h).0, HeaderCodes(h).1, ts);
             Holds(bits, p, w) && p + |w| + LOOKAHEAD <= |bits|
    ensures RefDynamic(bits, p, out, cap)
            == Done(Expand(out, Items(ts), cap),
                    p + |HeaderWord(h) + BlockWord(HeaderCodes(h).0, HeaderCodes(h).1, ts)|)
  {
    var (ll, dl) := HeaderCodes(h);
    HoldsConcat(bits, p, HeaderWord(h), BlockWord(ll, dl, ts));
    HeaderComplete(bits, p, h);
    DynamicParts(bits, p, HeaderWord(h), ll, dl, ts, out, cap);
  }

  /** The block's word stands at p, with the reader's look-ahead behind it. */
  ghost predicate BodyAt(bits: seq<bool>, p: nat, b: Block, out: seq<Byte>, cap: nat)
  {
    && BlockOk(b, p) && BlockFits(out, b, cap)
    && Holds(bits, p, BodyWord(b)) && p + |BodyWord(b)| + LOOKAHEAD <= |bits|
  }

  lemma StoredBody(bits: seq<bool>, p: nat, pad: seq<bool>, data: seq<Byte>, out: seq<Byte>, cap: nat)
    requires BodyAt(bits, p, Stored(pad, data), out, cap)
    ensures var b := Stored(pad, data);
            RefStored(bits, p, out, cap) == Done(BlockOutput(out, b, cap), p + |BodyWord(b)|)
  {
    StoredMeans(pad, data, p);
    StoredComplete(bits, p, pad, data, out, cap);
  }

  lemma FixedBody(bits: seq<bool>, p: nat, ts: seq<Token>, out: seq<Byte>, cap: nat)
    requires BodyAt(bits, p, Fixed(ts), out, cap)
    ensures var b := Fixed(ts);
            RefBlock(FixedLengths(), FixedDistances(), bits, p, out, cap)
            == Done(BlockOutput(out, b, cap), p + |BodyWord(b)|)
  {
    FixedMeans(ts, p);
    BlockRoundTrip(FixedLengths(), FixedDistances(), bits, p, out, cap, ts);
  }

  lemma DynamicBody(bits: seq<bool>, p: nat, h: Header, ts: seq<Token>, out: seq<Byte>, cap: nat)
    requires BodyAt(bits, p, Dynamic(h, ts), out, cap)
    ensures var b := Dynamic(h, ts);
            RefDynamic(bits, p, out, cap) == Done(BlockOutput(out, b, cap), p + |BodyWord(b)|)
  {
    DynamicMeans(h, ts, p);
    DynamicComplete(bits, p, h, ts, out, cap);
  }

  lemma BodyComplete(bits: seq<bool>, p: nat, b: Block, out: seq<Byte>, cap: nat)
    requires BodyAt(bits, p, b, out, cap)
    ensures RefBody(Kind(b), bits, p, out, cap) == Done(BlockOutput(out, b, cap), p + |BodyWord(b)|)
  {
    BodySteps(Kind(b), bits, p, out, cap, p + 2);
    match b
    case Stored(pad, data) => StoredBody(bits, p, pad, data, out, cap);
    case Fixed(ts) => FixedBody(bits, p, ts, out, cap);
    case Dynamic(h, ts) => DynamicBody(bits, p, h, ts, out, cap);
  }

  lemma BodySound(kind: nat, bits: seq<bool>, p: nat, out: seq<Byte>, cap: nat) returns (b: Block)
    requires p <= |bits| && RefBody(kind, bits, p, out, cap).Done?
    ensures Kind(b) == kind && BlockOk(b, p) && BlockFits(out, b, cap) && Holds(bits, p, BodyWord(b))
    ensures RefBody(kind, bits, p, out, cap) == Done(BlockOutput(out, b, cap), p + |BodyWord(b)|)
  {
    BodySteps(kind, bits, p, out, cap, p + 2);
    if kind == 0 {
      var pad, data := StoredSound(bits, p, out, cap);
      StoredMeans(pad, data, p);
      b := Stored(pad, data);
    } else if kind == 1 {
      FixedCodesAreComplete();
      var ts := BlockSound(FixedLengths(), FixedDistances(), bits, p, out, cap);
      FixedMeans(ts, p);
      b := Fixed(ts);
    } else {
      var h, ts := DynamicSound(bits, p, out, cap);
      DynamicMeans(h, ts, p);
      b := Dynamic(h, ts);
    }
  }

  lemma DynamicSound(bits: seq<bool>, p: nat, out: seq<Byte>, cap: nat) returns (h: Header, ts: seq<Token>)
    requires p <= |bits| && RefDynamic(bits, p, out, cap).Done?
    ensures HeaderOk(h) && TokensOk(HeaderCodes(h).0, HeaderCodes(h).1, ts) && AllFit(out, Items(ts), cap)
    ensures var w := HeaderWord(h) + BlockWord(HeaderCodes(h).0, HeaderCodes(h).1, ts);
            Holds(bits, p, w) && RefDynamic(bits, p, out, cap) == Done(Expand(out, Items(ts), cap), p + |w|)
  {
    assert RefHeader(bits, p).Done?;
    h := HeaderSound(bits, p);
    var (ll, dl) := HeaderCodes(h);
    ts := BlockSound(ll, dl, bits, p + |HeaderWord(h)|, out, cap);
    HoldsConcat(bits, p, HeaderWord(h), BlockWord(ll, dl, ts));
  }

  // Blocks with their headers.

  function Bit(b: bool): nat
  {
    if b then 1 else 0
  }

  ghost function BlockBits(fin: bool, b: Block): (w: seq<bool>)
    ensures |w| > 0
  {
    LsbWord(Bit(fin), 1) + (LsbWord(Kind(b), 2) + BodyWord(b))
  }

  lemma AnyBlockComplete(bits: seq<bool>, p: nat, fin: bool, b: Block, out: seq<Byte>, cap: nat)
    requires BlockOk(b, p + 3) && BlockFits(out, b, cap)
    requires Holds(bits, p, BlockBits(fin, b)) && p + |BlockBits(fin, b)| + LOOKAHEAD <= |bits|
    ensures RefAnyBlock(bits, p, out, cap) == Done((fin, BlockOutput(out, b, cap)), p + |BlockBits(fin, b)|)
  {
    var body := BodyWord(b);
    HoldsConcat(bits, p, LsbWord(Bit(fin), 1), LsbWord(Kind(b), 2) + body);
    HoldsConcat(bits, p + 1, LsbWord(Kind(b), 2), body);
    assert Pow2(1) == 2 && Pow2(2) == 4;
    ReceiveRead(bits, p, 1, Bit(fin));
    ReceiveRead(bits, p + 1, 2, Kind(b));
    AnyBlockRead(bits, p, out, cap);
    BodyComplete(bits, p + 3, b, out, cap);
  }

  lemma AnyBlockSound(bits: seq<bool>, p: nat, out: seq<Byte>, cap: nat) returns (fin: bool, b: Block)
    requires RefAnyBlock(bits, p, out, cap).Done?
    ensures BlockOk(b, p + 3) && BlockFits(out, b, cap) && Holds(bits, p, BlockBits(fin, b))
    ensures RefAnyBlock(bits, p, out, cap) == Done((fin, BlockOutput(out, b, cap)), p + |BlockBits(fin, b)|)
  {
    var f, k := RefReceive(bits, p, 1), RefReceive(bits, p + 1, 2);
    AnyBlockRead(bits, p, out, cap);
    ReceiveSpelled(bits, p, 1);
    ReceiveSpelled(bits, p + 1, 2);
    assert Pow2(1) == 2;
    fin := f.value == 1;
    b := BodySound(k.value, bits, p + 3, out, cap);
    var body := BodyWord(b);
    HoldsConcat(bits, p, LsbWord(Bit(fin), 1), LsbWord(Kind(b), 2) + body);
    HoldsConcat(bits, p + 1, LsbWord(Kind(b), 2), body);
  }

  // Streams.

  /** The blocks, one behind the other, the last one marked final. */
  ghost function StreamWord(blocks: seq<Block>): seq<bool>
  {
    if blocks == [] then [] else BlockBits(|blocks| == 1, blocks[0]) + StreamWord(blocks[1..])
  }

  /** The blocks can be written one behind the other from p on. */
  ghost predicate StreamOk(blocks: seq<Block>, p: nat)
    decreases |blocks|
  {
    blocks == [] || (BlockOk(blocks[0], p + 3) && StreamOk(blocks[1..], p + |BlockBits(|blocks| == 1, blocks[0])|))
  }

  predicate StreamFits(out: seq<Byte>, blocks: seq<Block>, cap: nat)
    decreases |blocks|
  {
    blocks == [] || (BlockFits(out, blocks[0], cap) && StreamFits(BlockOutput(out, blocks[0], cap), blocks[1..], cap))
  }

  /** What the blocks expand to, behind out. */
  function StreamOutput(out: seq<Byte>, blocks: seq<Block>, cap: nat): seq<Byte>
    requires StreamFits(out, blocks, cap)
    decreases |blocks|
  {
    if blocks == [] then out else StreamOutput(BlockOutput(out, blocks[0], cap), blocks[1..], cap)
  }

  lemma StreamStep(bits: seq<bool>, p: nat, out: seq<Byte>, cap: nat, fin: bool, o: seq<Byte>, q: nat)
    requires RefAnyBlock(bits, p, out, cap) == Done((fin, o), q)
    ensures RefStream(bits, p, out, cap) == if fin then Done(o, q) else RefStream(bits, q, o, cap)
  {
  }

  lemma StreamCons(b: Block, rest: seq<Block>, p: nat)
    ensures var fin := rest == [];
            && StreamWord([b] + rest) == BlockBits(fin, b) + StreamWord(rest)
            && (StreamOk([b] + rest, p) <==> BlockOk(b, p + 3) && StreamOk(rest, p + |BlockBits(fin, b)|))
  {
    assert ([b] + rest)[1..] == rest;
  }

  lemma OutputCons(b: Block, rest: seq<Block>, out: seq<Byte>, cap: nat)
    ensures StreamFits(out, [b] + rest, cap)
            <==> BlockFits(out, b, cap) && StreamFits(BlockOutput(out, b, cap), rest, cap)
    ensures StreamFits(out, [b] + rest, cap) ==>
              StreamOutput(out, [b] + rest, cap) == StreamOutput(BlockOutput(out, b, cap), rest, cap)
  {
    assert ([b] + rest)[1..] == rest;
  }

  /** The stream at p writes the blocks and expands them to r. */
  ghost predicate Writes(bits: seq<bool>, p: nat, blocks: seq<Block>, out: seq<Byte>, cap: nat, r: Outcome<seq<Byte>>)
  {
    && StreamOk(blocks, p) && StreamFits(out, blocks, cap) && Holds(bits, p, StreamWord(blocks))
    && r == Done(StreamOutput(out, blocks, cap), p + |StreamWord(blocks)|)
  }

  lemma WritesNone(bits: seq<bool>, p: nat, out: seq<Byte>, cap: nat)
    requires p <= |bits|
    ensures Writes(bits, p, [], out, cap, Done(out, p))
  {
    HoldsSlice(bits, p, []);
  }

  lemma WritesCons(bits: seq<bool>, p: nat, b: Block, rest: seq<Block>, out: seq<Byte>, cap: nat, r: Outcome<seq<Byte>>)
    requires BlockFits(out, b, cap)
    ensures var w := BlockBits(rest == [], b);
            Writes(bits, p, [b] + rest, out, cap, r)
            <==> BlockOk(b, p + 3) && Holds(bits, p, w) && Writes(bits, p + |w|, rest, BlockOutput(out, b, cap), cap, r)
  {
    StreamCons(b, rest, p);
    OutputCons(b, rest, out, cap);
    HoldsConcat(bits, p, BlockBits(rest == [], b), StreamWord(rest));
  }

  /** Decompression undoes compression: from any position that holds the encoded blocks, the
      stream decoder returns what they expand to and stops right behind. */
  lemma {:induction false} StreamRoundTrip(bits: seq<bool>, p: nat, blocks: seq<Block>, out: seq<Byte>, cap: nat)
    requires blocks != [] && StreamOk(blocks, p) && StreamFits(out, blocks, cap)
    requires Holds(bits, p, StreamWord(blocks)) && p + |StreamWord(blocks)| + LOOKAHEAD <= |bits|
    ensures RefStream(bits, p, out, cap) == Done(StreamOutput(out, blocks, cap), p + |StreamWord(blocks)|)
    decreases |blocks|
  {
    var b, rest := blocks[0], blocks[1..];
    assert blocks == [b] + rest;
    StreamCons(b, rest, p);
    OutputCons(b, rest, out, cap);
    var w, o := BlockBits(rest == [], b), BlockOutput(out, b, cap);
    HoldsConcat(bits, p, w, StreamWord(rest));
    AnyBlockComplete(bits, p, rest == [], b, out, cap);
    StreamStep(bits, p, out, cap, rest == [], o, p + |w|);
    if rest == [] {
    } else {
      StreamRoundTrip(bits, p + |w|, rest, o, cap);
    }
  }

  /** Conversely, whatever the stream decoder accepts is the encoding of some blocks. */
  lemma {:induction false} StreamSound(bits: seq<bool>, p: nat, out: seq<Byte>, cap: nat) returns (blocks: seq<Block>)
    requires RefStream(bits, p, out, cap).Done?
    ensures blocks != [] && Writes(bits, p, blocks, out, cap, RefStream(bits, p, out, cap))
    decreases |bits| - p
  {
    assert RefAnyBlock(bits, p, out, cap).Done?;
    var fin, b := AnyBlockSound(bits, p, out, cap);
    var w, o := BlockBits(fin, b), BlockOutput(out, b, cap);
    HoldsSlice(bits, p, w);
    StreamStep(bits, p, out, cap, fin, o, p + |w|);
    var rest: seq<Block> := [];
    if fin {
      WritesNone(bits, p + |w|, o, cap);
    } else {
      rest := StreamSound(bits, p + |w|, o, cap);
    }
    blocks := [b] + rest;
    WritesCons(bits, p, b, rest, out, cap, RefStream(bits, p, out, cap));
  }
}
