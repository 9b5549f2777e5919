/** The decompressor's entry point, against streams written block by block. */
module ZlibDecode {
  import opened BitStream
  import opened Substrings
  import opened Deflate
  import opened StreamCoding
  import opened Inflater

  /** The input starts with these blocks, has enough bytes behind them for the reader's
      look-ahead, and the output has room for what they expand to. */
  ghost predicate Compressed(bits: seq<bool>, blocks: seq<Block>, cap: nat)
  {
    && blocks != [] && StreamOk(blocks, 0) && StreamFits([], blocks, cap)
    && Holds(bits, 0, StreamWord(blocks)) && |StreamWord(blocks)| + LOOKAHEAD <= |bits|
  }

  lemma DecodeMeans(bits: seq<bool>, cap: nat, r: Outcome<seq<Byte>>) returns (blocks: seq<Block>)
    requires r == RefStream(bits, 0, [], cap)
    ensures forall bs :: Compressed(bits, bs, cap) ==> r.Done? && r.value == StreamOutput([], bs, cap)
    ensures r.Done? ==> blocks != [] && Writes(bits, 0, blocks, [], cap, r)
  {
    forall bs | Compressed(bits, bs, cap) ensures r.Done? && r.value == StreamOutput([], bs, cap) {
      StreamRoundTrip(bits, 0, bs, [], cap);
    }
    blocks := [];
    if r.Done? {
      blocks := StreamSound(bits, 0, [], cap);
    }
  }

  /** Whatever blocks the input is the compressed form of, decoding succeeds and gives their
      expansion; and when decoding succeeds, the input is the compressed form of some blocks. */
  method Decode(buffer: seq<Byte>, out: array<Byte>) returns (ok: bool, n: nat, ghost blocks: seq<Block>)
    requires RefStream(Bits(buffer), 0, [], out.Length) != Undefined
    modifies out
    ensures n <= out.Length
    ensures forall bs :: Compressed(Bits(buffer), bs, out.Length)
              ==> ok && out[..n] == StreamOutput([], bs, out.Length)
    ensures ok ==>
              && blocks != [] && StreamOk(blocks, 0) && StreamFits([], blocks, out.Length)
              && Holds(Bits(buffer), 0, StreamWord(blocks)) && out[..n] == StreamOutput([], blocks, out.Length)
  {
    ghost var r := RefStream(Bits(buffer), 0, [], out.Length);
    blocks := DecodeMeans(Bits(buffer), out.Length, r);
    var a := new Inflater(buffer, out);
    ok := a.ParseZlib();
    n := a.outPos;
  }
}
