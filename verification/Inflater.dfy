/** The decompressor of ssfn.h: its bit reader, its two-level symbol decoder and its
    block parsers, each proved against the reference decoder of module Deflate. */
module Inflater {
  import opened BitOps
  import opened BitReversal
  import opened BitStream
  import opened CanonicalCode
  import opened FastTable
  import opened HuffmanTable
  import opened Lz77
  import opened Tables
  import opened Deflate
  import opened FixedCodes

  class Inflater {
    const input: seq<Byte>
    ghost const bits: seq<bool>
    var pos: nat
    var numBits: nat
    var codeBuffer: nat

    const out: array<Byte>
    var outPos: nat

    const zLength: Huffman
    const zDistance: Huffman

    constructor (input: seq<Byte>, out: array<Byte>)
      ensures this.input == input && bits == Bits(input) && this.out == out
      ensures ReaderValid() && Valid() && pos == 0 && BitPos() == 0 && Output() == []
      ensures fresh(zLength.Repr()) && fresh(zDistance.Repr())
    {
      this.input := input;
      bits := Bits(input);
      ByteBits(input);
      this.out := out;
      pos, numBits, codeBuffer, outPos := 0, 0, 0, 0;
      var zl := new Huffman();
      var zd := new Huffman();
      zLength, zDistance := zl, zd;
    }

    /** The buffered bits are the stream's next bits; refills never overshoot 32 bits. */
    ghost predicate ReaderValid()
      reads this
    {
      && IsBitsOf(bits, input) && pos <= |input| && numBits <= 32 && numBits <= 8 * pos
      && codeBuffer == Lsb(bits, 8 * pos - numBits, numBits)
    }

    /** The number of bits consumed so far: the abstract state of the reader. */
    ghost function BitPos(): nat
      reads this
      requires ReaderValid()
    {
      8 * pos - numBits
    }

    /** The two tables and the output are separate objects, which never changes. */
    ghost predicate Shape()
    {
      && zLength.Valid() && zDistance.Valid()
      && zLength.Repr() !! zDistance.Repr() && out !in zLength.Repr() && out !in zDistance.Repr()
    }

    ghost predicate Valid()
      reads this
    {
      ReaderValid() && outPos <= out.Length && Shape()
    }

    ghost function Output(): seq<Byte>
      reads this, out
      requires outPos <= out.Length
    {
      out[..outPos]
    }

    // The bit reader.

    method Get8() returns (b: Byte)
      requires pos < |input|
      modifies this`pos
      ensures b == input[old(pos)] && pos == old(pos) + 1
    {
      b := input[pos];
      pos := pos + 1;
    }

    /** The input still has the bytes a refill takes. */
    ghost predicate CanFill()
      reads this
    {
      numBits <= 32 && pos + (32 - numBits) / 8 <= |input|
    }

    /** Refilling leaves the remaining stream as it was. */
    method FillBits()
      requires ReaderValid() && numBits <= 24 && CanFill()
      modifies this`pos, this`numBits, this`codeBuffer
      ensures ReaderValid() && BitPos() == old(BitPos()) && 24 < numBits
    {
      FillByte();
      while numBits <= 24
        invariant ReaderValid() && BitPos() == old(BitPos()) && CanFill()
        decreases 32 - numBits
      {
        FillByte();
      }
    }

    method FillByte()
      requires ReaderValid() && numBits <= 24 && pos < |input|
      modifies this`pos, this`numBits, this`codeBuffer
      ensures ReaderValid() && BitPos() == old(BitPos()) && numBits == old(numBits) + 8 && pos == old(pos) + 1
    {
      BufferFill(bits, input, pos, numBits, codeBuffer);
      var b := Get8();
      codeBuffer := BitOr(codeBuffer, Low(Shl(b as nat, numBits), 32));
      numBits := numBits + 8;
    }

    /** Takes s buffered bits. */
    method Drop(s: nat)
      requires ReaderValid() && s <= numBits
      modifies this`numBits, this`codeBuffer
      ensures ReaderValid() && BitPos() == old(BitPos()) + s && numBits == old(numBits) - s
    {
      LsbSplit(bits, BitPos(), s, numBits - s);
      codeBuffer := Shr(codeBuffer, s);
      numBits := numBits - s;
    }

    /** The next n bits of the stream, first bit least significant. */
    method Receive(n: nat) returns (k: nat)
      requires ReaderValid() && n <= 16 && (n <= numBits || CanFill())
      modifies this`pos, this`numBits, this`codeBuffer
      ensures ReaderValid() && BitPos() == old(BitPos()) + n && BitPos() <= |bits|
      ensures k == Lsb(bits, old(BitPos()), n)
      ensures n <= old(numBits) ==> numBits == old(numBits) - n
    {
      if numBits < n {
        FillBits();
      }
      ShlOne(n);
      BufferMask(bits, BitPos(), numBits, codeBuffer, n);
      k := BitAnd(codeBuffer, Shl(1, n) - 1);
      Drop(n);
    }

    // The two-level decoder.

    /** The symbol whose codeword comes next, consuming exactly that codeword, or -1
        exactly when the stream starts with no codeword. */
    method HuffmanDecode(z: Huffman, ghost lens: seq<nat>) returns (sym: int)
      requires ReaderValid() && z.BuiltFrom(lens) && (numBits < 16 ==> CanFill())
      modifies this`pos, this`numBits, this`codeBuffer
      ensures ReaderValid()
      ensures if sym >= 0
              then Matches(lens, sym, bits, old(BitPos())) && BitPos() == old(BitPos()) + lens[sym]
              else sym == -1 && BitPos() == old(BitPos()) && forall i: nat :: !Matches(lens, i, bits, old(BitPos()))
    {
      ghost var p := BitPos();
      if numBits < 16 {
        FillBits();
      }
      var b := FastEntryAt(z, lens);
      FastLookup(lens, bits, p);
      if b != 0 {
        Drop(Shr(b, 9));
        sym := BitAnd(b, 511);
      } else {
        sym := DecodeSlowpath(z, lens);
      }
    }

    /** With enough input left, that is the symbol of the reference decoder. */
    method DecodeSymbol(z: Huffman, ghost lens: seq<nat>) returns (sym: int)
      requires ReaderValid() && z.BuiltFrom(lens) && BitPos() + LOOKAHEAD <= |bits|
      modifies this`pos, this`numBits, this`codeBuffer
      ensures ReaderValid() && -1 <= sym
      ensures RefSymbol(lens, bits, old(BitPos())) == if sym >= 0 then Done(sym, BitPos()) else Corrupt
    {
      ghost var p := BitPos();
      sym := HuffmanDecode(z, lens);
      if sym >= 0 {
        SymbolRead(lens, bits, p, sym);
      } else {
        SymbolMeaning(lens, bits, p);
      }
    }

    /** The fast table's entry for the next nine bits. */
    method FastEntryAt(z: Huffman, ghost lens: seq<nat>) returns (b: nat)
      requires ReaderValid() && z.BuiltFrom(lens) && 16 <= numBits
      ensures BitPos() + FAST_BITS <= |bits|
      ensures b == FastEntry(lens, |lens|, Lsb(bits, BitPos(), FAST_BITS))
    {
      Pow2Values();
      BufferMask(bits, BitPos(), numBits, codeBuffer, FAST_BITS);
      WindowBound(bits, BitPos(), FAST_BITS);
      b := z.fast[BitAnd(codeBuffer, FAST_SIZE - 1)];
    }

    /** The codes longer than 9 bits, by left-aligned comparison. */
    method DecodeSlowpath(z: Huffman, ghost lens: seq<nat>) returns (sym: int)
      requires ReaderValid() && z.BuiltFrom(lens) && 16 <= numBits
      requires forall i: nat {:trigger Matches(lens, i, bits, BitPos())} :: Matches(lens, i, bits, BitPos()) ==>
                 lens[i] > FAST_BITS
      modifies this`numBits, this`codeBuffer
      ensures ReaderValid()
      ensures if sym >= 0
              then Matches(lens, sym, bits, old(BitPos())) && BitPos() == old(BitPos()) + lens[sym]
              else sym == -1 && BitPos() == old(BitPos())
                   && forall i: nat :: !Matches(lens, i, bits, old(BitPos()))
    {
      ghost var p := BitPos();
      var k := ReverseWindow();
      NoShortMatch(lens, bits, p, FAST_BITS);
      var s := CodeLength(z, lens, k, bits, p);
      if s == 16 {
        NoMatch(lens, bits, p);
        return -1;
      }
      ghost var i := WindowSymbol(lens, bits, p, s);
      var b := Shr(k, 16 - s) - z.firstCode[s] + z.firstSymbol[s];
      assert b == Huffman.Place(lens, i);
      Drop(s);
      sym := z.value[b];
    }

    /** The first length above 9 whose codewords reach beyond the window, or 16. */
    static method CodeLength(z: Huffman, ghost lens: seq<nat>, k: nat, ghost bits: seq<bool>, ghost p: nat)
        returns (s: nat)
      requires z.BuiltFrom(lens) && p + 16 <= |bits| && k == Msb(bits, p, 16)
      requires forall t :: 1 <= t <= FAST_BITS ==> PastEnd(lens, bits, p, t)
      ensures FAST_BITS < s <= 16
      ensures forall t :: 1 <= t < s ==> PastEnd(lens, bits, p, t)
      ensures s < 16 ==> Msb(bits, p, 16) < Shl(End(lens, s), 16 - s)
    {
      Pow2Values();
      WindowBound(bits, p, 16);
      s := FAST_BITS + 1;
      while k >= z.maxCode[s]
        invariant FAST_BITS < s <= 16
        invariant forall t :: 1 <= t < s ==> PastEnd(lens, bits, p, t)
        decreases 16 - s
      {
        WindowAgainstEnd(lens, bits, p, s);
        s := s + 1;
      }
    }

    /** The next 16 bits, reversed: first bit most significant. */
    method ReverseWindow() returns (k: nat)
      requires ReaderValid() && 16 <= numBits
      ensures BitPos() + 16 <= |bits| && k == Msb(bits, BitPos(), 16)
    {
      BufferReverse(bits, BitPos(), numBits, codeBuffer);
      k := BitReverse(codeBuffer, 16);
    }

    static lemma WindowAgainstEnd(lens: seq<nat>, bits: seq<bool>, p: nat, s: nat)
      requires 1 <= s <= MAX_BITS && p + 16 <= |bits|
      ensures Msb(bits, p, 16) >= Shl(End(lens, s), 16 - s) <==> PastEnd(lens, bits, p, s)
    {
      ShrBelow(Msb(bits, p, 16), End(lens, s), 16 - s);
      MsbPrefix(bits, p, s, 16 - s);
    }

    /** At the first length whose codewords reach beyond the window, the window's offset
        among them gives the place of the matching symbol. */
    static lemma WindowSymbol(lens: seq<nat>, bits: seq<bool>, p: nat, s: nat) returns (i: nat)
      requires 1 < s <= MAX_BITS && p + 16 <= |bits|
      requires Msb(bits, p, 16) < Shl(End(lens, s), 16 - s) && PastEnd(lens, bits, p, s - 1)
      ensures Matches(lens, i, bits, p) && lens[i] == s
      ensures Shr(Msb(bits, p, 16), 16 - s) - First(lens, s) + Shorter(lens, s) == Huffman.Place(lens, i)
    {
      WindowAgainstEnd(lens, bits, p, s);
      WindowAtLeastFirst(lens, bits, p, s);
      MsbPrefix(bits, p, s, 16 - s);
      i := WindowMatch(lens, bits, p, s);
    }

    // Compressed blocks.

    /** Extra bits for a base value, when the table asks for some. */
    method ReceiveExtra(n: nat) returns (k: nat)
      requires ReaderValid() && n <= 16 && RefExtra(bits, BitPos(), n) != Undefined
      modifies this`pos, this`numBits, this`codeBuffer
      ensures ReaderValid() && RefExtra(bits, old(BitPos()), n) == Done(k, BitPos())
    {
      k := 0;
      if n != 0 {
        k := Receive(n);
      }
    }

    /** Reads on after length symbol z: the match's length and distance. */
    method ReadMatch(z: nat, ghost dl: seq<nat>) returns (ok: bool, len: nat, dist: nat)
      requires ReaderValid() && zDistance.BuiltFrom(dl) && |dl| <= 32 && 257 <= z < 288
      requires RefMatch(dl, bits, BitPos(), z) != Undefined
      modifies this`pos, this`numBits, this`codeBuffer
      ensures ReaderValid()
      ensures RefMatch(dl, bits, old(BitPos()), z) == if ok then Done((len, dist), BitPos()) else Corrupt
    {
      ghost var p := BitPos();
      var base, extra := LengthEntry(z - 257);
      var k := ReceiveExtra(extra);
      ghost var le, p1 := k, BitPos();
      len := base + k;
      var d := DecodeSymbol(zDistance, dl);
      if d < 0 {
        MatchCorrupt(dl, bits, p, z, le, p1);
        return false, len, 0;
      }
      ghost var p2 := BitPos();
      base, extra := DistEntry(d);
      k := ReceiveExtra(extra);
      dist := base + k;
      MatchRead(dl, bits, p, z, le, p1, d, p2, k, BitPos());
      ok := true;
    }

    /** Copies len bytes from dist bytes back, front to back; a run of one byte is fetched once. */
    method CopyMatch(zout: nat, len: nat, dist: nat)
      requires 1 <= dist <= zout && zout + len <= out.Length
      modifies out
      ensures out[..zout + len] == CopyBack(old(out[..zout]), dist, len)
    {
      ghost var before := out[..zout];
      var end := zout + len;
      var q := zout;
      if dist == 1 {
        var v := out[zout - 1];
        while q < end
          invariant zout <= q <= end
          invariant out[..zout] == before
          invariant forall k :: zout - 1 <= k < q ==> out[k] == v
        {
          out[q] := v;
          q := q + 1;
        }
      } else {
        while q < end
          invariant zout <= q <= end
          invariant out[..zout] == before
          invariant forall k :: zout <= k < q ==> out[k] == out[k - dist]
        {
          out[q] := out[q - dist];
          q := q + 1;
        }
      }
      assert out[..end][..zout] == before;
      CopyUnique(before, dist, len, out[..end]);
    }

    /** Carries out the match that length symbol z begins; false when it is corrupt, reaches
        back before the output or does not fit. */
    method ParseMatch(z: nat, zout: nat, ghost dl: seq<nat>) returns (ok: bool, end: nat)
      requires Valid() && zDistance.BuiltFrom(dl) && |dl| <= 32 && 257 <= z < 288 && zout <= out.Length
      requires RefMatch(dl, bits, BitPos(), z) != Undefined
      modifies this`pos, this`numBits, this`codeBuffer, out
      ensures Valid()
      ensures var m := RefMatch(dl, bits, old(BitPos()), z);
              if ok
              then && m.Done? && m.value.1 <= zout && zout + m.value.0 == end <= out.Length
                   && out[..end] == CopyBack(old(out[..zout]), m.value.1, m.value.0) && BitPos() == m.next
              else m == Corrupt || (m.Done? && (zout < m.value.1 || zout + m.value.0 > out.Length))
    {
      var len, dist;
      ok, len, dist := ReadMatch(z, dl);
      end := zout;
      if ok {
        if zout < dist || zout + len > out.Length {
          return false, zout;
        }
        CopyMatch(zout, len, dist);
        end := zout + len;
      }
    }

    method PutByte(zout: nat, b: Byte)
      requires zout < out.Length
      modifies out
      ensures out[..zout + 1] == old(out[..zout]) + [b]
    {
      out[zout] := b;
    }

    /** One literal or match, appended behind the first zout bytes, or the end of the block;
        false when it is corrupt or does not fit. */
    method ParseItem(zout: nat, ghost ll: seq<nat>, ghost dl: seq<nat>) returns (ok: bool, fin: bool, end: nat)
      requires Valid() && zLength.BuiltFrom(ll) && zDistance.BuiltFrom(dl) && |dl| <= 32 && zout <= out.Length
      requires RefItem(ll, dl, bits, BitPos()) != Undefined
      modifies this`pos, this`numBits, this`codeBuffer, out
      ensures Valid() && (ok ==> end <= out.Length)
      ensures var r := RefItem(ll, dl, bits, old(BitPos()));
              if !ok then r == Corrupt || (r.Done? && !Fits(old(out[..zout]), r.value, out.Length))
              else && r.Done? && r.next == BitPos() && fin == r.value.Finish?
                   && Fits(old(out[..zout]), r.value, out.Length)
                   && out[..end] == Append(old(out[..zout]), r.value, out.Length)
    {
      ItemRead(ll, dl, bits, BitPos());
      fin, end := false, zout;
      var z := DecodeSymbol(zLength, ll);
      if z < 256 {
        if z < 0 {
          return false, fin, end;
        }
        if zout >= out.Length {
          return false, fin, end;
        }
        PutByte(zout, z as Byte);
        ok, end := true, zout + 1;
      } else if z == END_OF_BLOCK {
        ok, fin := true, true;
      } else {
        ok, end := ParseMatch(z, zout, dl);
      }
    }

    /** Appends the block's expansion, or returns false exactly when the reference decoder
        calls the block corrupt. */
    method ParseHuffmanBlock(ghost ll: seq<nat>, ghost dl: seq<nat>) returns (ok: bool)
      requires Valid() && zLength.BuiltFrom(ll) && zDistance.BuiltFrom(dl) && |dl| <= 32
      requires RefBlock(ll, dl, bits, BitPos(), Output(), out.Length) != Undefined
      modifies this, out
      ensures Valid()
      ensures var r := RefBlock(ll, dl, bits, old(BitPos()), old(Output()), out.Length);
              if ok then r == Done(Output(), BitPos()) else r == Corrupt
    {
      ghost var r := RefBlock(ll, dl, bits, BitPos(), Output(), out.Length);
      var zout: nat := outPos;
      while true
        invariant Valid() && zout <= out.Length
        invariant zLength.BuiltFrom(ll) && zDistance.BuiltFrom(dl)
        invariant RefBlock(ll, dl, bits, BitPos(), out[..zout], out.Length) == r
        decreases |bits| - BitPos()
      {
        var fin;
        ok, fin, zout := ParseItem(zout, ll, dl);
        if !ok {
          return;
        }
        if fin {
          outPos := zout;
          return;
        }
      }
    }

    // Stored blocks.

    static lemma TwoBytes(bits: seq<bool>, p: nat)
      requires p + 16 <= |bits|
      ensures Lsb(bits, p, 16) == Lsb(bits, p, 8) + 256 * Lsb(bits, p + 8, 8)
    {
      LsbJoin(bits, p, 8, 8);
      ShlEight(Lsb(bits, p + 8, 8));
    }

    /** Dropping the buffered bits beyond the whole bytes aligns the reader. */
    static lemma AlignedStep(pos: nat, numBits: nat)
      requires numBits <= 8 * pos
      ensures 8 * pos - numBits + numBits % 8 == Aligned(8 * pos - numBits)
      ensures Aligned(8 * pos - numBits) % 8 == 0
    {
    }

    method Align()
      requires ReaderValid()
      modifies this`pos, this`numBits, this`codeBuffer
      ensures ReaderValid() && BitPos() == Aligned(old(BitPos())) && BitPos() % 8 == 0
    {
      AlignedStep(pos, numBits);
      if numBits % 8 != 0 {
        var _ := Receive(numBits % 8);
      }
    }

    /** The first k bytes of the header, as they stand in the stream from a on. */
    ghost predicate HeaderBytes(header: array<nat>, a: nat, k: nat)
      reads header
    {
      k <= header.Length && a + 8 * k <= |bits|
      && forall j {:trigger header[j]} :: 0 <= j < k ==> header[j] == Lsb(bits, a + 8 * j, 8)
    }

    /** The next byte of the bit buffer. */
    method DrainByte() returns (b: nat)
      requires ReaderValid() && 8 <= numBits
      modifies this`numBits, this`codeBuffer
      ensures ReaderValid() && numBits == old(numBits) - 8 && BitPos() == old(BitPos()) + 8
      ensures BitPos() <= |bits| && b == Lsb(bits, old(BitPos()), 8)
    {
      BufferByte();
      b := BitAnd(codeBuffer, 255);
      Drop(8);
    }

    /** Empties the bit buffer of its whole bytes. */
    method DrainBuffer(header: array<nat>) returns (k: nat)
      requires ReaderValid() && numBits % 8 == 0 && header.Length == 4
      modifies this`numBits, this`codeBuffer, header
      ensures ReaderValid() && numBits == 0 && BitPos() == old(BitPos()) + 8 * k
      ensures HeaderBytes(header, old(BitPos()), k)
    {
      ghost var a := BitPos();
      k := 0;
      while numBits > 0
        invariant 8 * k + numBits <= 32 && numBits % 8 == 0
        invariant ReaderValid() && BitPos() == a + 8 * k
        invariant HeaderBytes(header, a, k)
      {
        var b := DrainByte();
        header[k] := b;
        k := k + 1;
      }
    }

    /** After aligning: the buffered whole bytes first, then bytes straight from the input. */
    method ReadStoredHeader() returns (len: nat, nlen: nat)
      requires ReaderValid() && BitPos() % 8 == 0 && BitPos() + 32 <= |bits|
      modifies this`pos, this`numBits, this`codeBuffer
      ensures ReaderValid() && BitPos() == old(BitPos()) + 32 && numBits == 0
      ensures len == Lsb(bits, old(BitPos()), 16) && nlen == Lsb(bits, old(BitPos()) + 16, 16)
    {
      ghost var a := BitPos();
      var header := new nat[4];
      var k := DrainBuffer(header);
      while k < 4
        invariant 0 <= k <= 4 && numBits == 0
        invariant ReaderValid() && BitPos() == a + 8 * k
        invariant HeaderBytes(header, a, k)
      {
        var b := Get8();
        header[k] := b as nat;
        k := k + 1;
      }
      TwoBytes(bits, a);
      TwoBytes(bits, a + 16);
      len, nlen := header[1] * 256 + header[0], header[3] * 256 + header[2];
    }

    lemma BufferByte()
      requires ReaderValid() && 8 <= numBits
      ensures BitAnd(codeBuffer, 255) == Lsb(bits, BitPos(), 8)
    {
      BufferMask(bits, BitPos(), numBits, codeBuffer, 8);
      Pow2Values();
    }

    /** Up to the data: what the block's two lengths decide. */
    method BeginStored(ghost o: seq<Byte>, ghost cap: nat) returns (len: nat, nlen: nat)
      requires ReaderValid() && RefStored(bits, BitPos(), o, cap) != Undefined
      modifies this`pos, this`numBits, this`codeBuffer
      ensures ReaderValid() && numBits == 0
      ensures RefStored(bits, old(BitPos()), o, cap)
              == if nlen != BitXor(len, 0xFFFF) || |o| + len > cap then Corrupt
                 else if BitPos() + 8 * len > |bits| then Undefined
                 else Done(o + BytesAt(bits, BitPos(), len), BitPos() + 8 * len)
    {
      ghost var p := BitPos();
      Align();
      len, nlen := ReadStoredHeader();
      assert BitPos() == Aligned(p) + 32;
      Complement(bits, Aligned(p), len);
      StoredOutcome(bits, p, o, cap, len, nlen, BitXor(len, 0xFFFF));
    }

    /** Appends LEN bytes of the byte-aligned stream, or returns false when NLEN is not the
        complement of LEN or the bytes do not fit. */
    method ParseUncompressedBlock() returns (ok: bool)
      requires Valid() && RefStored(bits, BitPos(), Output(), out.Length) != Undefined
      modifies this, out
      ensures Valid()
      ensures RefStored(bits, old(BitPos()), old(Output()), out.Length)
              == if ok then Done(Output(), BitPos()) else Corrupt
    {
      var len, nlen := BeginStored(Output(), out.Length);
      if nlen != BitXor(len, 0xFFFF) {
        return false;
      }
      if outPos + len > out.Length {
        return false;
      }
      CopyInput(len);
      ok := true;
    }

    static lemma StoredOutcome(bits: seq<bool>, p: nat, o: seq<Byte>, cap: nat, len: nat, nlen: nat, flipped: nat)
      requires Aligned(p) + 32 <= |bits| && len == Lsb(bits, Aligned(p), 16) && nlen == Lsb(bits, Aligned(p) + 16, 16)
      requires flipped == 0xFFFF - len
      ensures var a := Aligned(p);
              RefStored(bits, p, o, cap)
              == if nlen != flipped || |o| + len > cap then Corrupt
                 else if a + 32 + 8 * len > |bits| then Undefined
                 else Done(o + BytesAt(bits, a + 32, len), a + 32 + 8 * len)
    {
    }

    static lemma Complement(bits: seq<bool>, p: nat, v: nat)
      requires p + 16 <= |bits| && v == Lsb(bits, p, 16)
      ensures BitXor(v, 0xFFFF) == 0xFFFF - v
    {
      Pow2Values();
      WindowBound(bits, p, 16);
      XorOnes(v, 16);
    }

    method CopyInput(len: nat)
      requires Valid() && numBits == 0 && pos + len <= |input| && outPos + len <= out.Length
      modifies this`pos, this`codeBuffer, this`outPos, out
      ensures Valid() && BitPos() == old(BitPos()) + 8 * len
      ensures Output() == old(Output()) + BytesAt(bits, old(BitPos()), len)
    {
      ghost var data := BytesAt(bits, BitPos(), len);
      InputBytes(bits, input, pos, len);
      CopyBytes(len);
      assert input[pos..pos + len] == data;
      pos := pos + len;
      outPos := outPos + len;
    }

    method CopyBytes(len: nat)
      requires pos + len <= |input| && outPos + len <= out.Length
      modifies out
      ensures out[..outPos + len] == old(out[..outPos]) + input[pos..pos + len]
    {
      ghost var before := out[..outPos];
      for k := 0 to len
        invariant forall j {:trigger out[j]} :: 0 <= j < outPos ==> out[j] == before[j]
        invariant forall j {:trigger out[j]} :: outPos <= j < outPos + k ==> out[j] == input[pos + j - outPos]
      {
        out[outPos + k] := input[pos + k];
      }
    }

    static lemma InputBytes(bits: seq<bool>, input: seq<Byte>, pos: nat, len: nat)
      requires IsBitsOf(bits, input) && pos + len <= |input|
      ensures BytesAt(bits, 8 * pos, len) == input[pos..pos + len]
    {
      forall j | 0 <= j < len ensures BytesAt(bits, 8 * pos, len)[j] == input[pos + j] {
        assert input[pos + j] as nat == Lsb(bits, 8 * (pos + j), 8);
      }
    }

    // Dynamic code lengths.

    method ReadSizes(hclen: nat) returns (sizes: seq<nat>)
      requires ReaderValid() && hclen <= 19 && RefSizes(bits, BitPos(), 0, hclen, Copies(0, 19)) != Undefined
      modifies this`pos, this`numBits, this`codeBuffer
      ensures ReaderValid() && RefSizes(bits, old(BitPos()), 0, hclen, Copies(0, 19)) == Done(sizes, BitPos())
    {
      ghost var r := RefSizes(bits, BitPos(), 0, hclen, Copies(0, 19));
      var codeLengthSizes := new nat[19](_ => 0);
      assert codeLengthSizes[..] == Copies(0, 19);
      var i := 0;
      while i < hclen
        invariant 0 <= i <= hclen && ReaderValid()
        invariant forall j :: 0 <= j < 19 ==> codeLengthSizes[j] <= 7
        invariant RefSizes(bits, BitPos(), i, hclen, codeLengthSizes[..]) == r
      {
        ghost var before := codeLengthSizes[..];
        WindowBound(bits, BitPos(), 3);
        assert Pow2(3) == 8;
        var s := Receive(3);
        codeLengthSizes[DEZIGZAG[i]] := s;
        assert codeLengthSizes[..] == before[DEZIGZAG[i] := s];
        i := i + 1;
      }
      sizes := codeLengthSizes[..];
    }

    /** The repeat count after symbol 16, 17 or 18. */
    method ReceiveRun(c: nat) returns (count: nat)
      requires ReaderValid() && 16 <= c <= 18 && BitPos() + LOOKAHEAD <= |bits|
      modifies this`pos, this`numBits, this`codeBuffer
      ensures ReaderValid() && count >= RunBase(c)
      ensures RefReceive(bits, old(BitPos()), RunExtra(c)) == Done(count - RunBase(c), BitPos())
    {
      if c == 16 {
        count := Receive(2);
        count := count + 3;
      } else if c == 17 {
        count := Receive(3);
        count := count + 3;
      } else {
        count := Receive(7);
        count := count + 11;
      }
    }

    static method SetRun(a: array<nat>, n: nat, x: nat, count: nat)
      requires n + count <= a.Length
      modifies a
      ensures a[..n + count] == old(a[..n]) + Copies(x, count)
    {
      forall j | n <= j < n + count {
        a[j] := x;
      }
    }

    static lemma LengthsRun(acc: seq<nat>, x: nat, n: nat)
      requires Lengths(acc) && x <= MAX_BITS
      ensures Lengths(acc + Copies(x, n))
    {
    }

    /** The run that symbol c stands for, behind the first n lengths; false when there is no
        length to repeat or the run is too long. */
    method ExpandRun(c: nat, lencodes: array<nat>, n: nat, total: nat) returns (ok: bool, n': nat)
      requires ReaderValid() && 16 <= c <= 18 && BitPos() + LOOKAHEAD <= |bits| && n <= total <= lencodes.Length
      modifies this`pos, this`numBits, this`codeBuffer, lencodes
      ensures ReaderValid()
      ensures var r := RefReceive(bits, old(BitPos()), RunExtra(c));
              && r.Done? && r.next == BitPos()
              && (ok <==> !(c == 16 && n == 0) && r.value + RunBase(c) <= total - n)
              && (ok ==> n' == n + r.value + RunBase(c)
                         && lencodes[..n'] == old(lencodes[..n])
                            + Copies(if c == 16 then old(lencodes[n - 1]) else 0, n' - n))
    {
      n' := n;
      var count := ReceiveRun(c);
      if c == 16 && n == 0 {
        return false, n;
      }
      var fill := if c == 16 then lencodes[n - 1] else 0;
      if total - n < count {
        return false, n;
      }
      SetRun(lencodes, n, fill, count);
      ok, n' := true, n + count;
    }

    static lemma LiteralLength(cl: seq<nat>, bits: seq<bool>, p: nat, total: nat, acc: seq<nat>, c: nat, p1: nat)
      requires Lengths(cl) && |cl| == 19 && |acc| < total && Lengths(acc)
      requires RefSymbol(cl, bits, p) == Done(c, p1) && c < 16
      ensures Lengths(acc + Copies(c, 1))
      ensures RefLengths(cl, bits, p, total, acc) == RefLengths(cl, bits, p1, total, acc + Copies(c, 1))
    {
      LengthsRun(acc, c, 1);
      assert Copies(c, 1) == [c];
    }

    static lemma RepeatedLength(cl: seq<nat>, bits: seq<bool>, p: nat, total: nat, acc: seq<nat>, c: nat, p1: nat,
                                n: nat, p2: nat)
      requires Lengths(cl) && |cl| == 19 && |acc| < total && Lengths(acc)
      requires RefSymbol(cl, bits, p) == Done(c, p1) && 16 <= c && RefReceive(bits, p1, RunExtra(c)) == Done(n, p2)
      ensures var count, x := n + RunBase(c), if c == 16 && acc != [] then acc[|acc| - 1] else 0;
              && Lengths(acc + Copies(x, count))
              && RefLengths(cl, bits, p, total, acc)
                 == if (c == 16 && acc == []) || total - |acc| < count then Corrupt
                    else RefLengths(cl, bits, p2, total, acc + Copies(x, count))
    {
      LengthsRun(acc, if c == 16 && acc != [] then acc[|acc| - 1] else 0, n + RunBase(c));
    }

    /** A code below 16 is a length. */
    static method PutLength(c: nat, lencodes: array<nat>, n: nat,
                            ghost cl: seq<nat>, ghost bits: seq<bool>, ghost p: nat, ghost total: nat, ghost p1: nat)
      requires n < total <= lencodes.Length && Lengths(cl) && |cl| == 19 && Lengths(lencodes[..n])
      requires RefSymbol(cl, bits, p) == Done(c, p1) && c < 16
      modifies lencodes
      ensures Lengths(lencodes[..n + 1])
      ensures RefLengths(cl, bits, p, total, old(lencodes[..n])) == RefLengths(cl, bits, p1, total, lencodes[..n + 1])
    {
      LiteralLength(cl, bits, p, total, lencodes[..n], c, p1);
      SetRun(lencodes, n, c, 1);
    }

    /** A code from 16 on is a run. */
    method PutRepeat(c: nat, lencodes: array<nat>, n: nat, total: nat, ghost cl: seq<nat>, ghost p: nat)
        returns (ok: bool, n': nat)
      requires ReaderValid() && n < total <= lencodes.Length && Lengths(cl) && |cl| == 19 && Lengths(lencodes[..n])
      requires RefSymbol(cl, bits, p) == Done(c, BitPos()) && 16 <= c
      requires RefLengths(cl, bits, p, total, lencodes[..n]) != Undefined
      modifies this`pos, this`numBits, this`codeBuffer, lencodes
      ensures ReaderValid() && BitPos() <= |bits| && BitPos() >= old(BitPos())
      ensures ok ==> n <= n' <= total && Lengths(lencodes[..n'])
      ensures RefLengths(cl, bits, p, total, old(lencodes[..n]))
              == if ok then RefLengths(cl, bits, BitPos(), total, lencodes[..n']) else Corrupt
    {
      ghost var acc, p1 := lencodes[..n], BitPos();
      ok, n' := ExpandRun(c, lencodes, n, total);
      RepeatedLength(cl, bits, p, total, acc, c, p1, RefReceive(bits, p1, RunExtra(c)).value, BitPos());
    }

    /** One code of the run-length decoder, with the lengths it stands for. */
    method ReadRun(z: Huffman, ghost cl: seq<nat>, lencodes: array<nat>, n: nat, total: nat) returns (ok: bool, n': nat)
      requires ReaderValid() && z.BuiltFrom(cl) && |cl| == 19 && n < total <= lencodes.Length
      requires Lengths(lencodes[..n]) && RefLengths(cl, bits, BitPos(), total, lencodes[..n]) != Undefined
      modifies this`pos, this`numBits, this`codeBuffer, lencodes
      ensures ReaderValid() && BitPos() <= |bits| && (ok ==> BitPos() > old(BitPos()))
      ensures ok ==> n <= n' <= total && Lengths(lencodes[..n'])
      ensures RefLengths(cl, bits, old(BitPos()), total, old(lencodes[..n]))
              == if ok then RefLengths(cl, bits, BitPos(), total, lencodes[..n']) else Corrupt
    {
      ghost var p := BitPos();
      var c := DecodeSymbol(z, cl);
      if c < 0 || c >= 19 {
        return false, n;
      }
      if c < 16 {
        PutLength(c, lencodes, n, cl, bits, p, total, BitPos());
        return true, n + 1;
      }
      ok, n' := PutRepeat(c, lencodes, n, total, cl, p);
    }

    /** The run-length decoder of the code lengths. */
    method ReadLengths(z: Huffman, ghost cl: seq<nat>, total: nat) returns (ok: bool, lens: seq<nat>)
      requires ReaderValid() && z.BuiltFrom(cl) && |cl| == 19 && total <= 320
      requires RefLengths(cl, bits, BitPos(), total, []) != Undefined
      modifies this`pos, this`numBits, this`codeBuffer
      ensures ReaderValid()
      ensures RefLengths(cl, bits, old(BitPos()), total, []) == if ok then Done(lens, BitPos()) else Corrupt
    {
      ghost var r := RefLengths(cl, bits, BitPos(), total, []);
      var lencodes := new nat[286 + 32 + 137];
      assert lencodes[..0] == [];
      var n: nat := 0;
      while n < total
        invariant 0 <= n <= total && ReaderValid()
        invariant Lengths(lencodes[..n]) && RefLengths(cl, bits, BitPos(), total, lencodes[..n]) == r
        decreases |bits| - BitPos()
      {
        ok, n := ReadRun(z, cl, lencodes, n, total);
        if !ok {
          return false, [];
        }
      }
      return true, lencodes[..n];
    }

    method ReadCodeLengths(hclen: nat, total: nat) returns (ok: bool, lens: seq<nat>)
      requires ReaderValid() && hclen <= 19 && total <= 320
      requires RefCodeLengths(bits, BitPos(), hclen, total) != Undefined
      modifies this`pos, this`numBits, this`codeBuffer
      ensures ReaderValid()
      ensures RefCodeLengths(bits, old(BitPos()), hclen, total) == if ok then Done(lens, BitPos()) else Corrupt
    {
      var sizes := ReadSizes(hclen);
      var zCodeLength := new Huffman();
      ok := zCodeLength.Build(sizes);
      lens := [];
      if ok {
        ok, lens := ReadLengths(zCodeLength, sizes, total);
      }
    }

    method ReceiveCounts() returns (hlit: nat, hdist: nat, hclen: nat)
      requires ReaderValid() && RefCounts(bits, BitPos()) != Undefined
      modifies this`pos, this`numBits, this`codeBuffer
      ensures ReaderValid() && RefCounts(bits, old(BitPos())) == Done((hlit, hdist, hclen), BitPos())
    {
      var k := Receive(5);
      hlit := k + 257;
      k := Receive(5);
      hdist := k + 1;
      k := Receive(4);
      hclen := k + 4;
    }

    method BuildCodes(ll: seq<nat>, dl: seq<nat>) returns (ok: bool)
      requires Valid() && Codes(ll, dl)
      modifies zLength.Repr(), zDistance.Repr()
      ensures unchanged(this) && unchanged(out)
      ensures ok <==> Kraft(ll) && Kraft(dl)
      ensures ok ==> zLength.BuiltFrom(ll) && zDistance.BuiltFrom(dl)
    {
      ok := zLength.Build(ll);
      if ok {
        ok := zDistance.Build(dl);
      }
    }

    static lemma CodesOutcome(bits: seq<bool>, p: nat, hlit: nat, hdist: nat, hclen: nat, ok: bool, lens: seq<nat>,
                              p1: nat)
      requires hlit <= 288 && hdist <= 32 && hclen <= 19
      requires RefCodeLengths(bits, p, hclen, hlit + hdist) == if ok then Done(lens, p1) else Corrupt
      ensures ok ==> |lens| == hlit + hdist && Codes(lens[..hlit], lens[hlit..])
      ensures RefCodes(bits, p, hlit, hdist, hclen)
              == if ok && Kraft(lens[..hlit]) && Kraft(lens[hlit..]) then Done((lens[..hlit], lens[hlit..]), p1)
                 else Corrupt
    {
    }

    /** The header's code lengths, before the tables are built from them. */
    method ReadCodes(hlit: nat, hdist: nat, hclen: nat) returns (ok: bool, lens: seq<nat>)
      requires ReaderValid() && hlit <= 288 && hdist <= 32 && hclen <= 19
      requires RefCodes(bits, BitPos(), hlit, hdist, hclen) != Undefined
      modifies this`pos, this`numBits, this`codeBuffer
      ensures ReaderValid()
      ensures ok ==> hlit <= |lens| && Codes(lens[..hlit], lens[hlit..])
      ensures RefCodes(bits, old(BitPos()), hlit, hdist, hclen)
              == if ok && Kraft(lens[..hlit]) && Kraft(lens[hlit..]) then Done((lens[..hlit], lens[hlit..]), BitPos())
                 else Corrupt
    {
      ghost var p := BitPos();
      ok, lens := ReadCodeLengths(hclen, hlit + hdist);
      CodesOutcome(bits, p, hlit, hdist, hclen, ok, lens, BitPos());
    }

    /** The whole header, before the tables are built from it. */
    method ReadHeader() returns (ok: bool, ll: seq<nat>, dl: seq<nat>)
      requires ReaderValid() && RefHeader(bits, BitPos()) != Undefined
      modifies this`pos, this`numBits, this`codeBuffer
      ensures ReaderValid() && (ok ==> Codes(ll, dl))
      ensures RefHeader(bits, old(BitPos()))
              == if ok && Kraft(ll) && Kraft(dl) then Done((ll, dl), BitPos()) else Corrupt
    {
      HeaderSteps(bits, BitPos(), BitPos() + 2);
      ll, dl := [], [];
      var hlit, hdist, hclen := ReceiveCounts();
      var lens;
      ok, lens := ReadCodes(hlit, hdist, hclen);
      if ok {
        ll, dl := lens[..hlit], lens[hlit..];
      }
    }

    method ComputeHuffmanCodes() returns (ok: bool, ghost ll: seq<nat>, ghost dl: seq<nat>)
      requires Valid() && RefHeader(bits, BitPos()) != Undefined
      modifies this`pos, this`numBits, this`codeBuffer, zLength.Repr(), zDistance.Repr()
      ensures Valid() && outPos == old(outPos) && unchanged(out)
      ensures RefHeader(bits, old(BitPos())) == if ok then Done((ll, dl), BitPos()) else Corrupt
      ensures ok ==> zLength.BuiltFrom(ll) && zDistance.BuiltFrom(dl)
    {
      var literals, distances;
      ok, literals, distances := ReadHeader();
      ll, dl := literals, distances;
      if ok {
        ok := BuildCodes(literals, distances);
      }
    }

    // Whole streams.

    static method InitDefaults() returns (ll: seq<nat>, dl: seq<nat>)
      ensures ll == FixedLengths() && dl == FixedDistances()
    {
      var length, distance := new nat[288], new nat[32];
      var i := 0;
      while i <= 143
        invariant 0 <= i <= 144 && length[..i] == FixedLengths()[..i]
      {
        length[i] := 8;
        i := i + 1;
      }
      while i <= 255
        invariant 144 <= i <= 256 && length[..i] == FixedLengths()[..i]
      {
        length[i] := 9;
        i := i + 1;
      }
      while i <= 279
        invariant 256 <= i <= 280 && length[..i] == FixedLengths()[..i]
      {
        length[i] := 7;
        i := i + 1;
      }
      while i <= 287
        invariant 280 <= i <= 288 && length[..i] == FixedLengths()[..i]
      {
        length[i] := 8;
        i := i + 1;
      }
      ll := length[..];
      assert ll == length[..288] && FixedLengths()[..288] == FixedLengths();
      i := 0;
      while i <= 31
        invariant 0 <= i <= 32 && distance[..i] == FixedDistances()[..i]
      {
        distance[i] := 5;
        i := i + 1;
      }
      dl := distance[..];
      assert dl == distance[..32] && FixedDistances()[..32] == FixedDistances();
    }

    method BuildFixedCodes() returns (ok: bool, ghost ll: seq<nat>, ghost dl: seq<nat>)
      requires Valid()
      modifies zLength.Repr(), zDistance.Repr()
      ensures ok && Valid() && unchanged(this) && unchanged(out)
      ensures ll == FixedLengths() && dl == FixedDistances() && zLength.BuiltFrom(ll) && zDistance.BuiltFrom(dl)
    {
      FixedCodesAreComplete();
      var literals, distances := InitDefaults();
      ll, dl := literals, distances;
      ok := BuildCodes(literals, distances);
    }

    method ParseFixedBlock() returns (ok: bool)
      requires Valid() && RefBlock(FixedLengths(), FixedDistances(), bits, BitPos(), Output(), out.Length) != Undefined
      modifies this, out, zLength.Repr(), zDistance.Repr()
      ensures Valid()
      ensures RefBlock(FixedLengths(), FixedDistances(), bits, old(BitPos()), old(Output()), out.Length)
              == if ok then Done(Output(), BitPos()) else Corrupt
    {
      ghost var ll, dl;
      ok, ll, dl := BuildFixedCodes();
      if ok {
        ok := ParseHuffmanBlock(ll, dl);
      }
    }

    method ParseDynamicBlock() returns (ok: bool)
      requires Valid() && RefDynamic(bits, BitPos(), Output(), out.Length) != Undefined
      modifies this, out, zLength.Repr(), zDistance.Repr()
      ensures Valid()
      ensures RefDynamic(bits, old(BitPos()), old(Output()), out.Length)
              == if ok then Done(Output(), BitPos()) else Corrupt
    {
      ghost var ll, dl;
      ok, ll, dl := ComputeHuffmanCodes();
      if ok {
        ok := ParseHuffmanBlock(ll, dl);
      }
    }

    method ParseBlock(kind: nat) returns (ok: bool)
      requires Valid() && kind < 4 && RefBody(kind, bits, BitPos(), Output(), out.Length) != Undefined
      modifies this, out, zLength.Repr(), zDistance.Repr()
      ensures Valid()
      ensures RefBody(kind, bits, old(BitPos()), old(Output()), out.Length)
              == if ok then Done(Output(), BitPos()) else Corrupt
    {
      BodySteps(kind, bits, BitPos(), Output(), out.Length, BitPos() + 2);
      if kind == 0 {
        ok := ParseUncompressedBlock();
      } else if kind == 3 {
        ok := false;
      } else if kind == 1 {
        ok := ParseFixedBlock();
      } else {
        ok := ParseDynamicBlock();
      }
    }

    /** A block's three header bits, and the outcome that its body decides. */
    static lemma BlockHead(bits: seq<bool>, p: nat, o: seq<Byte>, cap: nat)
      requires RefAnyBlock(bits, p, o, cap) != Undefined
      ensures p + 1 + LOOKAHEAD <= |bits| && Lsb(bits, p, 1) < 2 && Lsb(bits, p + 1, 2) < 4
      ensures var r := RefBody(Lsb(bits, p + 1, 2), bits, p + 3, o, cap);
              r != Undefined
              && RefAnyBlock(bits, p, o, cap)
                 == if r.Done? then Done((Lsb(bits, p, 1) != 0, r.value), r.next) else Corrupt
    {
      AnyBlockRead(bits, p, o, cap);
      WindowBound(bits, p, 1);
      WindowBound(bits, p + 1, 2);
      assert Pow2(1) == 2 && Pow2(2) == 4;
    }

    method ParseAnyBlock() returns (ok: bool, fin: bool)
      requires Valid() && RefAnyBlock(bits, BitPos(), Output(), out.Length) != Undefined
      modifies this, out, zLength.Repr(), zDistance.Repr()
      ensures Valid()
      ensures RefAnyBlock(bits, old(BitPos()), old(Output()), out.Length)
              == if ok then Done((fin, Output()), BitPos()) else Corrupt
    {
      ghost var p, o := BitPos(), Output();
      BlockHead(bits, p, o, out.Length);
      var kind;
      fin, kind := ReadBlockHead();
      assert BitPos() == p + 3 && Output() == o;
      ok := ParseBlock(kind);
    }

    /** The final flag and the kind of a block. */
    method ReadBlockHead() returns (fin: bool, kind: nat)
      requires ReaderValid() && BitPos() + 1 + LOOKAHEAD <= |bits|
      modifies this`pos, this`numBits, this`codeBuffer
      ensures ReaderValid() && BitPos() == old(BitPos()) + 3
      ensures fin == (Lsb(bits, old(BitPos()), 1) != 0) && kind == Lsb(bits, old(BitPos()) + 1, 2)
    {
      var k := Receive(1);
      fin := k != 0;
      kind := Receive(2);
    }

    /** Decompresses blocks up to and including the final one. */
    method ParseZlib() returns (ok: bool)
      requires Valid() && RefStream(bits, 8 * pos, Output(), out.Length) != Undefined
      modifies this, out, zLength.Repr(), zDistance.Repr()
      ensures Valid()
      ensures RefStream(bits, 8 * old(pos), old(Output()), out.Length)
              == if ok then Done(Output(), BitPos()) else Corrupt
    {
      ghost var r := RefStream(bits, 8 * pos, Output(), out.Length);
      numBits, codeBuffer := 0, 0;
      while true
        invariant Valid() && RefStream(bits, BitPos(), Output(), out.Length) == r
        decreases |bits| - BitPos()
      {
        var fin;
        ok, fin := ParseAnyBlock();
        if !ok || fin {
          return;
        }
      }
    }
  }
}
