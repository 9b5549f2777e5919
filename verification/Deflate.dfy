/** The DEFLATE format (RFC 1951) as a reference decoder over bit positions.

    An outcome is Undefined where the source's result does not depend on its input
    alone: a read that starts less than four bytes before the end of the input (the
    source reads ahead by up to that much), or a distance symbol 30 or 31, which
    section 3.2.6 of RFC 1951 rules out. */
module Deflate {
  import opened BitOps
  import opened BitStream
  import opened CanonicalCode
  import opened Lz77
  import opened Tables

  datatype Outcome<+T> = Done(value: T, next: nat) | Corrupt | Undefined {
    predicate IsFailure() {
      !Done?
    }
    function PropagateFailure<U>(): Outcome<U>
      requires IsFailure()
    {
      if Corrupt? then Corrupt else Undefined
    }
    function Extract(): (T, nat)
      requires Done?
    {
      (value, next)
    }
  }

  /** Bits the source may fetch beyond the position it reads at. */
  const LOOKAHEAD := 32

  const END_OF_BLOCK := 256

  // Reading numbers and symbols.

  ghost function RefReceive(bits: seq<bool>, p: nat, n: nat): (r: Outcome<nat>)
    requires n <= 16
    ensures r.Done? ==> r.next == p + n && r.next <= |bits|
  {
    if p + LOOKAHEAD > |bits| then Undefined else Done(Lsb(bits, p, n), p + n)
  }

  /** The symbol whose codeword starts at p. The choice sits behind some steps of recursion,
      so that proofs use SymbolRead and SymbolMeaning instead of unfolding it. */
  ghost function RefSymbol(lens: seq<nat>, bits: seq<bool>, p: nat): (r: Outcome<nat>)
    requires Lengths(lens)
    ensures r.Done? ==> p < r.next <= |bits| && r.value < |lens|
    ensures r == Undefined <==> p + LOOKAHEAD > |bits|
  {
    if p + LOOKAHEAD > |bits| then Undefined else RefSymbolAfter(lens, bits, p, p + 2)
  }

  ghost function RefSymbolAfter(lens: seq<nat>, bits: seq<bool>, p: nat, steps: nat): (r: Outcome<nat>)
    requires Lengths(lens) && p + LOOKAHEAD <= |bits|
    ensures r.Done? ==> p < r.next <= |bits| && r.value < |lens|
    ensures r != Undefined
  {
    if steps > 0 then RefSymbolAfter(lens, bits, p, steps - 1)
    else if exists i: nat :: Matches(lens, i, bits, p) then
      var i: nat :| Matches(lens, i, bits, p);
      Done(i, p + lens[i])
    else Corrupt
  }

  lemma {:induction false} SymbolSteps(lens: seq<nat>, bits: seq<bool>, p: nat, steps: nat)
    requires Lengths(lens) && p + LOOKAHEAD <= |bits|
    ensures var r := RefSymbolAfter(lens, bits, p, steps);
            if r.Done? then Matches(lens, r.value, bits, p) && r.next == p + lens[r.value]
            else forall i: nat :: !Matches(lens, i, bits, p)
  {
    if steps == 0 {
    } else {
      SymbolSteps(lens, bits, p, steps - 1);
    }
  }

  /** A symbol is read exactly when its codeword stands at p. */
  lemma SymbolMeaning(lens: seq<nat>, bits: seq<bool>, p: nat)
    requires Lengths(lens) && p + LOOKAHEAD <= |bits|
    ensures var r := RefSymbol(lens, bits, p);
            if r.Done? then Matches(lens, r.value, bits, p) && r.next == p + lens[r.value]
            else r == Corrupt && forall i: nat :: !Matches(lens, i, bits, p)
  {
    SymbolSteps(lens, bits, p, p + 2);
  }

  /** The matching symbol is unique, so it is the one that is read. */
  lemma SymbolRead(lens: seq<nat>, bits: seq<bool>, p: nat, i: nat)
    requires Lengths(lens) && p + LOOKAHEAD <= |bits| && Matches(lens, i, bits, p)
    ensures RefSymbol(lens, bits, p) == Done(i, p + lens[i])
  {
    SymbolMeaning(lens, bits, p);
    UniqueMatch(lens, i, RefSymbol(lens, bits, p).value, bits, p);
  }

  /** Extra bits are read only when the table asks for some. */
  ghost function RefExtra(bits: seq<bool>, p: nat, n: nat): (r: Outcome<nat>)
    requires n <= 16
    ensures r.Done? ==> r.next == p + n
  {
    if n == 0 then Done(0, p) else RefReceive(bits, p, n)
  }

  // Compressed blocks (section 3.2.3).

  ghost predicate Codes(ll: seq<nat>, dl: seq<nat>)
  {
    Lengths(ll) && Lengths(dl) && |ll| <= 288 && |dl| <= 32
  }

  /** Length and distance of the match that length symbol z begins. */
  ghost function RefMatch(dl: seq<nat>, bits: seq<bool>, p: nat, z: nat): (r: Outcome<(nat, nat)>)
    requires Lengths(dl) && |dl| <= 32 && 257 <= z < 288
    ensures r.Done? ==> p < r.next && r.value.1 >= 1
  {
    var (le, p1) :- RefExtra(bits, p, LengthExtra(z - 257));
    var (d, p2) :- RefSymbol(dl, bits, p1);
    var (de, p3) :- RefExtra(bits, p2, DistExtra(d));
    if d >= 30 then Undefined
    else Done((LengthBase(z - 257) + le, DistBase(d) + de), p3)
  }

  /** A match is read from its parts. */
  lemma MatchRead(dl: seq<nat>, bits: seq<bool>, p: nat, z: nat, le: nat, p1: nat, d: nat, p2: nat, de: nat, p3: nat)
    requires Lengths(dl) && |dl| <= 32 && 257 <= z < 288 && d < |dl|
    requires RefExtra(bits, p, LengthExtra(z - 257)) == Done(le, p1)
    requires RefSymbol(dl, bits, p1) == Done(d, p2)
    requires RefExtra(bits, p2, DistExtra(d)) == Done(de, p3)
    ensures RefMatch(dl, bits, p, z)
            == if d >= 30 then Undefined else Done((LengthBase(z - 257) + le, DistBase(d) + de), p3)
  {
  }

  lemma MatchCorrupt(dl: seq<nat>, bits: seq<bool>, p: nat, z: nat, le: nat, p1: nat)
    requires Lengths(dl) && |dl| <= 32 && 257 <= z < 288
    requires RefExtra(bits, p, LengthExtra(z - 257)) == Done(le, p1) && RefSymbol(dl, bits, p1) == Corrupt
    ensures RefMatch(dl, bits, p, z) == Corrupt
  {
  }

  /** What one step of a block contributes. */
  datatype Item = Finish | Single(b: Byte) | Copy(len: nat, dist: nat)

  /** The item at p. It sits behind some steps of recursion, so that proofs about whole
      blocks do not unfold it. */
  ghost function RefItem(ll: seq<nat>, dl: seq<nat>, bits: seq<bool>, p: nat): (r: Outcome<Item>)
    requires Codes(ll, dl)
    ensures r.Done? ==> p < r.next && p + LOOKAHEAD <= |bits|
    ensures r.Done? && r.value.Copy? ==> r.value.dist >= 1
  {
    RefItemAfter(ll, dl, bits, p, p + 2)
  }

  ghost function RefItemAfter(ll: seq<nat>, dl: seq<nat>, bits: seq<bool>, p: nat, steps: nat): (r: Outcome<Item>)
    requires Codes(ll, dl)
    ensures r.Done? ==> p < r.next && p + LOOKAHEAD <= |bits|
    ensures r.Done? && r.value.Copy? ==> r.value.dist >= 1
  {
    if steps > 0 then RefItemAfter(ll, dl, bits, p, steps - 1)
    else
      var (z, p1) :- RefSymbol(ll, bits, p);
      if z < 256 then Done(Single(z as Byte), p1)
      else if z == END_OF_BLOCK then Done(Finish, p1)
      else
        var (m, p2) :- RefMatch(dl, bits, p1, z);
        Done(Copy(m.0, m.1), p2)
  }

  lemma {:induction false} ItemSteps(ll: seq<nat>, dl: seq<nat>, bits: seq<bool>, p: nat, steps: nat)
    requires Codes(ll, dl)
    ensures RefItemAfter(ll, dl, bits, p, steps) == RefItemAfter(ll, dl, bits, p, 0)
  {
    if steps == 0 {
    } else {
      ItemSteps(ll, dl, bits, p, steps - 1);
    }
  }

  /** An item is read from its symbol and, for a length symbol, the rest of the match. */
  lemma ItemRead(ll: seq<nat>, dl: seq<nat>, bits: seq<bool>, p: nat)
    requires Codes(ll, dl)
    ensures var z := RefSymbol(ll, bits, p);
            RefItem(ll, dl, bits, p)
            == if z.Corrupt? then Corrupt
               else if z.Undefined? then Undefined
               else if z.value < 256 then Done(Single(z.value as Byte), z.next)
               else if z.value == END_OF_BLOCK then Done(Finish, z.next)
               else
                 var m := RefMatch(dl, bits, z.next, z.value);
                 if m.Corrupt? then Corrupt
                 else if m.Undefined? then Undefined
                 else Done(Copy(m.value.0, m.value.1), m.next)
  {
    ItemSteps(ll, dl, bits, p, p + 2);
  }

  lemma SingleRead(ll: seq<nat>, dl: seq<nat>, bits: seq<bool>, p: nat, z: nat, p1: nat)
    requires Codes(ll, dl) && z < 256 && RefSymbol(ll, bits, p) == Done(z, p1)
    ensures RefItem(ll, dl, bits, p) == Done(Single(z as Byte), p1)
  {
    ItemRead(ll, dl, bits, p);
  }

  lemma CopyRead(ll: seq<nat>, dl: seq<nat>, bits: seq<bool>, p: nat, z: nat, p1: nat, len: nat, dist: nat, p2: nat)
    requires Codes(ll, dl) && 257 <= z < 288 && RefSymbol(ll, bits, p) == Done(z, p1)
    requires RefMatch(dl, bits, p1, z) == Done((len, dist), p2)
    ensures RefItem(ll, dl, bits, p) == Done(Copy(len, dist), p2)
  {
    ItemRead(ll, dl, bits, p);
  }

  lemma CopyReadInverse(ll: seq<nat>, dl: seq<nat>, bits: seq<bool>, p: nat, z: nat, p1: nat)
    requires Codes(ll, dl) && 257 <= z < 288 && RefSymbol(ll, bits, p) == Done(z, p1)
    requires RefItem(ll, dl, bits, p).Done?
    ensures var m := RefMatch(dl, bits, p1, z);
            m.Done? && RefItem(ll, dl, bits, p) == Done(Copy(m.value.0, m.value.1), m.next)
  {
    ItemRead(ll, dl, bits, p);
  }

  /** The item does not reach back before the output and leaves it within cap bytes. */
  predicate Fits(out: seq<Byte>, item: Item, cap: nat)
  {
    match item
    case Finish => true
    case Single(_) => |out| < cap
    case Copy(len, dist) => 1 <= dist <= |out| && |out| + len <= cap
  }

  function Append(out: seq<Byte>, item: Item, cap: nat): seq<Byte>
    requires Fits(out, item, cap)
  {
    match item
    case Finish => out
    case Single(b) => out + [b]
    case Copy(len, dist) => CopyBack(out, dist, len)
  }

  /** The items from p up to the end of the block, appended to out, in cap bytes of room. */
  ghost function RefBlock(ll: seq<nat>, dl: seq<nat>, bits: seq<bool>, p: nat, out: seq<Byte>,
                          cap: nat): (r: Outcome<seq<Byte>>)
    requires Codes(ll, dl)
    ensures r.Done? ==> p < r.next
    decreases |bits| - p
  {
    var (item, q) :- RefItem(ll, dl, bits, p);
    if item.Finish? then Done(out, q)
    else if !Fits(out, item, cap) then Corrupt
    else RefBlock(ll, dl, bits, q, Append(out, item, cap), cap)
  }

  // Stored blocks (section 3.2.4).

  function ByteAt(bits: seq<bool>, p: nat): Byte
    requires p + 8 <= |bits|
  {
    WindowBound(bits, p, 8);
    Pow2Values();
    Lsb(bits, p, 8) as Byte
  }

  function BytesAt(bits: seq<bool>, p: nat, n: nat): (bytes: seq<Byte>)
    requires p + 8 * n <= |bits|
    ensures |bytes| == n
  {
    seq(n, k requires 0 <= k < n => ByteAt(bits, p + 8 * k))
  }

  /** The next byte boundary. */
  function Aligned(p: nat): nat
  {
    (p + 7) / 8 * 8
  }

  ghost function RefStored(bits: seq<bool>, p: nat, out: seq<Byte>, cap: nat): (r: Outcome<seq<Byte>>)
    ensures r.Done? ==> p < r.next
  {
    var a := Aligned(p);
    if a + 32 > |bits| then Undefined
    else
      var len := Lsb(bits, a, 16);
      if Lsb(bits, a + 16, 16) != 0xFFFF - len then Corrupt
      else if |out| + len > cap then Corrupt
      else if a + 32 + 8 * len > |bits| then Undefined
      else Done(out + BytesAt(bits, a + 32, len), a + 32 + 8 * len)
  }

  // Dynamic code lengths (section 3.2.7).

  const DEZIGZAG: seq<nat> := [16, 17, 18, 0, 8, 7, 9, 6, 10, 5, 11, 4, 12, 3, 13, 2, 14, 1, 15]

  function Copies(x: nat, n: nat): (s: seq<nat>)
    ensures |s| == n && forall k :: 0 <= k < n ==> s[k] == x
  {
    seq(n, _ => x)
  }

  /** The lengths of the code length code: 3 bits each, in zigzag order, for the first hclen symbols. */
  ghost function RefSizes(bits: seq<bool>, p: nat, k: nat, hclen: nat, sizes: seq<nat>): (r: Outcome<seq<nat>>)
    requires k <= hclen <= 19 && |sizes| == 19 && forall i :: 0 <= i < 19 ==> sizes[i] <= 7
    ensures r.Done? ==> p <= r.next && |r.value| == 19 && forall i :: 0 <= i < 19 ==> r.value[i] <= 7
    decreases |bits| - p
  {
    if k == hclen then Done(sizes, p)
    else
      var (s, p1) :- RefReceive(bits, p, 3);
      WindowBound(bits, p, 3);
      assert Pow2(3) == 8;
      RefSizes(bits, p1, k + 1, hclen, sizes[DEZIGZAG[k] := s])
  }

  /** Width and offset of the repeat count that follows symbol 16, 17 or 18. */
  function RunExtra(c: nat): (n: nat)
    ensures n <= 7
  {
    if c == 16 then 2 else if c == 17 then 3 else 7
  }

  function RunBase(c: nat): nat
  {
    if c == 18 then 11 else 3
  }

  /** The run-length coded list of total code lengths that continues acc. */
  ghost function RefLengths(cl: seq<nat>, bits: seq<bool>, p: nat, total: nat, acc: seq<nat>): (r: Outcome<seq<nat>>)
    requires Lengths(cl) && |cl| == 19 && |acc| <= total && Lengths(acc)
    ensures r.Done? ==> p <= r.next && |r.value| == total && Lengths(r.value)
    decreases |bits| - p
  {
    if |acc| == total then Done(acc, p)
    else
      var (c, p1) :- RefSymbol(cl, bits, p);
      if c < 16 then RefLengths(cl, bits, p1, total, acc + [c])
      else
        var (n, p2) :- RefReceive(bits, p1, RunExtra(c));
        var count := n + RunBase(c);
        if c == 16 && acc == [] then Corrupt
        else if total - |acc| < count then Corrupt
        else RefLengths(cl, bits, p2, total, acc + Copies(if c == 16 then acc[|acc| - 1] else 0, count))
  }

  /** The code length code and, by it, all total code lengths. */
  ghost function RefCodeLengths(bits: seq<bool>, p: nat, hclen: nat, total: nat): (r: Outcome<seq<nat>>)
    requires hclen <= 19
    ensures r.Done? ==> p <= r.next && |r.value| == total && Lengths(r.value)
  {
    var (sizes, p1) :- RefSizes(bits, p, 0, hclen, Copies(0, 19));
    if !Kraft(sizes) then Corrupt else RefLengths(sizes, bits, p1, total, [])
  }

  /** The numbers of literal/length codes, distance codes and code length codes. */
  ghost function RefCounts(bits: seq<bool>, p: nat): (r: Outcome<(nat, nat, nat)>)
    ensures r.Done? ==> r.next == p + 14 && r.value.0 <= 288 && r.value.1 <= 32 && r.value.2 <= 19
  {
    var (lit, p1) :- RefReceive(bits, p, 5);
    var (dst, p2) :- RefReceive(bits, p1, 5);
    var (cln, p3) :- RefReceive(bits, p2, 4);
    WindowBound(bits, p, 5);
    WindowBound(bits, p1, 5);
    WindowBound(bits, p2, 4);
    assert Pow2(5) == 32 && Pow2(4) == 16;
    Done((lit + 257, dst + 1, cln + 4), p3)
  }

  /** The two codes, given how many lengths each has. */
  ghost function RefCodes(bits: seq<bool>, p: nat, hlit: nat, hdist: nat,
                          hclen: nat): (r: Outcome<(seq<nat>, seq<nat>)>)
    requires hlit <= 288 && hdist <= 32 && hclen <= 19
    ensures r.Done? ==> p <= r.next && Codes(r.value.0, r.value.1) && Kraft(r.value.0) && Kraft(r.value.1)
  {
    var (lens, p1) :- RefCodeLengths(bits, p, hclen, hlit + hdist);
    var ll, dl := lens[..hlit], lens[hlit..];
    if Kraft(ll) && Kraft(dl) then Done((ll, dl), p1) else Corrupt
  }

  /** The two codes of a dynamic block. It sits behind some steps of recursion, so that proofs do
      not unfold it. */
  ghost function RefHeader(bits: seq<bool>, p: nat): (r: Outcome<(seq<nat>, seq<nat>)>)
    ensures r.Done? ==> p <= r.next && Codes(r.value.0, r.value.1) && Kraft(r.value.0) && Kraft(r.value.1)
  {
    RefHeaderAfter(bits, p, p + 2)
  }

  ghost function RefHeaderAfter(bits: seq<bool>, p: nat, steps: nat): (r: Outcome<(seq<nat>, seq<nat>)>)
    ensures r.Done? ==> p <= r.next && Codes(r.value.0, r.value.1) && Kraft(r.value.0) && Kraft(r.value.1)
  {
    if steps > 0 then RefHeaderAfter(bits, p, steps - 1)
    else
      var (counts, p1) :- RefCounts(bits, p);
      RefCodes(bits, p1, counts.0, counts.1, counts.2)
  }

  lemma {:induction false} HeaderSteps(bits: seq<bool>, p: nat, steps: nat)
    ensures RefHeaderAfter(bits, p, steps) == RefHeaderAfter(bits, p, 0)
  {
    if steps == 0 {
    } else {
      HeaderSteps(bits, p, steps - 1);
    }
  }

  // Whole streams (section 3.2.3).

  function FixedLengths(): (ll: seq<nat>)
    ensures |ll| == 288
  {
    seq(288, i => if i <= 143 then 8 else if i <= 255 then 9 else if i <= 279 then 7 else 8)
  }

  function FixedDistances(): (dl: seq<nat>)
    ensures |dl| == 32
  {
    seq(32, _ => 5)
  }

  ghost function RefDynamic(bits: seq<bool>, p: nat, out: seq<Byte>, cap: nat): (r: Outcome<seq<Byte>>)
    ensures r.Done? ==> p < r.next
  {
    var (codes, p1) :- RefHeader(bits, p);
    RefBlock(codes.0, codes.1, bits, p1, out, cap)
  }

  /** A block by its kind. It sits behind some steps of recursion, so that proofs do not
      unfold it. */
  ghost function RefBody(kind: nat, bits: seq<bool>, p: nat, out: seq<Byte>, cap: nat): (r: Outcome<seq<Byte>>)
    ensures r.Done? ==> p < r.next
  {
    RefBodyAfter(kind, bits, p, out, cap, p + 2)
  }

  ghost function RefBodyAfter(kind: nat, bits: seq<bool>, p: nat, out: seq<Byte>, cap: nat,
                              steps: nat): (r: Outcome<seq<Byte>>)
    ensures r.Done? ==> p < r.next
  {
    if steps > 0 then RefBodyAfter(kind, bits, p, out, cap, steps - 1)
    else if kind == 0 then RefStored(bits, p, out, cap)
    else if kind == 1 then RefBlock(FixedLengths(), FixedDistances(), bits, p, out, cap)
    else if kind == 2 then RefDynamic(bits, p, out, cap)
    else Corrupt
  }

  lemma {:induction false} BodySteps(kind: nat, bits: seq<bool>, p: nat, out: seq<Byte>, cap: nat, steps: nat)
    ensures RefBodyAfter(kind, bits, p, out, cap, steps) == RefBodyAfter(kind, bits, p, out, cap, 0)
  {
    if steps == 0 {
    } else {
      BodySteps(kind, bits, p, out, cap, steps - 1);
    }
  }

  /** One block with its header: whether it is the last one, and the output so far. It sits
      behind some steps of recursion, so that proofs about whole streams do not unfold it. */
  ghost function RefAnyBlock(bits: seq<bool>, p: nat, out: seq<Byte>, cap: nat): (r: Outcome<(bool, seq<Byte>)>)
    ensures r.Done? ==> p < r.next && p < |bits|
  {
    RefAnyBlockAfter(bits, p, out, cap, p + 2)
  }

  ghost function RefAnyBlockAfter(bits: seq<bool>, p: nat, out: seq<Byte>, cap: nat,
                                  steps: nat): (r: Outcome<(bool, seq<Byte>)>)
    ensures r.Done? ==> p < r.next && p < |bits|
  {
    if steps > 0 then RefAnyBlockAfter(bits, p, out, cap, steps - 1)
    else
      var (fin, p1) :- RefReceive(bits, p, 1);
      var (kind, p2) :- RefReceive(bits, p1, 2);
      var (o, p3) :- RefBody(kind, bits, p2, out, cap);
      Done((fin == 1, o), p3)
  }

  lemma {:induction false} AnyBlockSteps(bits: seq<bool>, p: nat, out: seq<Byte>, cap: nat, steps: nat)
    ensures RefAnyBlockAfter(bits, p, out, cap, steps) == RefAnyBlockAfter(bits, p, out, cap, 0)
  {
    if steps == 0 {
    } else {
      AnyBlockSteps(bits, p, out, cap, steps - 1);
    }
  }

  /** A block is read from its header bits and its body. */
  lemma AnyBlockRead(bits: seq<bool>, p: nat, out: seq<Byte>, cap: nat)
    ensures var f := RefReceive(bits, p, 1);
            var k := RefReceive(bits, p + 1, 2);
            RefAnyBlock(bits, p, out, cap)
            == if !f.Done? || !k.Done? then Undefined
               else
                 var r := RefBody(k.value, bits, p + 3, out, cap);
                 if r.Done? then Done((f.value == 1, r.value), r.next) else if r.Corrupt? then Corrupt else Undefined
  {
    AnyBlockSteps(bits, p, out, cap, p + 2);
  }

  ghost function RefStream(bits: seq<bool>, p: nat, out: seq<Byte>, cap: nat): (r: Outcome<seq<Byte>>)
    decreases |bits| - p
  {
    var (block, q) :- RefAnyBlock(bits, p, out, cap);
    if block.0 then Done(block.1, q) else RefStream(bits, q, block.1, cap)
  }
}
