/** A byte string read as a stream of bits, least significant bit of each byte
    first (section 3.1.1 of RFC 1951). Positions are absolute bit numbers. */
module BitStream {
  import opened BitOps
  import opened BitReversal
  import opened Substrings

  newtype Byte = b: int | 0 <= b < 256

  function Bits(bytes: seq<Byte>): (bits: seq<bool>)
    ensures |bits| == 8 * |bytes|
  {
    seq(8 * |bytes|, p requires 0 <= p < 8 * |bytes| => Shr(bytes[p / 8] as nat, p % 8) % 2 == 1)
  }

  /** bits is the stream of the given bytes. */
  ghost predicate IsBitsOf(bits: seq<bool>, bytes: seq<Byte>)
  {
    |bits| == 8 * |bytes| && forall i {:trigger bytes[i]} :: 0 <= i < |bytes| ==> Lsb(bits, 8 * i, 8) == bytes[i] as nat
  }

  /** The n bits at p as a number, first bit least significant. */
  function Lsb(bits: seq<bool>, p: nat, n: nat): nat
    requires p + n <= |bits|
    decreases |bits| - p
  {
    if n == 0 then 0 else (if bits[p] then 1 else 0) + 2 * Lsb(bits, p + 1, n - 1)
  }

  /** The n bits at p as a number, first bit most significant, as Huffman codes are packed. */
  function Msb(bits: seq<bool>, p: nat, n: nat): nat
    requires p + n <= |bits|
    decreases |bits| - p
  {
    if n == 0 then 0 else (if bits[p] then Pow2(n - 1) else 0) + Msb(bits, p + 1, n - 1)
  }

  // Definitions that only matter to a few lemmas sit behind some steps of recursion, so
  // that all other proofs treat them as atomic.

  /** The n-bit words for a number, least and most significant bit first. */
  function LsbWord(v: nat, n: nat): (w: seq<bool>)
    ensures |w| == n
  {
    LsbWordAfter(v, n, n + 2)
  }

  function LsbWordAfter(v: nat, n: nat, steps: nat): (w: seq<bool>)
    ensures |w| == n
    decreases n, steps, v
  {
    if steps > 0 then LsbWordAfter(v, n, steps - 1)
    else if n == 0 then []
    else [v % 2 == 1] + LsbWordAfter(v / 2, n - 1, n + 1)
  }

  lemma LsbWordUnfold(v: nat, n: nat)
    ensures LsbWord(v, n) == if n == 0 then [] else [v % 2 == 1] + LsbWord(v / 2, n - 1)
  {
    LsbWordSteps(v, n, n + 2);
  }

  lemma {:induction false} LsbWordSteps(v: nat, n: nat, steps: nat)
    ensures LsbWordAfter(v, n, steps) == if n == 0 then [] else [v % 2 == 1] + LsbWord(v / 2, n - 1)
  {
    if steps == 0 {
    } else {
      LsbWordSteps(v, n, steps - 1);
    }
  }

  function MsbWord(v: nat, n: nat): (w: seq<bool>)
    ensures |w| == n
  {
    MsbWordAfter(v, n, n + 2)
  }

  function MsbWordAfter(v: nat, n: nat, steps: nat): (w: seq<bool>)
    ensures |w| == n
    decreases n, steps, v
  {
    if steps > 0 then MsbWordAfter(v, n, steps - 1)
    else if n == 0 then []
    else MsbWordAfter(v / 2, n - 1, n + 1) + [v % 2 == 1]
  }

  lemma MsbWordUnfold(v: nat, n: nat)
    ensures MsbWord(v, n) == if n == 0 then [] else MsbWord(v / 2, n - 1) + [v % 2 == 1]
  {
    MsbWordSteps(v, n, n + 2);
  }

  lemma {:induction false} MsbWordSteps(v: nat, n: nat, steps: nat)
    ensures MsbWordAfter(v, n, steps) == if n == 0 then [] else MsbWord(v / 2, n - 1) + [v % 2 == 1]
  {
    if steps == 0 {
    } else {
      MsbWordSteps(v, n, steps - 1);
    }
  }

  /** A single bit at p. */
  lemma HoldsBit(bits: seq<bool>, p: nat, b: bool)
    requires p < |bits|
    ensures Holds(bits, p, [b]) <==> bits[p] == b
  {
    HoldsSlice(bits, p, [b]);
    assert bits[p..p + 1] == [bits[p]];
  }

  // Bytes and bits.

  lemma ByteBits(bytes: seq<Byte>)
    ensures IsBitsOf(Bits(bytes), bytes)
  {
    forall i | 0 <= i < |bytes| ensures Lsb(Bits(bytes), 8 * i, 8) == bytes[i] as nat {
      ByteSuffix(bytes, i, 0);
    }
  }

  lemma {:induction false} ByteSuffix(bytes: seq<Byte>, i: nat, k: nat)
    requires i < |bytes| && k <= 8
    ensures Lsb(Bits(bytes), 8 * i + k, 8 - k) == Shr(bytes[i] as nat, k)
    decreases 8 - k
  {
    ShrStep(bytes[i] as nat, k);
    if k == 8 {
      Pow2Values();
      ShrBound(bytes[i] as nat, 8, 0);
    } else {
      ByteSuffix(bytes, i, k + 1);
      assert (8 * i + k) / 8 == i && (8 * i + k) % 8 == k;
    }
  }

  lemma {:induction false} ShrStep(a: nat, n: nat)
    ensures Shr(a, n + 1) == Shr(a, n) / 2
  {
    if n == 0 {
    } else {
      ShrStep(a / 2, n - 1);
    }
  }

  // Taking numbers apart.

  lemma {:induction false} WindowBound(bits: seq<bool>, p: nat, n: nat)
    requires p + n <= |bits|
    ensures Lsb(bits, p, n) < Pow2(n) && Msb(bits, p, n) < Pow2(n)
    decreases n
  {
    if n == 0 {
    } else {
      WindowBound(bits, p + 1, n - 1);
    }
  }

  lemma {:induction false} LsbJoin(bits: seq<bool>, p: nat, m: nat, n: nat)
    requires p + m + n <= |bits|
    ensures Lsb(bits, p, m + n) == Lsb(bits, p, m) + Shl(Lsb(bits, p + m, n), m)
    decreases m
  {
    if m == 0 {
    } else {
      LsbJoin(bits, p + 1, m - 1, n);
    }
  }

  lemma {:induction false} LsbSplit(bits: seq<bool>, p: nat, m: nat, n: nat)
    requires p + m + n <= |bits|
    ensures Low(Lsb(bits, p, m + n), m) == Lsb(bits, p, m)
    ensures Shr(Lsb(bits, p, m + n), m) == Lsb(bits, p + m, n)
    decreases m
  {
    if m == 0 {
    } else {
      LsbSplit(bits, p + 1, m - 1, n);
      assert Lsb(bits, p, m + n) / 2 == Lsb(bits, p + 1, m - 1 + n);
    }
  }

  /** One more bit at the end. */
  lemma {:induction false} MsbStep(bits: seq<bool>, p: nat, n: nat)
    requires p + n < |bits|
    ensures Msb(bits, p, n + 1) == 2 * Msb(bits, p, n) + (if bits[p + n] then 1 else 0)
    decreases n
  {
    if n == 0 {
    } else {
      MsbStep(bits, p + 1, n - 1);
    }
  }

  lemma {:induction false} MsbPrefix(bits: seq<bool>, p: nat, m: nat, n: nat)
    requires p + m + n <= |bits|
    ensures Shr(Msb(bits, p, m + n), n) == Msb(bits, p, m)
    decreases n
  {
    if n == 0 {
    } else {
      MsbPrefix(bits, p, m, n - 1);
      assert Msb(bits, p, m + n) / 2 == Msb(bits, p, m + n - 1) by { MsbStep(bits, p, m + n - 1); }
    }
  }

  // The two readings are each other's reversal.

  lemma {:induction false} RevLsb(bits: seq<bool>, p: nat, n: nat, more: nat)
    requires p + n + more <= |bits|
    ensures Rev(Lsb(bits, p, n + more), n) == Msb(bits, p, n)
    decreases n
  {
    if n == 0 {
    } else {
      RevLsb(bits, p + 1, n - 1, more);
      assert Lsb(bits, p, n + more) / 2 == Lsb(bits, p + 1, n - 1 + more);
    }
  }

  /** A codeword read most significant bit first is c exactly when its reversal is
      what the little-endian window shows. */
  lemma RevMsb(bits: seq<bool>, p: nat, n: nat, c: nat)
    requires p + n <= |bits| && c < Pow2(n)
    ensures Rev(c, n) == Lsb(bits, p, n) <==> Msb(bits, p, n) == c
  {
    RevLsb(bits, p, n, 0);
    WindowBound(bits, p, n);
    var v := Lsb(bits, p, n);
    forall k: nat | k < n ensures BitSet(Rev(Rev(v, n), n), k) == BitSet(v, k) {
      RevBit(Rev(v, n), n, k);
      RevBit(v, n, n - 1 - k);
    }
    SameBits(Rev(Rev(v, n), n), v, n);
    if Rev(c, n) == v {
      RevInjective(c, Rev(v, n), n);
    }
  }

  // Numbers and words.

  lemma {:induction false} LsbHolds(bits: seq<bool>, p: nat, n: nat, v: nat)
    requires p + n <= |bits| && v < Pow2(n)
    ensures Holds(bits, p, LsbWord(v, n)) <==> Lsb(bits, p, n) == v
    decreases n
  {
    LsbWordUnfold(v, n);
    if n == 0 {
      HoldsSlice(bits, p, []);
    } else {
      LsbHolds(bits, p + 1, n - 1, v / 2);
      HoldsConcat(bits, p, [v % 2 == 1], LsbWord(v / 2, n - 1));
      HoldsBit(bits, p, v % 2 == 1);
    }
  }

  lemma {:induction false} MsbHolds(bits: seq<bool>, p: nat, n: nat, v: nat)
    requires p + n <= |bits| && v < Pow2(n)
    ensures Holds(bits, p, MsbWord(v, n)) <==> Msb(bits, p, n) == v
    decreases n
  {
    MsbWordUnfold(v, n);
    if n == 0 {
      HoldsSlice(bits, p, []);
    } else {
      MsbHolds(bits, p, n - 1, v / 2);
      HoldsConcat(bits, p, MsbWord(v / 2, n - 1), [v % 2 == 1]);
      HoldsBit(bits, p + n - 1, v % 2 == 1);
      MsbStep(bits, p, n - 1);
    }
  }

  // The steps of a reader that buffers the next bits of the stream in a 32-bit word.

  lemma BufferFill(bits: seq<bool>, bytes: seq<Byte>, pos: nat, numBits: nat, buffer: nat)
    requires IsBitsOf(bits, bytes) && pos < |bytes| && numBits <= 8 * pos && numBits <= 24
    requires buffer == Lsb(bits, 8 * pos - numBits, numBits)
    ensures BitOr(buffer, Low(Shl(bytes[pos] as nat, numBits), 32)) == Lsb(bits, 8 * pos - numBits, numBits + 8)
  {
    var b := bytes[pos] as nat;
    LsbJoin(bits, 8 * pos - numBits, numBits, 8);
    WindowBound(bits, 8 * pos - numBits, numBits);
    OrDisjoint(buffer, b, numBits);
    ShiftFits(b, numBits);
  }

  lemma ShiftFits(b: nat, n: nat)
    requires n <= 24 && b < 256
    ensures Low(Shl(b, n), 32) == Shl(b, n)
  {
    Pow2Values();
    ShlBound(b, n, 8);
    Pow2Monotone(8 + n, 32);
    LowIdentity(Shl(b, n), 32);
  }

  lemma BufferMask(bits: seq<bool>, p: nat, numBits: nat, buffer: nat, n: nat)
    requires n <= numBits && p + numBits <= |bits| && buffer == Lsb(bits, p, numBits)
    ensures BitAnd(buffer, Pow2(n) - 1) == Lsb(bits, p, n)
  {
    AndMask(buffer, n);
    LsbSplit(bits, p, n, numBits - n);
  }

  lemma RevWindow(bits: seq<bool>, p: nat, n: nat, numBits: nat)
    requires n <= numBits && p + numBits <= |bits|
    ensures Rev(Lsb(bits, p, numBits), n) == Msb(bits, p, n)
  {
    RevLsb(bits, p, n, numBits - n);
  }

  /** The next 16 bits of the stream, most significant bit first. */
  lemma BufferReverse(bits: seq<bool>, p: nat, numBits: nat, buffer: nat)
    requires 16 <= numBits && p + numBits <= |bits| && buffer == Lsb(bits, p, numBits)
    ensures BitReverse(buffer, 16) == Msb(bits, p, 16)
  {
    BitReverse16IsRev(buffer);
    RevWindow(bits, p, 16, numBits);
  }
}
