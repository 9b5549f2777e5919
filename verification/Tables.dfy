/** The tables for length and distance symbols (section 3.2.5 of RFC 1951). */
module Tables {
  import opened BitOps

  const LENGTH_BASE: seq<nat> :=
    [3, 4, 5, 6, 7, 8, 9, 10, 11, 13, 15, 17, 19, 23, 27, 31, 35, 43, 51, 59, 67, 83, 99, 115, 131, 163, 195, 227,
     258, 0, 0]
  const LENGTH_EXTRA: seq<nat> :=
    [0, 0, 0, 0, 0, 0, 0, 0, 1, 1, 1, 1, 2, 2, 2, 2, 3, 3, 3, 3, 4, 4, 4, 4, 5, 5, 5, 5, 0, 0, 0]
  const DIST_BASE: seq<nat> :=
    [1, 2, 3, 4, 5, 7, 9, 13, 17, 25, 33, 49, 65, 97, 129, 193, 257, 385, 513, 769, 1025, 1537, 2049, 3073,
     4097, 6145, 8193, 12289, 16385, 24577, 0, 0]
  const DIST_EXTRA: seq<nat> :=
    [0, 0, 0, 0, 1, 1, 2, 2, 3, 3, 4, 4, 5, 5, 6, 6, 7, 7, 8, 8, 9, 9, 10, 10, 11, 11, 12, 12, 13, 13, 0, 0]

  datatype Column = LengthBases | LengthExtras | DistBases | DistExtras

  // The rule behind the tables: four (two) symbols for each number of extra bits, at a
  // stride of 2^extra. Length 258 has a symbol of its own.

  function LengthBaseRule(k: nat): nat
  {
    if k < 8 then 3 + k
    else if k < 12 then 11 + 2 * (k - 8)
    else if k < 16 then 19 + 4 * (k - 12)
    else if k < 20 then 35 + 8 * (k - 16)
    else if k < 24 then 67 + 16 * (k - 20)
    else if k < 28 then 131 + 32 * (k - 24)
    else if k == 28 then 258
    else 0
  }

  function LengthExtraRule(k: nat): nat
  {
    if k < 8 then 0
    else if k < 12 then 1
    else if k < 16 then 2
    else if k < 20 then 3
    else if k < 24 then 4
    else if k < 28 then 5
    else 0
  }

  function DistBaseRule(k: nat): nat
  {
    if k < 4 then 1 + k
    else if k < 6 then 5 + 2 * (k - 4)
    else if k < 8 then 9 + 4 * (k - 6)
    else if k < 10 then 17 + 8 * (k - 8)
    else if k < 12 then 33 + 16 * (k - 10)
    else if k < 14 then 65 + 32 * (k - 12)
    else if k < 16 then 129 + 64 * (k - 14)
    else if k < 18 then 257 + 128 * (k - 16)
    else if k < 20 then 513 + 256 * (k - 18)
    else if k < 22 then 1025 + 512 * (k - 20)
    else if k < 24 then 2049 + 1024 * (k - 22)
    else if k < 26 then 4097 + 2048 * (k - 24)
    else if k < 28 then 8193 + 4096 * (k - 26)
    else if k < 30 then 16385 + 8192 * (k - 28)
    else 0
  }

  function DistExtraRule(k: nat): nat
  {
    if k < 4 then 0
    else if k < 6 then 1
    else if k < 8 then 2
    else if k < 10 then 3
    else if k < 12 then 4
    else if k < 14 then 5
    else if k < 16 then 6
    else if k < 18 then 7
    else if k < 20 then 8
    else if k < 22 then 9
    else if k < 24 then 10
    else if k < 26 then 11
    else if k < 28 then 12
    else if k < 30 then 13
    else 0
  }

  function Value(c: Column, k: nat): nat
  {
    match c
    case LengthBases => LengthBaseRule(k)
    case LengthExtras => LengthExtraRule(k)
    case DistBases => DistBaseRule(k)
    case DistExtras => DistExtraRule(k)
  }

  /** The table entry. It sits behind some steps of recursion, so that proofs that do not
      depend on the entries never unfold far enough to see them. */
  function Entry(c: Column, k: nat, steps: nat): nat
  {
    if steps > 0 then Entry(c, k, steps - 1)
    else Value(c, k)
  }

  lemma {:induction false} EntryIsValue(c: Column, k: nat, steps: nat)
    ensures Entry(c, k, steps) == Value(c, k)
  {
    if steps == 0 {
    } else {
      EntryIsValue(c, k, steps - 1);
    }
  }

  function LengthBase(k: nat): nat
  {
    Entry(LengthBases, k, k + 2)
  }

  function LengthExtra(k: nat): (e: nat)
    ensures e <= 5
  {
    EntryIsValue(LengthExtras, k, k + 2);
    Entry(LengthExtras, k, k + 2)
  }

  function DistBase(k: nat): (b: nat)
    ensures k < 30 ==> b >= 1
  {
    EntryIsValue(DistBases, k, k + 2);
    Entry(DistBases, k, k + 2)
  }

  function DistExtra(k: nat): (e: nat)
    ensures e <= 13
  {
    EntryIsValue(DistExtras, k, k + 2);
    Entry(DistExtras, k, k + 2)
  }

  // The source's tables hold exactly these values.

  lemma LengthBaseTable(k: nat)
    requires k < 31
    ensures |LENGTH_BASE| == 31 && LENGTH_BASE[k] == LengthBaseRule(k)
  {
    match k {
      case 0 => case 1 => case 2 => case 3 => case 4 => case 5 => case 6 => case 7 => case 8 => case 9 =>
      case 10 => case 11 => case 12 => case 13 => case 14 => case 15 => case 16 => case 17 => case 18 => case 19 =>
      case 20 => case 21 => case 22 => case 23 => case 24 => case 25 => case 26 => case 27 => case 28 => case 29 =>
      case _ =>
    }
  }

  lemma LengthExtraTable(k: nat)
    requires k < 31
    ensures |LENGTH_EXTRA| == 31 && LENGTH_EXTRA[k] == LengthExtraRule(k)
  {
    match k {
      case 0 => case 1 => case 2 => case 3 => case 4 => case 5 => case 6 => case 7 => case 8 => case 9 =>
      case 10 => case 11 => case 12 => case 13 => case 14 => case 15 => case 16 => case 17 => case 18 => case 19 =>
      case 20 => case 21 => case 22 => case 23 => case 24 => case 25 => case 26 => case 27 => case 28 => case 29 =>
      case _ =>
    }
  }

  lemma DistBaseTable(k: nat)
    requires k < 32
    ensures |DIST_BASE| == 32 && DIST_BASE[k] == DistBaseRule(k)
  {
    match k {
      case 0 => case 1 => case 2 => case 3 => case 4 => case 5 => case 6 => case 7 => case 8 => case 9 =>
      case 10 => case 11 => case 12 => case 13 => case 14 => case 15 => case 16 => case 17 => case 18 => case 19 =>
      case 20 => case 21 => case 22 => case 23 => case 24 => case 25 => case 26 => case 27 => case 28 => case 29 =>
      case 30 => case _ =>
    }
  }

  lemma DistExtraTable(k: nat)
    requires k < 32
    ensures |DIST_EXTRA| == 32 && DIST_EXTRA[k] == DistExtraRule(k)
  {
    match k {
      case 0 => case 1 => case 2 => case 3 => case 4 => case 5 => case 6 => case 7 => case 8 => case 9 =>
      case 10 => case 11 => case 12 => case 13 => case 14 => case 15 => case 16 => case 17 => case 18 => case 19 =>
      case 20 => case 21 => case 22 => case 23 => case 24 => case 25 => case 26 => case 27 => case 28 => case 29 =>
      case 30 => case _ =>
    }
  }

  method LengthEntry(k: nat) returns (base: nat, extra: nat)
    requires k < 31
    ensures base == LengthBase(k) && extra == LengthExtra(k)
  {
    LengthBaseTable(k);
    LengthExtraTable(k);
    EntryIsValue(LengthBases, k, k + 2);
    EntryIsValue(LengthExtras, k, k + 2);
    base, extra := LENGTH_BASE[k], LENGTH_EXTRA[k];
  }

  method DistEntry(k: nat) returns (base: nat, extra: nat)
    requires k < 32
    ensures base == DistBase(k) && extra == DistExtra(k)
  {
    DistBaseTable(k);
    DistExtraTable(k);
    EntryIsValue(DistBases, k, k + 2);
    EntryIsValue(DistExtras, k, k + 2);
    base, extra := DIST_BASE[k], DIST_EXTRA[k];
  }

  // The tables leave no gap.

  /** 2^x, for the numbers of extra bits that occur. */
  function Stride(x: nat): nat
  {
    if x == 0 then 1 else if x == 1 then 2 else if x == 2 then 4 else if x == 3 then 8 else if x == 4 then 16
    else if x == 5 then 32 else if x == 6 then 64 else if x == 7 then 128 else if x == 8 then 256
    else if x == 9 then 512 else if x == 10 then 1024 else if x == 11 then 2048 else if x == 12 then 4096 else 8192
  }

  lemma {:induction false} StrideIsPower(x: nat)
    requires x <= 13
    ensures Stride(x) == Pow2(x)
  {
    if x == 0 {
    } else {
      StrideIsPower(x - 1);
    }
  }

  lemma LengthSymbol(len: nat) returns (k: nat, e: nat)
    requires 3 <= len <= 258
    ensures k < 29 && LengthBaseRule(k) + e == len && e < Stride(LengthExtraRule(k))
  {
    if len < 11 {
      k, e := len - 3, 0;
    } else if len < 19 {
      k, e := 8 + (len - 11) / 2, (len - 11) % 2;
    } else if len < 35 {
      k, e := 12 + (len - 19) / 4, (len - 19) % 4;
    } else if len < 67 {
      k, e := 16 + (len - 35) / 8, (len - 35) % 8;
    } else if len < 131 {
      k, e := 20 + (len - 67) / 16, (len - 67) % 16;
    } else if len < 258 {
      k, e := 24 + (len - 131) / 32, (len - 131) % 32;
    } else {
      k, e := 28, 0;
    }
  }

  lemma NearSymbol(dist: nat) returns (k: nat, e: nat)
    requires 5 <= dist <= 64
    ensures k < 30 && DistBaseRule(k) + e == dist && e < Stride(DistExtraRule(k))
  {
    if dist < 9 {
      k, e := 4 + (dist - 5) / 2, (dist - 5) % 2;
    } else if dist < 17 {
      k, e := 6 + (dist - 9) / 4, (dist - 9) % 4;
    } else if dist < 33 {
      k, e := 8 + (dist - 17) / 8, (dist - 17) % 8;
    } else {
      k, e := 10 + (dist - 33) / 16, (dist - 33) % 16;
    }
  }

  lemma MiddleSymbol(dist: nat) returns (k: nat, e: nat)
    requires 65 <= dist <= 1024
    ensures k < 30 && DistBaseRule(k) + e == dist && e < Stride(DistExtraRule(k))
  {
    if dist < 129 {
      k, e := 12 + (dist - 65) / 32, (dist - 65) % 32;
    } else if dist < 257 {
      k, e := 14 + (dist - 129) / 64, (dist - 129) % 64;
    } else if dist < 513 {
      k, e := 16 + (dist - 257) / 128, (dist - 257) % 128;
    } else {
      k, e := 18 + (dist - 513) / 256, (dist - 513) % 256;
    }
  }

  lemma FarSymbol(dist: nat) returns (k: nat, e: nat)
    requires 1025 <= dist <= 8192
    ensures k < 30 && DistBaseRule(k) + e == dist && e < Stride(DistExtraRule(k))
  {
    if dist < 2049 {
      k, e := 20 + (dist - 1025) / 512, (dist - 1025) % 512;
    } else if dist < 4097 {
      k, e := 22 + (dist - 2049) / 1024, (dist - 2049) % 1024;
    } else {
      k, e := 24 + (dist - 4097) / 2048, (dist - 4097) % 2048;
    }
  }

  lemma FarthestSymbol(dist: nat) returns (k: nat, e: nat)
    requires 8193 <= dist <= 32768
    ensures k < 30 && DistBaseRule(k) + e == dist && e < Stride(DistExtraRule(k))
  {
    if dist < 16385 {
      k, e := 26 + (dist - 8193) / 4096, (dist - 8193) % 4096;
    } else {
      k, e := 28 + (dist - 16385) / 8192, (dist - 16385) % 8192;
    }
  }

  lemma DistSymbol(dist: nat) returns (k: nat, e: nat)
    requires 1 <= dist <= 32768
    ensures k < 30 && DistBaseRule(k) + e == dist && e < Stride(DistExtraRule(k))
  {
    if dist < 5 {
      k, e := dist - 1, 0;
    } else if dist < 65 {
      k, e := NearSymbol(dist);
    } else if dist < 1025 {
      k, e := MiddleSymbol(dist);
    } else if dist < 8193 {
      k, e := FarSymbol(dist);
    } else {
      k, e := FarthestSymbol(dist);
    }
  }

  /** Every length from 3 to 258 has a symbol and extra bits. */
  lemma EveryLength(len: nat) returns (k: nat, e: nat)
    requires 3 <= len <= 258
    ensures k < 29 && LengthBase(k) + e == len && e < Pow2(LengthExtra(k))
  {
    k, e := LengthSymbol(len);
    EntryIsValue(LengthBases, k, k + 2);
    EntryIsValue(LengthExtras, k, k + 2);
    StrideIsPower(LengthExtra(k));
  }

  /** Every distance from 1 to 32768 has a symbol and extra bits. */
  lemma EveryDistance(dist: nat) returns (k: nat, e: nat)
    requires 1 <= dist <= 32768
    ensures k < 30 && DistBase(k) + e == dist && e < Pow2(DistExtra(k))
  {
    k, e := DistSymbol(dist);
    EntryIsValue(DistBases, k, k + 2);
    EntryIsValue(DistExtras, k, k + 2);
    StrideIsPower(DistExtra(k));
  }

  // What the numbers are, from one symbol to the next.

  /** Four length symbols to each number of extra bits, after eight without any; each base is
      where the symbol before it ends. Length 258 has the last symbol to itself. */
  lemma LengthLadder(k: nat)
    ensures LengthBase(0) == 3 && LengthBase(28) == 258 && LengthExtra(28) == 0
    ensures k < 27 ==> LengthBase(k + 1) == LengthBase(k) + Pow2(LengthExtra(k))
    ensures k < 28 ==> LengthExtra(k) == if k < 8 then 0 else (k - 4) / 4
    ensures 29 <= k ==> LengthBase(k) == 0 && LengthExtra(k) == 0
  {
    EntryIsValue(LengthBases, 0, 2);
    EntryIsValue(LengthBases, 28, 30);
    EntryIsValue(LengthExtras, 28, 30);
    EntryIsValue(LengthBases, k, k + 2);
    EntryIsValue(LengthBases, k + 1, k + 3);
    EntryIsValue(LengthExtras, k, k + 2);
    StrideIsPower(LengthExtra(k));
  }

  lemma DistRuleStep(k: nat)
    requires k < 29
    ensures DistBaseRule(k + 1) == DistBaseRule(k) + Stride(DistExtraRule(k))
  {
    if k < 14 {
      assert DistExtraRule(k) <= 5;
    } else {
      assert DistExtraRule(k) >= 6;
    }
  }

  lemma DistRuleExtra(k: nat)
    requires k < 30
    ensures DistExtraRule(k) == if k < 4 then 0 else k / 2 - 1
  {
  }

  /** Two distance symbols to each number of extra bits, after four without any. */
  lemma DistLadder(k: nat)
    ensures DistBase(0) == 1
    ensures k < 29 ==> DistBase(k + 1) == DistBase(k) + Pow2(DistExtra(k))
    ensures k < 30 ==> DistExtra(k) == if k < 4 then 0 else k / 2 - 1
    ensures 30 <= k ==> DistBase(k) == 0 && DistExtra(k) == 0
  {
    EntryIsValue(DistBases, 0, 2);
    EntryIsValue(DistBases, k, k + 2);
    EntryIsValue(DistBases, k + 1, k + 3);
    EntryIsValue(DistExtras, k, k + 2);
    if k < 29 {
      DistRuleStep(k);
      StrideIsPower(DistExtraRule(k));
    }
    if k < 30 {
      DistRuleExtra(k);
    }
  }
}
