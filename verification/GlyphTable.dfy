/** The character table of an SSFN font: glyph records in code point order, with the gaps
    between them run-length coded, and the scan that looks a code point up. */
module GlyphTable {
  import opened BitOps
  import opened BitStream
  import opened Substrings
  import opened Wrappers

  const LIMIT := 0x110000

  /** Gaps of 65536, of up to 16128 and of up to 64 code points, and glyphs. */
  datatype Cell = SkipAll | Skip14(j: nat) | Skip6(j: nat) | Glyph(record: seq<Byte>)

  /** A record's first byte has the top bit clear; its length follows from its first two bytes. */
  predicate IsRecord(record: seq<Byte>)
  {
    |record| >= 6 && record[0] < 0x80 && |record| == RecordSize(record[0] as nat, record[1] as nat)
  }

  function RecordSize(b0: nat, b1: nat): nat
  {
    6 + (if b0 / 64 % 2 == 1 then 6 * b1 else 5 * b1)
  }

  predicate WellFormed(c: Cell)
  {
    match c
    case SkipAll => true
    case Skip14(j) => j < 0x3F00
    case Skip6(j) => j < 64
    case Glyph(record) => IsRecord(record)
  }

  function Width(c: Cell): (w: nat)
    ensures w > 0
  {
    match c
    case SkipAll => 0x10000
    case Skip14(j) => j + 1
    case Skip6(j) => j + 1
    case Glyph(_) => 1
  }

  function Bytes(c: Cell): (s: seq<Byte>)
    requires WellFormed(c)
    ensures |s| > 0
  {
    match c
    case SkipAll => [0xFF]
    case Skip14(j) => [(0xC0 + j / 256) as Byte, (j % 256) as Byte]
    case Skip6(j) => [(0x80 + j) as Byte]
    case Glyph(record) => record
  }

  predicate AllWellFormed(cells: seq<Cell>)
  {
    forall k :: 0 <= k < |cells| ==> WellFormed(cells[k])
  }

  function Encoded(cells: seq<Cell>): seq<Byte>
    requires AllWellFormed(cells)
  {
    if cells == [] then [] else Bytes(cells[0]) + Encoded(cells[1..])
  }

  function TotalWidth(cells: seq<Cell>): nat
  {
    if cells == [] then 0 else Width(cells[0]) + TotalWidth(cells[1..])
  }

  /** What the table assigns to the code point u places behind its start. */
  function Assigned(cells: seq<Cell>, u: nat): Option<seq<Byte>>
  {
    if cells == [] then None
    else if u >= Width(cells[0]) then Assigned(cells[1..], u - Width(cells[0]))
    else if cells[0].Glyph? then Some(cells[0].record)
    else None
  }

  // What a record is made of.

  /** Six bytes, the second of which counts the fragments, and as many fragments, of six bytes
      each when bit 6 of the first byte is set, and of five otherwise. */
  ghost predicate Parts(head: seq<Byte>, fragments: seq<seq<Byte>>)
  {
    && |head| == 6 && head[0] < 0x80 && head[1] as nat == |fragments|
    && forall k :: 0 <= k < |fragments| ==> |fragments[k]| == if head[0] >= 0x40 then 6 else 5
  }

  function Joined(fragments: seq<seq<Byte>>): seq<Byte>
  {
    if fragments == [] then [] else fragments[0] + Joined(fragments[1..])
  }

  lemma {:induction false} JoinedLength(fragments: seq<seq<Byte>>, n: nat)
    requires forall k :: 0 <= k < |fragments| ==> |fragments[k]| == n
    ensures |Joined(fragments)| == n * |fragments|
  {
    if fragments == [] {
    } else {
      JoinedLength(fragments[1..], n);
      assert n * |fragments| == n + n * (|fragments| - 1);
    }
  }

  /** Any bytes of that length are fragments. */
  lemma {:induction false} Cut(s: seq<Byte>, n: nat, count: nat) returns (fragments: seq<seq<Byte>>)
    requires |s| == n * count
    ensures |fragments| == count && (forall k :: 0 <= k < count ==> |fragments[k]| == n) && Joined(fragments) == s
    decreases count
  {
    if count == 0 {
      fragments := [];
    } else {
      assert n * count == n + n * (count - 1);
      var rest := Cut(s[n..], n, count - 1);
      fragments := [s[..n]] + rest;
      assert fragments[1..] == rest && s == s[..n] + s[n..];
    }
  }

  ghost predicate MadeOfParts(record: seq<Byte>)
  {
    exists head, fragments :: Parts(head, fragments) && record == head + Joined(fragments)
  }

  /** The records of the table are exactly the strings made of such parts. */
  lemma RecordParts(record: seq<Byte>)
    ensures IsRecord(record) <==> MadeOfParts(record)
  {
    if IsRecord(record) {
      var head := record[..6];
      assert record == head + record[6..];
      var fragments := Cut(record[6..], if head[0] >= 0x40 then 6 else 5, record[1] as nat);
      assert Parts(head, fragments);
    }
    if MadeOfParts(record) {
      var head, fragments :| Parts(head, fragments) && record == head + Joined(fragments);
      JoinedLength(fragments, if head[0] >= 0x40 then 6 else 5);
    }
  }

  // Reading one cell.

  lemma {:induction false} AndShifted(a: nat, m: nat, n: nat)
    ensures BitAnd(a, Shl(m, n)) == Shl(BitAnd(Shr(a, n), m), n)
  {
    if n == 0 {
    } else {
      AndShifted(a / 2, m, n - 1);
      AndStep(a, Shl(m, n));
      assert Shl(m, n) / 2 == Shl(m, n - 1);
    }
  }

  /** The bits of b from bit 6 on that the mask m << 6 keeps. */
  lemma HighBits(b: nat, m: nat, n: nat)
    requires m == Pow2(n) - 1
    ensures BitAnd(b, 64 * m) == 64 * Low(b / 64, n)
  {
    ShiftSix(b);
    ShiftSix(m);
    AndShifted(b, m, 6);
    AndMask(b / 64, n);
    ShiftSix(Low(b / 64, n));
  }

  /** The six low bits of a byte. */
  lemma LowBits(b: nat)
    ensures BitAnd(b, 0x3F) == b % 64
  {
    assert Pow2(6) == 64;
    AndMask(b, 6);
    LowSplit(b, 6);
    ShiftSix(b);
    ShiftSix(b / 64);
  }

  /** Both type bits of a byte. */
  lemma KindBits(b: nat)
    requires b < 256
    ensures BitAnd(b, 0xC0) == 64 * (b / 64)
  {
    assert Pow2(2) == 4;
    HighBits(b, 3, 2);
    LowIdentity(b / 64, 2);
  }

  lemma WideBit(b: nat)
    ensures BitAnd(b, 0x40) == 64 * (b / 64 % 2)
  {
    HighBits(b, 1, 1);
    assert Low(b / 64, 1) == b / 64 % 2;
  }

  /** The type bits, the low bits and the wide-fragment bit of a cell's first byte. */
  method Fields(b: nat) returns (kind: nat, low: nat, wide: nat)
    requires b < 256
    ensures kind == 64 * (b / 64) && low == b % 64 && wide == 64 * (b / 64 % 2)
  {
    KindBits(b);
    LowBits(b);
    WideBit(b);
    kind, low, wide := BitAnd(b, 0xC0), BitAnd(b, 0x3F), BitAnd(b, 0x40);
  }

  method LongGap(high: nat, low: nat) returns (j: nat)
    requires low < 256
    ensures j == 256 * high + low
  {
    Pow2Values();
    OrDisjoint(low, high, 8);
    ShlEight(high);
    j := BitOr(low, Shl(high, 8));
  }

  /** The bytes that decide what stands at p. */
  lemma CellBytes(table: seq<Byte>, p: nat, c: Cell)
    requires WellFormed(c) && Holds(table, p, Bytes(c))
    ensures p < |table|
    ensures match c
            case SkipAll => table[p] == 0xFF
            case Skip14(j) => p + 1 < |table| && table[p] as nat == 0xC0 + j / 256 && table[p + 1] as nat == j % 256
            case Skip6(j) => table[p] as nat == 0x80 + j
            case Glyph(r) =>
              p + 1 < |table| && table[p] < 0x80 && |r| == RecordSize(table[p] as nat, table[p + 1] as nat)
  {
    var s := Bytes(c);
    HoldsAt(table, p, s, 0);
    if |s| > 1 {
      HoldsAt(table, p, s, 1);
    }
  }

  /** One step of the scan: how many code points the bytes at p stand for, whether they are a
      glyph record, and where the next cell starts. */
  method Step(table: seq<Byte>, p: nat, ghost c: Cell) returns (width: nat, glyph: bool, next: nat)
    requires WellFormed(c) && Holds(table, p, Bytes(c))
    ensures width == Width(c) && glyph == c.Glyph? && next == p + |Bytes(c)|
    ensures p < |table| && (glyph <==> table[p] < 0x80)
    ensures table[p] == 0xFF ==> width == 65536 && next == p + 1
    ensures 0xC0 <= table[p] < 0xFF ==>
              p + 1 < |table| && width == 256 * (table[p] as nat - 0xC0) + table[p + 1] as nat + 1 && next == p + 2
    ensures 0x80 <= table[p] < 0xC0 ==> width == table[p] as nat - 0x80 + 1 && next == p + 1
    ensures table[p] < 0x80 ==>
              p + 1 < |table| && width == 1
              && next == p + 6 + (if table[p] >= 0x40 then 6 else 5) * table[p + 1] as nat
  {
    CellBytes(table, p, c);
    var b := table[p] as nat;
    var kind, low, wide := Fields(b);
    if b == 0xFF {
      width, glyph, next := 0x10000, false, p + 1;
    } else if kind == 0xC0 {
      var j := LongGap(low, table[p + 1] as nat);
      width, glyph, next := j + 1, false, p + 2;
    } else if kind == 0x80 {
      width, glyph, next := low + 1, false, p + 1;
    } else {
      var b1 := table[p + 1] as nat;
      width, glyph, next := 1, true, p + 6 + (if wide != 0 then 6 * b1 else 5 * b1);
    }
  }

  /** The scan for u ends inside the table: either the cells cover every code point, or they
      assign a record to u. */
  ghost predicate Covers(cells: seq<Cell>, u: nat)
  {
    TotalWidth(cells) >= LIMIT || (u < LIMIT && Assigned(cells, u).Some?)
  }

  /** The scan has come to code point i, with the remaining cells still ahead at p. */
  ghost predicate Scanning(table: seq<Byte>, p: nat, i: nat, u: nat, cells: seq<Cell>, rest: seq<Cell>)
  {
    && AllWellFormed(rest) && Holds(table, p, Encoded(rest))
    && (if u >= i then Assigned(cells, u) == Assigned(rest, u - i) else u < LIMIT ==> Assigned(cells, u) == None)
    && (i + TotalWidth(rest) >= LIMIT || (i <= u < LIMIT && Assigned(cells, u).Some?))
  }

  lemma NextCell(table: seq<Byte>, p: nat, i: nat, u: nat, cells: seq<Cell>, rest: seq<Cell>)
    requires Scanning(table, p, i, u, cells, rest) && i < LIMIT
    ensures rest != [] && Holds(table, p, Bytes(rest[0]))
    ensures !(rest[0].Glyph? && i == u) ==>
              Scanning(table, p + |Bytes(rest[0])|, i + Width(rest[0]), u, cells, rest[1..])
    ensures rest[0].Glyph? && i == u ==> Assigned(cells, u) == Some(Bytes(rest[0]))
  {
    HoldsConcat(table, p, Bytes(rest[0]), Encoded(rest[1..]));
  }

  /** The scan returns the record the table assigns to u, or nothing when it assigns none. */
  method Find(table: seq<Byte>, start: nat, u: nat, ghost cells: seq<Cell>) returns (found: bool, p: nat)
    requires AllWellFormed(cells) && Covers(cells, u) && Holds(table, start, Encoded(cells))
    ensures found <==> u < LIMIT && Assigned(cells, u).Some?
    ensures found ==> Holds(table, p, Assigned(cells, u).value)
  {
    ghost var rest := cells;
    var i: nat := 0;
    p := start;
    while i < LIMIT
      invariant Scanning(table, p, i, u, cells, rest)
      decreases LIMIT - i
    {
      NextCell(table, p, i, u, cells, rest);
      var width, glyph, next := Step(table, p, rest[0]);
      if glyph && i == u {
        return true, p;
      }
      rest := rest[1..];
      i, p := i + width, next;
    }
    found := false;
  }

  /** The second copy of the scan, which leaves the loop when it has found the glyph. */
  method FindForPutc(table: seq<Byte>, start: nat, unicode: nat, ghost cells: seq<Cell>) returns (chr: Option<nat>)
    requires AllWellFormed(cells) && Covers(cells, unicode) && Holds(table, start, Encoded(cells))
    ensures chr.Some? <==> unicode < LIMIT && Assigned(cells, unicode).Some?
    ensures chr.Some? ==> Holds(table, chr.value, Assigned(cells, unicode).value)
  {
    ghost var rest := cells;
    var i: nat, p := 0, start;
    chr := None;
    while i < LIMIT
      invariant Scanning(table, p, i, unicode, cells, rest) && chr == None
      decreases LIMIT - i
    {
      NextCell(table, p, i, unicode, cells, rest);
      var width, glyph, next := Step(table, p, rest[0]);
      if glyph && i == unicode {
        chr := Some(p);
        break;
      }
      rest := rest[1..];
      i, p := i + width, next;
    }
  }

  // Building a table.

  /** How many code points from i on have no glyph, up to the limit. */
  ghost function Gap(glyphs: map<nat, seq<Byte>>, i: nat): (g: nat)
    ensures i + g <= LIMIT || g == 0
    ensures forall k :: i <= k < i + g ==> k !in glyphs
    ensures i < LIMIT && i !in glyphs ==> g > 0
    decreases LIMIT - i
  {
    if i >= LIMIT || i in glyphs then 0 else 1 + Gap(glyphs, i + 1)
  }

  ghost function GapCell(g: nat): (c: Cell)
    requires g > 0
    ensures WellFormed(c) && !c.Glyph? && Width(c) <= g
  {
    if g >= 0x10000 then SkipAll
    else if g > 64 then Skip14(if g <= 0x3F00 then g - 1 else 0x3EFF)
    else Skip6(g - 1)
  }

  /** Tables for the code points from i on, with the longest skip that fits each gap. */
  ghost function Table(glyphs: map<nat, seq<Byte>>, i: nat): seq<Cell>
    decreases LIMIT - i
  {
    if i >= LIMIT then []
    else if i in glyphs then [Glyph(glyphs[i])] + Table(glyphs, i + 1)
    else
      var c := GapCell(Gap(glyphs, i));
      [c] + Table(glyphs, i + Width(c))
  }

  /** Looking up in the table of a map gives back the map. */
  lemma {:induction false} TableAssigns(glyphs: map<nat, seq<Byte>>, i: nat, u: nat)
    requires i <= LIMIT && forall k :: k in glyphs ==> IsRecord(glyphs[k])
    ensures AllWellFormed(Table(glyphs, i)) && TotalWidth(Table(glyphs, i)) == 0x110000 - i
    ensures i <= u < LIMIT ==> Assigned(Table(glyphs, i), u - i) == if u in glyphs then Some(glyphs[u]) else None
    decreases LIMIT - i
  {
    if i == LIMIT {
    } else {
      var cells := Table(glyphs, i);
      var c := if i in glyphs then Glyph(glyphs[i]) else GapCell(Gap(glyphs, i));
      assert cells[0] == c && cells[1..] == Table(glyphs, i + Width(c));
      TableAssigns(glyphs, i + Width(c), u);
    }
  }

  /** The scan of a map's table finds each code point's glyph, and nothing for the others. */
  method FindGlyph(table: seq<Byte>, start: nat, u: nat, ghost glyphs: map<nat, seq<Byte>>)
      returns (found: bool, p: nat)
    requires forall k :: k in glyphs ==> k < 0x110000 && MadeOfParts(glyphs[k])
    requires AllWellFormed(Table(glyphs, 0)) && Holds(table, start, Encoded(Table(glyphs, 0)))
    ensures found <==> u in glyphs
    ensures found ==> Holds(table, p, glyphs[u])
  {
    forall k | k in glyphs ensures IsRecord(glyphs[k]) {
      RecordParts(glyphs[k]);
    }
    TableAssigns(glyphs, 0, u);
    found, p := Find(table, start, u, Table(glyphs, 0));
  }
}
