/** The boot memory map, and what initialisation makes of it: the span of usable memory,
    the room for the bitmap, and the entry that is trimmed to hold it. */
module MemoryMap {
  import opened BitOps
  import opened PageRuns

  const PAGE := 0x1000
  const BITS_PER_ROW := 64
  const NO_LOWEST := 0xFFFF_FFFF

  datatype Entry = Entry(base: nat, length: nat, usable: bool)

  predicate In(e: Entry, a: int)
  {
    e.usable && e.base <= a < e.base + e.length
  }

  predicate Paged(e: Entry)
  {
    e.usable ==> e.base % PAGE == 0 && e.length % PAGE == 0 && e.base + e.length < WORD
  }

  /** Usable entries are page-aligned and disjoint, and one of them starts below 0xffffffff. */
  ghost predicate WellFormed(es: seq<Entry>)
  {
    && (forall i {:trigger es[i]} :: 0 <= i < |es| ==> Paged(es[i]))
    && Disjoint(es)
    && (exists i {:trigger es[i]} :: 0 <= i < |es| && es[i].usable && es[i].base < NO_LOWEST)
  }

  ghost predicate Disjoint(es: seq<Entry>)
  {
    forall i, j, a {:trigger In(es[i], a), In(es[j], a)} ::
      0 <= i < |es| && 0 <= j < |es| && In(es[i], a) && In(es[j], a) ==> i == j
  }

  function Highest(es: seq<Entry>, n: nat): nat
    requires n <= |es|
  {
    if n == 0 then 0
    else
      var h, e := Highest(es, n - 1), es[n - 1];
      if e.usable && e.base + e.length > h then e.base + e.length else h
  }

  function Lowest(es: seq<Entry>, n: nat): nat
    requires n <= |es|
  {
    if n == 0 then NO_LOWEST
    else
      var l, e := Lowest(es, n - 1), es[n - 1];
      if e.usable && e.base < l then e.base else l
  }

  lemma {:induction false} SpanHolds(es: seq<Entry>, n: nat, i: nat)
    requires i < n <= |es| && es[i].usable
    ensures Lowest(es, n) <= es[i].base && es[i].base + es[i].length <= Highest(es, n)
  {
    if i == n - 1 {
    } else {
      SpanHolds(es, n - 1, i);
    }
  }

  lemma {:induction false} SpanAttained(es: seq<Entry>, n: nat)
    requires n <= |es|
    ensures Lowest(es, n) == NO_LOWEST || exists i {:trigger es[i]} ::
              0 <= i < n && es[i].usable && es[i].base == Lowest(es, n)
    ensures Highest(es, n) == 0 || exists i {:trigger es[i]} ::
              0 <= i < n && es[i].usable && es[i].base + es[i].length == Highest(es, n)
  {
    if n == 0 {
    } else {
      SpanAttained(es, n - 1);
      assert es[n - 1] == es[n - 1];
    }
  }

  /** The pages counted reach from the least base of a usable entry to the greatest end of one. */
  lemma SpanExact(es: seq<Entry>)
    requires WellFormed(es)
    ensures exists lo, hi {:trigger es[lo], es[hi]} ::
              && 0 <= lo < |es| && 0 <= hi < |es| && es[lo].usable && es[hi].usable
              && 0x1000 * Span(es) == es[hi].base + es[hi].length - es[lo].base
              && forall i {:trigger es[i]} :: 0 <= i < |es| && es[i].usable ==>
                   es[lo].base <= es[i].base && es[i].base + es[i].length <= es[hi].base + es[hi].length
  {
    SpanKnown(es);
    SpanAttained(es, |es|);
    var u :| 0 <= u < |es| && es[u].usable && es[u].base < NO_LOWEST;
    forall i | 0 <= i < |es| && es[i].usable
      ensures Lowest(es, |es|) <= es[i].base && es[i].base + es[i].length <= Highest(es, |es|)
    {
      SpanHolds(es, |es|, i);
    }
    var lo :| 0 <= lo < |es| && es[lo].usable && es[lo].base == Lowest(es, |es|);
    var hi :| 0 <= hi < |es| && es[hi].usable && es[hi].base + es[hi].length == Highest(es, |es|);
  }

  /** The span's ends are page boundaries, once a usable entry starts below 0xffffffff. */
  lemma {:induction false} SpanAligned(es: seq<Entry>, n: nat)
    requires n <= |es| && forall i {:trigger es[i]} :: 0 <= i < |es| ==> Paged(es[i])
    ensures Highest(es, n) % PAGE == 0 && Highest(es, n) < WORD && Lowest(es, n) <= NO_LOWEST
    ensures Lowest(es, n) < NO_LOWEST ==> Lowest(es, n) % PAGE == 0 && Lowest(es, n) <= Highest(es, n)
  {
    if n == 0 {
    } else {
      SpanAligned(es, n - 1);
      assert Paged(es[n - 1]);
    }
  }

  /** The number of pages from the lowest to the highest usable address. */
  function Span(es: seq<Entry>): nat
  {
    var h, l := Highest(es, |es|), Lowest(es, |es|);
    if l <= h then (h - l) / PAGE else 0
  }

  /** ALIGN_UP(total / 64, 4096): rows of the bitmap, rounded up to a multiple of 4096. */
  function Rows(total: nat): nat
  {
    (total / BITS_PER_ROW + PAGE - 1) / PAGE * PAGE
  }

  /** The bitmap has a spare bit behind the last page of the span exactly when the rounding
      added rows. */
  lemma SpareBit(total: nat)
    ensures Rows(total) * BITS_PER_ROW > total <==> (total / BITS_PER_ROW) % PAGE != 0
  {
  }

  /** The bitmap has a bit for every page exactly when it has a spare one or the pages fill its
      last row. */
  lemma EnoughBits(total: nat)
    ensures Rows(total) * BITS_PER_ROW >= total <==> (total / BITS_PER_ROW) % PAGE != 0 || total % BITS_PER_ROW == 0
  {
  }

  /** (x + 4095) & ~4095 rounds up to a multiple of 4096. */
  lemma AlignUp(x: nat)
    ensures BitAndNot(x + PAGE - 1, PAGE - 1) == (x + PAGE - 1) / PAGE * PAGE
  {
    var a := x + PAGE - 1;
    AndNotMask(a, 12);
    assert Pow2(12) == PAGE by { Pow2Values(); }
    ShiftTwelve(a);
    ShiftTwelve(a / PAGE);
  }

  /** The least multiple of 4096 that is no less than a 64th of the pages: a bitmap of fewer
      than 64 pages has no bits at all. */
  lemma SomeRows(total: nat)
    ensures Rows(total) % 0x1000 == 0 && total / 64 <= Rows(total) < total / 64 + 0x1000
    ensures Rows(total) > 0 <==> total >= 64
  {
  }

  // Where the bitmap goes.

  /** The entry can hold size bytes. */
  predicate Suits(e: Entry, size: nat)
  {
    e.usable && e.length >= size
  }

  /** The first suitable entry, or none. */
  predicate FirstSuitable(es: seq<Entry>, size: nat, k: nat)
  {
    k < |es| && Suits(es[k], size) && forall i :: 0 <= i < k ==> !Suits(es[i], size)
  }

  function Trim(e: Entry, size: nat): Entry
    requires e.length >= size
  {
    e.(base := e.base + size, length := e.length - size)
  }

  function Carved(es: seq<Entry>, size: nat, k: nat): seq<Entry>
    requires k < |es| && es[k].length >= size
  {
    es[k := Trim(es[k], size)]
  }

  /** After carving, usable addresses are those of the old map outside the carved range, and
      the entries are still aligned and disjoint. */
  lemma CarvedKeeps(es: seq<Entry>, size: nat, k: nat)
    requires WellFormed(es) && size % PAGE == 0 && FirstSuitable(es, size, k)
    ensures var cs := Carved(es, size, k);
            && |cs| == |es| && Disjoint(cs)
            && (forall i {:trigger cs[i]} :: 0 <= i < |cs| ==> Paged(cs[i]) && cs[i].usable == es[i].usable)
            && (forall i, a {:trigger In(cs[i], a)} :: 0 <= i < |cs| ==>
                  (In(cs[i], a) <==> In(es[i], a) && !(es[k].base <= a < es[k].base + size)))
  {
    var cs := Carved(es, size, k);
    assert Paged(es[k]);
    forall i, a | 0 <= i < |cs|
      ensures In(cs[i], a) <==> In(es[i], a) && !(es[k].base <= a < es[k].base + size)
    {
      if es[k].base <= a < es[k].base + size {
        assert In(es[k], a);
      }
    }
  }

  /** Page i of the span lies in a usable entry among the first n. */
  ghost predicate PageUsable(es: seq<Entry>, n: nat, lowest: nat, i: int)
    requires n <= |es|
  {
    exists k {:trigger es[k]} :: 0 <= k < n && In(es[k], lowest + PAGE * i)
  }

  /** Some page from the last searched one to the end of the map stays used: it is page 0 or
      lies in no usable entry. */
  ghost predicate FencePage(es: seq<Entry>, lowest: nat, total: nat, bits: nat)
  {
    exists i: nat {:trigger PageUsable(es, |es|, lowest, i)} ::
      total - 1 <= i < bits && (i == 0 || !PageUsable(es, |es|, lowest, i))
  }

  // Freeing the usable pages, entry by entry.

  /** The entries lie on pages [0, span) above lowest, and none on the m pages from c on. */
  ghost predicate Placed(es: seq<Entry>, lowest: nat, c: nat, m: nat, span: nat)
  {
    && lowest % PAGE == 0 && c + m <= span && Disjoint(es)
    && (forall i {:trigger es[i]} :: 0 <= i < |es| ==>
          Paged(es[i]) && (es[i].usable ==> lowest <= es[i].base && es[i].base + es[i].length <= lowest + PAGE * span))
    && (forall i, a {:trigger In(es[i], a)} :: 0 <= i < |es| && In(es[i], a) ==>
          !(lowest + PAGE * c <= a < lowest + PAGE * (c + m)))
  }

  /** Exactly the pages of the first n entries are free. */
  ghost predicate FreedTo(es: seq<Entry>, n: nat, lowest: nat, used: seq<bool>)
    requires n <= |es|
  {
    forall i {:trigger used[i]} :: 0 <= i < |used| ==> (used[i] <==> !PageUsable(es, n, lowest, i))
  }

  function FirstPage(e: Entry, lowest: nat): nat
  {
    if e.base >= lowest then (e.base - lowest) / PAGE else 0
  }

  /** An entry's addresses are those of its pages. */
  lemma EntryPages(e: Entry, lowest: nat, i: nat)
    requires e.usable && Paged(e) && lowest % PAGE == 0 && e.base >= lowest
    ensures In(e, lowest + PAGE * i) <==> FirstPage(e, lowest) <= i < FirstPage(e, lowest) + e.length / PAGE
  {
  }

  /** The pages of every usable entry have bits. */
  ghost predicate Mapped(es: seq<Entry>, lowest: nat, bits: nat)
  {
    forall i {:trigger es[i]} :: 0 <= i < |es| && es[i].usable && es[i].length > 0 ==>
      FirstPage(es[i], lowest) + es[i].length / PAGE <= bits
  }

  /** That is so exactly when no page from bits on is usable: freeing the entries writes to no
      bit behind the map. */
  lemma MappedExactly(es: seq<Entry>, lowest: nat, c: nat, m: nat, span: nat, bits: nat)
    requires Placed(es, lowest, c, m, span)
    ensures Mapped(es, lowest, bits) <==> forall i: nat :: bits <= i ==> !PageUsable(es, |es|, lowest, i)
    ensures span <= bits ==> Mapped(es, lowest, bits)
  {
    if Mapped(es, lowest, bits) {
      forall i: nat | bits <= i ensures !PageUsable(es, |es|, lowest, i) {
        forall k | 0 <= k < |es| && es[k].usable ensures !In(es[k], lowest + PAGE * i) {
          assert Paged(es[k]);
          EntryPages(es[k], lowest, i);
        }
      }
    }
    forall k | 0 <= k < |es| && es[k].usable && es[k].length > 0
      ensures span <= bits || (forall i: nat :: bits <= i ==> !PageUsable(es, |es|, lowest, i)) ==>
                FirstPage(es[k], lowest) + es[k].length / PAGE <= bits
    {
      LastPage(es, lowest, c, m, span, k);
    }
  }

  lemma LastPage(es: seq<Entry>, lowest: nat, c: nat, m: nat, span: nat, k: nat)
    requires Placed(es, lowest, c, m, span) && k < |es| && es[k].usable && es[k].length > 0
    ensures var last := FirstPage(es[k], lowest) + es[k].length / PAGE - 1;
            0 <= last < span && PageUsable(es, |es|, lowest, last)
  {
    assert Paged(es[k]);
    var last := FirstPage(es[k], lowest) + es[k].length / PAGE - 1;
    EntryPages(es[k], lowest, last);
    assert In(es[k], lowest + PAGE * last);
  }

  /** The pages of the next entry are still used. */
  lemma NextEntryUsed(es: seq<Entry>, n: nat, lowest: nat, c: nat, m: nat, span: nat, used: seq<bool>)
    requires Placed(es, lowest, c, m, span) && Mapped(es, lowest, |used|) && n < |es| && FreedTo(es, n, lowest, used)
    requires es[n].usable
    ensures var s, k := FirstPage(es[n], lowest), es[n].length / PAGE;
            (k == 0 || s + k <= |used|) && forall i {:trigger used[i]} :: s <= i < s + k ==> used[i]
  {
    var s, k := FirstPage(es[n], lowest), es[n].length / PAGE;
    assert Paged(es[n]);
    forall i | s <= i < s + k && i < |used| ensures used[i] {
      EntryPages(es[n], lowest, i);
      assert In(es[n], lowest + PAGE * i) && !PageUsable(es, n, lowest, i);
    }
  }

  /** Free pages lie inside the span and off the carved ones, so there are not too many. */
  lemma FreedFit(es: seq<Entry>, n: nat, lowest: nat, c: nat, m: nat, span: nat, used: seq<bool>)
    requires Placed(es, lowest, c, m, span) && n <= |es| && FreedTo(es, n, lowest, used)
    ensures Clear(used) <= span - m
  {
    forall i | 0 <= i < |used| && !used[i] ensures i < span && !(c <= i < c + m) {
      var j :| 0 <= j < n && In(es[j], lowest + PAGE * i);
    }
    ClearBound(used, |used|, c, m, span);
  }

  lemma NextUsable(es: seq<Entry>, n: nat, lowest: nat, i: nat)
    requires n < |es|
    ensures PageUsable(es, n + 1, lowest, i) <==> PageUsable(es, n, lowest, i) || In(es[n], lowest + PAGE * i)
  {
  }

  lemma EntryFreed(es: seq<Entry>, n: nat, lowest: nat, used: seq<bool>)
    requires n < |es| && es[n].usable && Paged(es[n]) && lowest % PAGE == 0 && es[n].base >= lowest
    requires FreedTo(es, n, lowest, used)
    requires es[n].length / PAGE == 0 || FirstPage(es[n], lowest) + es[n].length / PAGE <= |used|
    ensures FreedTo(es, n + 1, lowest, SetRange(used, FirstPage(es[n], lowest), es[n].length / PAGE, false))
  {
    var freed := SetRange(used, FirstPage(es[n], lowest), es[n].length / PAGE, false);
    forall i | 0 <= i < |freed| ensures freed[i] <==> !PageUsable(es, n + 1, lowest, i) {
      EntryPages(es[n], lowest, i);
      NextUsable(es, n, lowest, i);
    }
  }

  /** Freeing entry n turns its pages, all still used, from used to free. */
  lemma FreeEntry(es: seq<Entry>, n: nat, lowest: nat, c: nat, m: nat, span: nat, used: seq<bool>)
    requires Placed(es, lowest, c, m, span) && Mapped(es, lowest, |used|) && n < |es| && FreedTo(es, n, lowest, used)
    requires es[n].usable
    ensures var s, k := FirstPage(es[n], lowest), es[n].length / PAGE;
            && (k == 0 || s + k <= |used|) && Clear(SetRange(used, s, k, false)) == Clear(used) + k
            && Clear(SetRange(used, s, k, false)) <= span - m
            && FreedTo(es, n + 1, lowest, SetRange(used, s, k, false))
  {
    var s, k := FirstPage(es[n], lowest), es[n].length / PAGE;
    NextEntryUsed(es, n, lowest, c, m, span, used);
    ClearSetRange(used, s, k, false);
    assert Paged(es[n]);
    EntryFreed(es, n, lowest, used);
    FreedFit(es, n + 1, lowest, c, m, span, SetRange(used, s, k, false));
  }

  lemma SkipEntry(es: seq<Entry>, n: nat, lowest: nat, used: seq<bool>)
    requires n < |es| && !es[n].usable && FreedTo(es, n, lowest, used)
    ensures FreedTo(es, n + 1, lowest, used)
  {
    forall i | 0 <= i < |used| ensures PageUsable(es, n, lowest, i) <==> PageUsable(es, n + 1, lowest, i) {
    }
  }

  /** Carving leaves the other usable pages inside the span and off the carved ones. */
  lemma CarvedPlaced(es: seq<Entry>, k: nat, size: nat, low: nat, span: nat)
    requires WellFormed(es) && size % PAGE == 0 && FirstSuitable(es, size, k)
    requires low == Lowest(es, |es|) && span == Span(es)
    ensures Placed(Carved(es, size, k), low, FirstPage(es[k], low), size / PAGE, span)
  {
    SpanKnown(es);
    CarvedKeeps(es, size, k);
    var cs := Carved(es, size, k);
    SpanHolds(es, |es|, k);
    CarvedPages(es[k], size, low);
    forall i | 0 <= i < |cs| && cs[i].usable
      ensures low <= cs[i].base && cs[i].base + cs[i].length <= low + PAGE * span
    {
      SpanHolds(es, |es|, i);
    }
  }

  lemma CarvedPages(e: Entry, size: nat, low: nat)
    requires Paged(e) && e.usable && low % PAGE == 0 && low <= e.base && size % PAGE == 0
    ensures low + PAGE * FirstPage(e, low) == e.base
    ensures low + PAGE * (FirstPage(e, low) + size / PAGE) == e.base + size
  {
  }

  lemma SpanKnown(es: seq<Entry>)
    requires WellFormed(es)
    ensures Lowest(es, |es|) % PAGE == 0 && Highest(es, |es|) < WORD
    ensures Highest(es, |es|) == Lowest(es, |es|) + PAGE * Span(es)
  {
    var i :| 0 <= i < |es| && es[i].usable && es[i].base < NO_LOWEST;
    SpanHolds(es, |es|, i);
    SpanAligned(es, |es|);
  }

  // When the bitmap has enough bits.

  /** Wherever initialisation puts the bitmap, it has bits, and one for every page it frees. */
  ghost predicate BitmapReaches(es: seq<Entry>)
  {
    var size := Rows(Span(es));
    forall k: nat :: FirstSuitable(es, size, k) ==>
      size > 0 && Mapped(Carved(es, size, k), Lowest(es, |es|), BITS_PER_ROW * size)
  }

  /** In terms of the memory map alone: exactly when there are 64 pages or more, and no page
      without a bit is usable and not carved out. Enough bits for the span are enough. */
  lemma ReachesExactly(es: seq<Entry>, k: nat)
    requires WellFormed(es) && FirstSuitable(es, Rows(Span(es)), k)
    ensures var size, low := Rows(Span(es)), Lowest(es, |es|);
            BitmapReaches(es)
            <==> Span(es) >= BITS_PER_ROW
                 && forall i: nat :: BITS_PER_ROW * size <= i ==> !PageUsable(Carved(es, size, k), |es|, low, i)
    ensures BITS_PER_ROW <= Span(es) <= BITS_PER_ROW * Rows(Span(es)) ==> BitmapReaches(es)
  {
    var size, low := Rows(Span(es)), Lowest(es, |es|);
    SomeRows(Span(es));
    CarvedPlaced(es, k, size, low, Span(es));
    MappedExactly(Carved(es, size, k), low, FirstPage(es[k], low), size / PAGE, Span(es), BITS_PER_ROW * size);
    assert forall j: nat :: FirstSuitable(es, size, j) ==> j == k;
  }

  /** What initialisation goes on with after the carving. */
  lemma CarvedReady(es: seq<Entry>, k: nat, size: nat, low: nat, span: nat)
    requires WellFormed(es) && BitmapReaches(es) && FirstSuitable(es, size, k)
    requires size == Rows(span) && low == Lowest(es, |es|) && span == Span(es)
    ensures Placed(Carved(es, size, k), low, FirstPage(es[k], low), size / PAGE, span)
    ensures Mapped(Carved(es, size, k), low, BITS_PER_ROW * size) && size > 0
    ensures size / PAGE <= span < WORD && (span - size / PAGE) % WORD == span - size / PAGE
  {
    CarvedPlaced(es, k, size, low, span);
    SpanKnown(es);
  }

  /** A memory map of one usable entry. */
  lemma OneEntry(e: Entry)
    requires e.usable && Paged(e) && e.base < NO_LOWEST
    ensures WellFormed([e]) && Lowest([e], 1) == e.base && Span([e]) == e.length / PAGE
  {
    var es := [e];
    assert es[0] == e;
    assert Highest(es, 0) == 0 && Lowest(es, 0) == NO_LOWEST;
    assert Highest(es, 1) == e.base + e.length;
  }

  /** One page more than a gigabyte: 0x4_0001 pages and 0x4_0000 bits. Freeing the entry clears
      a bit of the word behind the map. */
  lemma OnePageTooMany(es: seq<Entry>)
    requires es == [Entry(0, 0x4000_1000, true)]
    ensures WellFormed(es) && Span(es) == 0x4_0001 && Rows(0x4_0001) == 0x1000 && FirstSuitable(es, 0x1000, 0)
    ensures PageUsable(Carved(es, 0x1000, 0), 1, Lowest(es, 1), BITS_PER_ROW * 0x1000)
    ensures !BitmapReaches(es)
  {
    OneEntry(es[0]);
    var carved := Carved(es, 0x1000, 0);
    assert carved[0] == Entry(0x1000, 0x4000_0000, true);
    assert In(carved[0], 0 + PAGE * (BITS_PER_ROW * 0x1000));
    assert FirstPage(carved[0], 0) + carved[0].length / PAGE == 0x4_0001;
    assert FirstSuitable(es, Rows(Span(es)), 0) && !Mapped(carved, 0, BITS_PER_ROW * 0x1000);
  }

  /** With as few bits the carving can still save it: here the bitmap takes the whole last
      entry, and with it the page that has no bit. */
  lemma CarvedInTime(es: seq<Entry>)
    requires es == [Entry(0, 0x1000, true), Entry(0x7FFF_F000, 0x2000, true)]
    ensures WellFormed(es) && Span(es) == 0x8_0001 && BITS_PER_ROW * Rows(0x8_0001) == 0x8_0000
    ensures BitmapReaches(es)
  {
    assert es[0] == Entry(0, 0x1000, true) && es[1] == Entry(0x7FFF_F000, 0x2000, true);
    assert Highest(es, 0) == 0 && Highest(es, 1) == 0x1000 && Highest(es, 2) == 0x8000_1000;
    assert Lowest(es, 0) == NO_LOWEST && Lowest(es, 1) == 0 && Lowest(es, 2) == 0;
    assert FirstSuitable(es, 0x2000, 1);
  }

  // Where the bitmap lies.

  /** The bitmap has size words of 8 bytes, but only size bytes are carved out for it. So the
      carved bytes never cover it, and when the entry is longer than that, the first page
      behind them lies in the bitmap and yet in the trimmed map. */
  lemma BitmapOverrun(es: seq<Entry>, size: nat, k: nat, low: nat)
    requires WellFormed(es) && size % PAGE == 0 && size > 0 && FirstSuitable(es, size, k) && low == Lowest(es, |es|)
    ensures es[k].base + size < es[k].base + 8 * size
    ensures es[k].length > size ==>
              var i := FirstPage(es[k], low) + size / PAGE;
              && es[k].base <= low + PAGE * i && low + PAGE * (i + 1) <= es[k].base + 8 * size
              && PageUsable(Carved(es, size, k), |es|, low, i)
  {
    SpanKnown(es);
    SpanHolds(es, |es|, k);
    assert Paged(es[k]);
    CarvedPages(es[k], size, low);
    if es[k].length > size {
      assert In(Carved(es, size, k)[k], es[k].base + size);
    }
  }
}
