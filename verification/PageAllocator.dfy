/** The physical page allocator of pmm.c over the bitmap of pmm.h. */
module PageAllocator {
  import opened BitOps
  import opened BitReversal
  import opened MemoryMap
  import opened PageRuns

  class Pmm {
    const hhdmOffset: nat
    var rows: array?<nat>
    var size: nat
    var totalPages: nat
    var usedPages: nat
    var highestAddress: nat
    var lowestAddress: nat
    /** One flag for every bit of the map: the abstract state. */
    ghost var used: seq<bool>

    constructor (hhdmOffset: nat)
      requires hhdmOffset < WORD
      ensures Untouched() && this.hhdmOffset == hhdmOffset
    {
      this.hhdmOffset := hhdmOffset;
      rows, size, totalPages, usedPages, highestAddress, lowestAddress := null, 0, 0, 0, 0, NO_LOWEST;
    }

    ghost predicate Untouched()
      reads this
    {
      rows == null && size == 0 && highestAddress == 0 && lowestAddress == NO_LOWEST
    }

    /** The map's words spell the flags; the 32-bit row of bitmap_check reaches all of them. */
    ghost predicate Valid()
      reads this, rows
    {
      && rows != null && rows.Length <= 0x1_0000_0000 && |used| == BITS_PER_ROW * rows.Length
      && (forall r {:trigger rows[r]} :: 0 <= r < rows.Length ==> rows[r] < Pow2(BITS_PER_ROW))
      && (forall r, c {:trigger BitSet(rows[r], c)} :: 0 <= r < rows.Length && 0 <= c < BITS_PER_ROW ==>
            BitSet(rows[r], c) == used[BITS_PER_ROW * r + c])
    }

    ghost function View(): State
      reads this
    {
      State(used, totalPages, usedPages)
    }

    // The bitmap.

    method Check(bit: nat) returns (b: bool)
      requires Valid() && bit < |used|
      ensures b == used[bit]
    {
      var row, column := bit / BITS_PER_ROW % 0x1_0000_0000, bit % BITS_PER_ROW;
      b := BitAnd(Shr(rows[row], column), 1) != 0;
      ShrBit(rows[row], column, 0);
      LowestBit(Shr(rows[row], column));
      assert bit == BITS_PER_ROW * row + column;
    }

    static lemma LowestBit(a: nat)
      ensures BitAnd(a, 1) == if BitSet(a, 0) then 1 else 0
    {
      AndZero(a / 2);
    }

    method Use(bit: nat)
      requires Valid() && bit < |used|
      modifies this`used, rows
      ensures Valid() && used == old(used)[bit := true]
    {
      var row, column := bit / BITS_PER_ROW, bit % BITS_PER_ROW;
      SetWord(rows[row], column);
      rows[row] := BitOr(rows[row], Shl(1, column));
      used := used[bit := true];
    }

    static lemma SetWord(w: nat, c: nat)
      requires w < Pow2(BITS_PER_ROW) && c < BITS_PER_ROW
      ensures BitOr(w, Shl(1, c)) < Pow2(BITS_PER_ROW)
      ensures forall k: nat {:trigger BitSet(BitOr(w, Shl(1, c)), k)} ::
                BitSet(BitOr(w, Shl(1, c)), k) <==> BitSet(w, k) || k == c
    {
      ShlOne(c);
      Pow2Below(c, BITS_PER_ROW);
      OrBound(w, Pow2(c), BITS_PER_ROW);
      forall k: nat ensures BitSet(BitOr(w, Shl(1, c)), k) <==> BitSet(w, k) || k == c {
        OrBit(w, Pow2(c), k);
        Pow2Bit(c, k);
      }
    }

    static lemma {:induction false} Pow2Below(m: nat, n: nat)
      requires m < n
      ensures Pow2(m) < Pow2(n)
    {
      Pow2Monotone(m + 1, n);
    }

    method Release(bit: nat)
      requires Valid() && bit < |used|
      modifies this`used, rows
      ensures Valid() && used == old(used)[bit := false]
    {
      var row, column := bit / BITS_PER_ROW, bit % BITS_PER_ROW;
      ClearWord(rows[row], column);
      rows[row] := BitAndNot(rows[row], Shl(1, column));
      used := used[bit := false];
    }

    static lemma ClearWord(w: nat, c: nat)
      ensures BitAndNot(w, Shl(1, c)) <= w
      ensures forall k: nat {:trigger BitSet(BitAndNot(w, Shl(1, c)), k)} ::
                BitSet(BitAndNot(w, Shl(1, c)), k) <==> BitSet(w, k) && k != c
    {
      ShlOne(c);
      AndNotBound(w, Pow2(c));
      forall k: nat ensures BitSet(BitAndNot(w, Shl(1, c)), k) <==> BitSet(w, k) && k != c {
        AndNotBit(w, Pow2(c), k);
        Pow2Bit(c, k);
      }
    }

    // Allocation.

    /** The address of the first run of free pages, relative to the lowest one, or NULL. */
    method FindFirstFreePageRange(pageCount: nat) returns (pointer: nat)
      requires Valid() && Contained(used, totalPages, pageCount)
      ensures match Search(used, 0, totalPages, pageCount)
              case None => pointer == 0
              case Some(i) => pointer == PAGE * i
    {
      var i: nat := 0;
      while i < totalPages
        invariant Search(used, i, totalPages, pageCount) == Search(used, 0, totalPages, pageCount)
        invariant NoneBefore(used, i, pageCount)
      {
        assert LooksAt(used, i, i);
        var taken := Check(i);
        if !taken {
          var j: nat := 0;
          while j < pageCount
            invariant j <= pageCount && i + j <= |used| && (pageCount > 0 ==> j < pageCount)
            invariant forall k {:trigger used[k]} :: i <= k < i + j ==> !used[k]
          {
            assert LooksAt(used, i, i + j);
            taken := Check(i + j);
            if taken {
              assert !FreeRun(used, i, pageCount);
              break;
            }
            if j == pageCount - 1 {
              return i * PAGE % WORD;
            }
            j := j + 1;
          }
        }
        i := i + 1;
      }
      return 0;
    }

    method UsePages(index: nat, pageCount: nat)
      requires Valid() && index + pageCount <= |used|
      modifies this`used, rows
      ensures Valid() && used == SetRange(old(used), index, pageCount, true)
    {
      for i := 0 to pageCount
        invariant Valid() && used == SetRange(old(used), index, i, true)
      {
        Use(index + i);
      }
    }

    method TakeRun(index: nat, pageCount: nat) returns (pointer: nat)
      requires Valid() && index + pageCount <= |used|
      modifies this`used, this`usedPages, rows
      ensures Valid() && pointer == Pointer(lowestAddress, index, hhdmOffset)
      ensures used == SetRange(old(used), index, pageCount, true) && usedPages == (old(usedPages) + pageCount) % WORD
    {
      UsePages(index, pageCount);
      usedPages := (usedPages + pageCount) % WORD;
      pointer := Pointer(lowestAddress, index, hhdmOffset);
    }

    method Kalloc(pageCount: nat) returns (pointer: nat)
      requires Valid() && (usedPages < totalPages ==> Contained(used, totalPages, pageCount))
      modifies this`used, this`usedPages, rows
      ensures Valid() && View() == PageRuns.Kalloc(old(View()), pageCount).0
      ensures match PageRuns.Kalloc(old(View()), pageCount).1
              case None => pointer == 0
              case Some(i) => pointer == Pointer(lowestAddress, i, hhdmOffset)
    {
      if usedPages >= totalPages {
        return 0;
      }
      pointer := FindFirstFreePageRange(pageCount);
      SearchLeast(used, 0, totalPages, pageCount);
      if pointer == 0 {
        return;
      }
      pointer := TakeRun(pointer / PAGE, pageCount);
    }

    /** The virtual address of page i. */
    static function Pointer(lowest: nat, i: nat, hhdm: nat): nat
    {
      (lowest + i * PAGE + hhdm) % WORD
    }

    /** The page a virtual address belongs to. */
    static function Index(lowest: nat, pointer: nat, hhdm: nat): nat
    {
      (pointer - hhdm - lowest) % WORD / PAGE
    }

    /** Pages and their addresses correspond one to one. */
    static lemma PointerIndex(lowest: nat, i: nat, hhdm: nat)
      requires i * PAGE < WORD
      ensures Index(lowest, Pointer(lowest, i, hhdm), hhdm) == i
    {
      assert (Pointer(lowest, i, hhdm) - hhdm - lowest) % WORD == i * PAGE;
    }

    method Kfree(pointer: nat, pageCount: nat)
      requires Valid() && (pageCount == 0 || Index(lowestAddress, pointer, hhdmOffset) + pageCount <= |used|)
      modifies this`used, this`usedPages, rows
      ensures Valid() && View() == PageRuns.Kfree(old(View()), Index(lowestAddress, pointer, hhdmOffset), pageCount)
    {
      var index := Index(lowestAddress, pointer, hhdmOffset);
      for i := 0 to pageCount
        invariant Valid() && usedPages == old(usedPages) && used == SetRange(old(used), index, i, false)
      {
        Release(index + i);
      }
      usedPages := (usedPages - pageCount) % WORD;
    }

    // Initialisation.

    method CountEntry(e: Entry)
      requires Paged(e)
      modifies this`highestAddress, this`lowestAddress
      ensures highestAddress
              == if e.usable && e.base + e.length > old(highestAddress) then e.base + e.length else old(highestAddress)
      ensures lowestAddress == if e.usable && e.base < old(lowestAddress) then e.base else old(lowestAddress)
    {
      if e.usable {
        var currentPageTop := (e.base + e.length) % WORD;
        if currentPageTop > highestAddress {
          highestAddress := currentPageTop;
        }
        if e.base < lowestAddress {
          lowestAddress := e.base;
        }
      }
    }

    method CountMemory(entries: seq<Entry>)
      requires Untouched() && WellFormed(entries)
      modifies this`highestAddress, this`lowestAddress, this`totalPages
      ensures highestAddress == Highest(entries, |entries|) && lowestAddress == Lowest(entries, |entries|)
      ensures totalPages == Span(entries)
    {
      var i := 0;
      while i < |entries|
        invariant 0 <= i <= |entries|
        invariant highestAddress == Highest(entries, i) && lowestAddress == Lowest(entries, i)
      {
        assert Paged(entries[i]);
        CountEntry(entries[i]);
        i := i + 1;
      }
      SpanKnown(entries);
      totalPages := (highestAddress - lowestAddress) % WORD / PAGE;
    }

    /** Puts the bitmap into the first entry that is long enough, with every page used, and
        trims that entry; false when there is none and the kernel has to stop. */
    method PlaceBitmap(entries: array<Entry>) returns (ok: bool)
      requires rows == null && totalPages < WORD && Rows(totalPages) <= 0x1_0000_0000
      requires forall i {:trigger entries[i]} :: 0 <= i < entries.Length ==> Paged(entries[i])
      modifies this`rows, this`size, this`used, this`totalPages, this`usedPages, entries
      ensures size == Rows(old(totalPages))
      ensures ok <==> exists k: nat :: FirstSuitable(old(entries[..]), size, k)
      ensures ok ==> Valid() && fresh(rows) && |used| == BITS_PER_ROW * size
      ensures ok ==> forall i {:trigger used[i]} :: 0 <= i < |used| ==> used[i]
      ensures ok ==> totalPages == (old(totalPages) - size / PAGE) % WORD && usedPages == totalPages
      ensures forall k: nat :: FirstSuitable(old(entries[..]), size, k) ==>
                entries[..] == Carved(old(entries[..]), size, k)
    {
      AlignUp(totalPages / BITS_PER_ROW);
      size := BitAndNot((totalPages / BITS_PER_ROW + PAGE - 1) % WORD, PAGE - 1);
      var i := 0;
      while i < entries.Length
        invariant 0 <= i <= entries.Length && rows == null && entries[..] == old(entries[..])
        invariant size == Rows(old(totalPages)) && totalPages == old(totalPages)
        invariant forall k :: 0 <= k < i ==> !Suits(old(entries[..])[k], size)
      {
        var entry := entries[i];
        if entry.usable && entry.length >= size {
          assert FirstSuitable(old(entries[..]), size, i);
          CarveEntry(entries, i);
          return true;
        }
        i := i + 1;
      }
      ok := false;
    }

    /** Takes the map out of entry k, all bits used. */
    method CarveEntry(entries: array<Entry>, k: nat)
      requires k < entries.Length && Paged(entries[k]) && Suits(entries[k], size) && size <= 0x1_0000_0000
      modifies this`rows, this`used, this`totalPages, this`usedPages, entries
      ensures Valid() && fresh(rows) && |used| == BITS_PER_ROW * size
      ensures forall i {:trigger used[i]} :: 0 <= i < |used| ==> used[i]
      ensures totalPages == (old(totalPages) - size / PAGE) % WORD && usedPages == totalPages
      ensures entries[..] == Carved(old(entries[..]), size, k)
    {
      ghost var es := entries[..];
      var entry := entries[k];
      TakeRows();
      entries[k] := entry.(base := (entry.base + size) % WORD, length := entry.length - size);
      assert entries[..] == es[k := Trim(entry, size)];
      totalPages := (totalPages - size / PAGE) % WORD;
      usedPages := totalPages;
    }

    /** Sets up the map, all bits used. */
    method TakeRows()
      requires size <= 0x1_0000_0000
      modifies this`rows, this`used
      ensures Valid() && fresh(rows) && |used| == BITS_PER_ROW * size
      ensures forall i {:trigger used[i]} :: 0 <= i < |used| ==> used[i]
    {
      var ones := Ones();
      rows := new nat[size](_ => ones);
      used := AllUsed(BITS_PER_ROW * size);
    }

    static ghost function AllUsed(n: nat): (u: seq<bool>)
      ensures |u| == n && forall i {:trigger u[i]} :: 0 <= i < n ==> u[i]
    {
      seq(n, _ => true)
    }

    static method Ones() returns (w: nat)
      ensures w < Pow2(BITS_PER_ROW) && forall c: nat {:trigger BitSet(w, c)} :: c < BITS_PER_ROW ==> BitSet(w, c)
    {
      w := Pow2(BITS_PER_ROW) - 1;
      forall c: nat ensures BitSet(w, c) <==> c < BITS_PER_ROW {
        OnesBit(BITS_PER_ROW, c);
      }
    }

    /** Exactly the pages of the first n entries are free, and the counter knows how many are. */
    ghost predicate Freed(entries: seq<Entry>, n: nat)
      requires n <= |entries|
      reads this
    {
      FreedTo(entries, n, lowestAddress, used) && Clear(used) + usedPages == totalPages
    }

    method FreeNext(entries: seq<Entry>, i: nat, ghost c: nat, ghost m: nat, ghost span: nat)
      requires Valid() && i < |entries| && Placed(entries, lowestAddress, c, m, span)
      requires Mapped(entries, lowestAddress, |used|) && totalPages == span - m < WORD && Freed(entries, i)
      modifies this`used, this`usedPages, rows
      ensures Valid() && |used| == old(|used|) && Freed(entries, i + 1)
    {
      var entry := entries[i];
      if entry.usable {
        FreeEntry(entries, i, lowestAddress, c, m, span, used);
        EntryIndex(entry, lowestAddress, hhdmOffset);
        ghost var k, before := entry.length / PAGE, usedPages;
        ghost var freed := SetRange(used, FirstPage(entry, lowestAddress), k, false);
        ghost var clear := Clear(freed);
        assert clear + (before - k) == totalPages && clear <= totalPages;
        Kfree((entry.base + hhdmOffset) % WORD, entry.length / PAGE);
        assert used == freed && usedPages == before - k;
      } else {
        SkipEntry(entries, i, lowestAddress, used);
      }
    }

    /** Frees exactly the pages of the usable entries; the counter follows without wrapping. */
    method FreeUsable(entries: seq<Entry>, ghost c: nat, ghost m: nat, ghost span: nat)
      requires Valid() && Placed(entries, lowestAddress, c, m, span) && Mapped(entries, lowestAddress, |used|)
      requires forall i {:trigger used[i]} :: 0 <= i < |used| ==> used[i]
      requires usedPages == totalPages == span - m < WORD
      modifies this`used, this`usedPages, rows
      ensures Valid() && FreedTo(entries, |entries|, lowestAddress, used) && |used| == old(|used|)
      ensures Clear(used) + usedPages == totalPages
    {
      NoneClear(used, |used|);
      var i := 0;
      while i < |entries|
        invariant 0 <= i <= |entries| && Valid() && |used| == old(|used|) && Freed(entries, i)
      {
        FreeNext(entries, i, c, m, span);
        i := i + 1;
      }
    }

    static lemma EntryIndex(e: Entry, lowest: nat, hhdm: nat)
      requires lowest <= e.base < WORD
      ensures Index(lowest, (e.base + hhdm) % WORD, hhdm) == FirstPage(e, lowest)
    {
      assert ((e.base + hhdm) % WORD - hhdm - lowest) % WORD == e.base - lowest;
    }

    static lemma {:induction false} NoneClear(used: seq<bool>, n: nat)
      requires n <= |used| && forall i {:trigger used[i]} :: 0 <= i < |used| ==> used[i]
      ensures ClearTo(used, n) == 0
    {
      if n == 0 {
      } else {
        NoneClear(used, n - 1);
      }
    }

    static lemma FencedExactly(st: State, es: seq<Entry>, lowest: nat)
      requires |st.used| > 0
      requires forall i {:trigger st.used[i]} :: 0 <= i < |st.used| ==>
                 (st.used[i] <==> i == 0 || !PageUsable(es, |es|, lowest, i))
      ensures Fenced(st) <==> FencePage(es, lowest, st.total, |st.used|)
    {
      if Stopped(st.used, st.total) {
        var s: nat :| st.total - 1 <= s < |st.used| && st.used[s];
        assert s == 0 || !PageUsable(es, |es|, lowest, s);
        assert FencePage(es, lowest, st.total, |st.used|);
      }
      if FencePage(es, lowest, st.total, |st.used|) {
        var i: nat :| st.total - 1 <= i < |st.used| && (i == 0 || !PageUsable(es, |es|, lowest, i));
        assert st.used[i];
        assert Stopped(st.used, st.total);
      }
    }

    /** Page 0 leaves the free pages, if it was one; a bit behind the span is a fence. */
    static lemma PageZeroReserved(es: seq<Entry>, lowest: nat, st: State, c: nat, m: nat, span: nat, e: nat)
      requires Placed(es, lowest, c, m, span) && FreedTo(es, |es|, lowest, st.used) && |st.used| > 0
      requires st.total == span - m < WORD && Clear(st.used) + st.usedPages == st.total
      requires e == if PageUsable(es, |es|, lowest, 0) then 1 else 0
      ensures Conserved(State(st.used[0 := true], st.total, st.usedPages), e)
      ensures span < |st.used| ==> Fenced(State(st.used[0 := true], st.total, st.usedPages))
    {
      if !st.used[0] {
        ClearUpdate(st.used, 0, |st.used|);
      } else {
        assert st.used[0 := true] == st.used;
      }
      if span < |st.used| {
        forall j | 0 <= j < |es| ensures !In(es[j], lowest + PAGE * span) {
          assert Paged(es[j]);
        }
        assert st.used[span] && st.used[0 := true][span];
      }
    }

    method ReservePageZero(ghost es: seq<Entry>, ghost c: nat, ghost m: nat, ghost span: nat)
      requires Valid() && Placed(es, lowestAddress, c, m, span) && Freed(es, |es|) && |used| > 0
      requires totalPages == span - m < WORD
      modifies this`used, rows
      ensures Valid() && |used| == old(|used|)
      ensures forall i {:trigger used[i]} :: 0 <= i < |used| ==>
                (used[i] <==> i == 0 || !PageUsable(es, |es|, lowestAddress, i))
      ensures Conserved(View(), if PageUsable(es, |es|, lowestAddress, 0) then 1 else 0)
      ensures Fenced(View()) <==> FencePage(es, lowestAddress, totalPages, |used|)
      ensures span < |used| ==> Fenced(View())
    {
      ghost var e := if PageUsable(es, |es|, lowestAddress, 0) then 1 else 0;
      PageZeroReserved(es, lowestAddress, View(), c, m, span, e);
      Use(0);
      FencedExactly(View(), es, lowestAddress);
    }

    /** From a map with every page used to the one that the kernel starts from. */
    method SetPages(entries: seq<Entry>, ghost c: nat, ghost m: nat, ghost span: nat)
      requires Valid() && |used| > 0 && forall i {:trigger used[i]} :: 0 <= i < |used| ==> used[i]
      requires Placed(entries, lowestAddress, c, m, span) && Mapped(entries, lowestAddress, |used|)
      requires usedPages == totalPages == span - m < WORD
      modifies this`used, this`usedPages, rows
      ensures Valid() && |used| == old(|used|)
      ensures forall i {:trigger used[i]} :: 0 <= i < |used| ==>
                (used[i] <==> i == 0 || !PageUsable(entries, |entries|, lowestAddress, i))
      ensures Conserved(View(), if PageUsable(entries, |entries|, lowestAddress, 0) then 1 else 0)
      ensures Fenced(View()) <==> FencePage(entries, lowestAddress, totalPages, |used|)
      ensures span < |used| ==> Fenced(View())
    {
      FreeUsable(entries, c, m, span);
      ReservePageZero(entries, c, m, span);
    }

    /** After initialisation a page is free exactly when it is not page 0 and lies in a usable
        entry of the trimmed map, and free and used pages add up; false when no entry can hold
        the bitmap. Every search is fenced exactly when some page from the last searched one to
        the end of the map is page 0 or not usable; a spare bit is always such a page. */
    method Initialize(entries: array<Entry>) returns (ok: bool)
      requires Untouched() && WellFormed(entries[..])
      requires BitmapReaches(entries[..]) && Rows(Span(entries[..])) <= 0x1_0000_0000
      modifies this, entries
      ensures size == Rows(Span(old(entries[..])))
      ensures ok <==> exists k: nat :: FirstSuitable(old(entries[..]), size, k)
      ensures forall k: nat :: FirstSuitable(old(entries[..]), size, k) ==>
                entries[..] == Carved(old(entries[..]), size, k)
      ensures ok ==> Valid() && fresh(rows) && |used| == BITS_PER_ROW * size
      ensures ok ==> lowestAddress == Lowest(old(entries[..]), entries.Length)
      ensures ok ==> totalPages == Span(old(entries[..])) - size / PAGE
      ensures ok ==> forall i {:trigger used[i]} :: 0 <= i < |used| ==>
                (used[i] <==> i == 0 || !PageUsable(entries[..], entries.Length, lowestAddress, i))
      ensures ok ==> Conserved(View(), if PageUsable(entries[..], entries.Length, lowestAddress, 0) then 1 else 0)
      ensures ok ==> (Fenced(View()) <==> FencePage(entries[..], lowestAddress, totalPages, |used|))
      ensures ok && (Span(old(entries[..])) / BITS_PER_ROW) % PAGE != 0 ==> Fenced(View())
    {
      ghost var es := entries[..];
      CountMemory(entries[..]);
      assert entries[..] == es;
      ok := PlaceBitmap(entries);
      if !ok {
        return;
      }
      ghost var span := Span(es);
      SpareBit(span);
      ghost var k: nat :| FirstSuitable(es, size, k);
      CarvedReady(es, k, size, lowestAddress, span);
      SetPages(entries[..], FirstPage(es[k], lowestAddress), size / PAGE, span);
    }

    /** One gigabyte of memory from address 0 has no spare bit, and all pages but page 0 are
        usable: nothing stops a look-ahead from the last searched page. A search for 0x4_0000
        pages gets there and examines a bit behind the map. */
    method InitializeGigabyte() returns (ok: bool)
      requires Untouched()
      modifies this
      ensures ok && Valid() && |used| == 0x4_0000 && totalPages == 0x3_FFFF
      ensures !Fenced(View()) && LooksAt(used, 0x3_FFFE, 0x4_0000)
      ensures usedPages < totalPages && !Contained(used, totalPages, 0x4_0000)
    {
      var entries := new Entry[1][Entry(0, 0x4000_0000, true)];
      ghost var es := entries[..];
      Gigabyte(es);
      ReachesExactly(es, 0);
      ok := Initialize(entries);
      assert entries[..] == Carved(es, size, 0);
      forall i | 0x3_FFFE <= i < |used| ensures !used[i] {
        GigabytePage(entries[..], i);
      }
      SomeClear(used, 0x3_FFFE, |used|);
      UnfencedLeaves(used, totalPages, 0x4_0000);
    }

    static lemma GigabytePage(es: seq<Entry>, i: nat)
      requires es == [Entry(0x1000, 0x3FFF_F000, true)] && 0 < i < 0x4_0000
      ensures PageUsable(es, 1, 0, i)
    {
      assert In(es[0], 0 + PAGE * i);
    }

    static lemma Gigabyte(es: seq<Entry>)
      requires es == [Entry(0, 0x4000_0000, true)]
      ensures WellFormed(es) && Lowest(es, 1) == 0 && Span(es) == 0x4_0000 && Rows(0x4_0000) == 0x1000
      ensures FirstSuitable(es, 0x1000, 0) && Carved(es, 0x1000, 0) == [Entry(0x1000, 0x3FFF_F000, true)]
    {
      OneEntry(es[0]);
    }
  }
}
