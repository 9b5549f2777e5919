/** Whole runs on the allocator itself: any sequence of allocations and frees of live blocks,
    carried out by kalloc and kfree, goes through the states that PageRuns is about. */
module AllocatorRuns {
  import opened BitOps
  import opened MemoryMap
  import opened PageAllocator
  import opened PageRuns

  lemma {:induction false} ExecAppend(r: Run, ops: seq<Op>, op: Op)
    requires Inside(r)
    ensures Exec(r, ops + [op]) == Step(Exec(r, ops), op)
    decreases |ops|
  {
    if ops == [] {
      assert [] + [op] == [op] && [op][1..] == [];
    } else {
      assert (ops + [op])[1..] == ops[1..] + [op];
      ExecAppend(Step(r, ops[0]), ops[1..], op);
    }
  }

  /** No page but page 0 has the address NULL, so that NULL means failure. Addresses may wrap
      around otherwise. */
  ghost predicate Addressable(p: Pmm)
    reads p
  {
    NeverNull(p.lowestAddress, |p.used|, p.hhdmOffset)
  }

  ghost predicate NeverNull(lowest: nat, pages: nat, hhdm: nat)
  {
    forall i: nat :: 0 < i < pages ==> Pmm.Pointer(lowest, i, hhdm) != 0
  }

  lemma AllocStep(st: State, live: set<Block>, n: nat)
    requires Inside(Run(st, live))
    ensures var (st', found) := Kalloc(st, n);
            && Step(Run(st, live), Alloc(n)) == Run(st', if found.Some? then live + {Block(found.value, n)} else live)
            && (found.Some? ==> 0 < found.value < |st.used|)
  {
    SearchLeast(st.used, 0, st.total, n);
  }

  /** The blocks in use, each with the address that kalloc returned for it. */
  ghost predicate Addressed(held: map<Block, nat>, lowest: nat, hhdm: nat)
  {
    forall b :: b in held ==> held[b] == Pmm.Pointer(lowest, b.start, hhdm)
  }

  method Allocate(p: Pmm, n: nat, held: map<Block, nat>) returns (held': map<Block, nat>)
    requires p.Valid() && Fenced(p.View()) && Inside(Run(p.View(), held.Keys)) && Addressable(p)
    requires Addressed(held, p.lowestAddress, p.hhdmOffset)
    modifies p`used, p`usedPages, p.rows
    ensures p.Valid() && Run(p.View(), held'.Keys) == Step(Run(old(p.View()), held.Keys), Alloc(n))
    ensures Addressed(held', p.lowestAddress, p.hhdmOffset)
  {
    FenceContains(p.View(), n);
    AllocStep(p.View(), held.Keys, n);
    ghost var found := Kalloc(p.View(), n).1;
    if found.Some? {
      Pmm.PointerIndex(p.lowestAddress, found.value, p.hhdmOffset);
    }
    var pointer := p.Kalloc(n);
    held' := held;
    if pointer != 0 {
      held' := held[Block(Pmm.Index(p.lowestAddress, pointer, p.hhdmOffset), n) := pointer];
    }
  }

  method Release(p: Pmm, b: Block, held: map<Block, nat>) returns (held': map<Block, nat>)
    requires p.Valid() && Fenced(p.View()) && Inside(Run(p.View(), held.Keys)) && Addressable(p)
    requires Addressed(held, p.lowestAddress, p.hhdmOffset)
    modifies p`used, p`usedPages, p.rows
    ensures p.Valid() && Run(p.View(), held'.Keys) == Step(Run(old(p.View()), held.Keys), Free(b))
    ensures Addressed(held', p.lowestAddress, p.hhdmOffset)
  {
    held' := held;
    if b in held {
      Pmm.PointerIndex(p.lowestAddress, b.start, p.hhdmOffset);
      p.Kfree(held[b], b.pages);
      held' := held - {b};
      assert held'.Keys == held.Keys - {b};
    }
  }

  /** One operation. */
  method CarryOutOne(p: Pmm, op: Op, held: map<Block, nat>) returns (held': map<Block, nat>)
    requires p.Valid() && Fenced(p.View()) && Inside(Run(p.View(), held.Keys)) && Addressable(p)
    requires Addressed(held, p.lowestAddress, p.hhdmOffset)
    modifies p`used, p`usedPages, p.rows
    ensures p.Valid() && Run(p.View(), held'.Keys) == Step(Run(old(p.View()), held.Keys), op)
    ensures Addressed(held', p.lowestAddress, p.hhdmOffset)
  {
    match op
    case Alloc(n) => held' := Allocate(p, n, held);
    case Free(b) => held' := Release(p, b, held);
  }

  /** All operations in turn, freeing by the addresses that were returned. Together with
      AllRuns: live blocks stay disjoint, in pages that were free at the start, and every page
      and the counter are exactly accounted for. */
  method CarryOut(p: Pmm, ops: seq<Op>, ghost e: nat) returns (held: map<Block, nat>)
    requires p.Valid() && Booted(p.View(), e) && Addressable(p)
    modifies p`used, p`usedPages, p.rows
    ensures p.Valid() && Run(p.View(), held.Keys) == Exec(Run(old(p.View()), {}), ops)
    ensures Safe(old(p.View()), Run(p.View(), held.Keys)) && Exact(old(p.View()), Run(p.View(), held.Keys))
    ensures Booted(p.View(), e) && Addressed(held, p.lowestAddress, p.hhdmOffset)
  {
    ghost var start := Run(p.View(), {});
    held := map[];
    for i := 0 to |ops|
      invariant p.Valid() && Run(p.View(), held.Keys) == Exec(start, ops[..i])
      invariant Addressed(held, p.lowestAddress, p.hhdmOffset)
    {
      AllRuns(start.st, e, ops[..i]);
      ExecAppend(start, ops[..i], ops[i]);
      assert ops[..i + 1] == ops[..i] + [ops[i]];
      held := CarryOutOne(p, ops[i], held);
    }
    assert ops[..|ops|] == ops;
    AllRuns(start.st, e, ops);
  }

  // From the memory map on.

  /** The memory map can be used, and its searches will be fenced, with addresses as above. */
  ghost predicate Bootable(es: seq<Entry>, hhdm: nat)
  {
    var size, low := Rows(Span(es)), Lowest(es, |es|);
    && WellFormed(es) && BitmapReaches(es) && size <= 0x1_0000_0000 && NeverNull(low, BITS_PER_ROW * size, hhdm)
    && forall k: nat :: FirstSuitable(es, size, k) ==>
         FencePage(Carved(es, size, k), low, Span(es) - size / PAGE, BITS_PER_ROW * size)
  }

  /** The pages lie in usable entries of es, and none of them is page 0 or among the ones that
      size bytes take from address base on. */
  ghost predicate InUsableMemory(i: nat, es: seq<Entry>, low: nat, base: nat, size: nat)
  {
    i > 0 && PageUsable(es, |es|, low, i) && !(base <= low + PAGE * i < base + size)
  }

  /** What the bits say after initialisation, in terms of the memory map before it. */
  lemma FreeIsUsable(es: seq<Entry>, k: nat, used: seq<bool>)
    requires WellFormed(es) && FirstSuitable(es, Rows(Span(es)), k)
    requires forall i {:trigger used[i]} :: 0 <= i < |used| ==>
               (used[i] <==> i == 0 || !PageUsable(Carved(es, Rows(Span(es)), k), |es|, Lowest(es, |es|), i))
    ensures forall i {:trigger used[i]} :: 0 <= i < |used| ==>
              (used[i] <==> !InUsableMemory(i, es, Lowest(es, |es|), es[k].base, Rows(Span(es))))
  {
    var size, low := Rows(Span(es)), Lowest(es, |es|);
    var cs := Carved(es, size, k);
    CarvedKeeps(es, size, k);
    forall i | 0 < i < |used|
      ensures PageUsable(cs, |es|, low, i) <==> InUsableMemory(i, es, low, es[k].base, size)
    {
      if PageUsable(cs, |es|, low, i) {
        var j :| 0 <= j < |cs| && In(cs[j], low + PAGE * i);
        assert In(es[j], low + PAGE * i);
      }
      if InUsableMemory(i, es, low, es[k].base, size) {
        var j :| 0 <= j < |es| && In(es[j], low + PAGE * i);
        assert In(cs[j], low + PAGE * i);
      }
    }
  }

  // Down to the bytes.

  /** The byte lies in a usable entry of the memory map and outside the size bytes from base on. */
  ghost predicate UsableByte(es: seq<Entry>, base: nat, size: nat, addr: int)
  {
    (exists j {:trigger es[j]} :: 0 <= j < |es| && In(es[j], addr)) && !(base <= addr < base + size)
  }

  /** Everything begins and ends on page boundaries. */
  ghost predicate Aligned(es: seq<Entry>, low: nat, base: nat, size: nat)
  {
    && low % PAGE == 0 && base % PAGE == 0 && size % PAGE == 0
    && forall i {:trigger es[i]} :: 0 <= i < |es| ==> Paged(es[i])
  }

  lemma BootAligned(es: seq<Entry>, k: nat)
    requires WellFormed(es) && FirstSuitable(es, Rows(Span(es)), k)
    ensures Aligned(es, Lowest(es, |es|), es[k].base, Rows(Span(es)))
  {
    SpanKnown(es);
    assert Paged(es[k]);
  }

  /** A byte of a page is usable when the page is. */
  lemma PageBytes(es: seq<Entry>, low: nat, base: nat, size: nat, i: nat, a: nat)
    requires Aligned(es, low, base, size) && InUsableMemory(i, es, low, base, size) && a < PAGE
    ensures UsableByte(es, base, size, low + PAGE * i + a) && low + PAGE * i + a < WORD
  {
    var j :| 0 <= j < |es| && In(es[j], low + PAGE * i);
    assert Paged(es[j]);
    AlignedBelow(low + PAGE * i, es[j].base + es[j].length, a);
    AlignedBelow(low + PAGE * i, base, a);
    assert In(es[j], low + PAGE * i + a);
  }

  /** No page boundary separates two bytes of a page. */
  lemma AlignedBelow(x: nat, y: nat, a: nat)
    requires x % PAGE == 0 && y % PAGE == 0 && a < PAGE
    ensures x < y <==> x + a < y
  {
  }

  /** Which byte of a block an address is. */
  lemma BlockByte(low: nat, hhdm: nat, start: nat, pointer: nat, addr: nat)
    requires pointer == Pmm.Pointer(low, start, hhdm) && addr < WORD
    requires low + PAGE * start + (addr + hhdm - pointer) % WORD < WORD
    ensures addr == low + PAGE * start + (addr + hhdm - pointer) % WORD
  {
    var x, q := low + PAGE * start, (low + start * PAGE + hhdm) / WORD;
    var r := (addr + hhdm - pointer) / WORD;
    assert x + hhdm == WORD * q + pointer;
    assert addr + hhdm - pointer == WORD * r + (addr + hhdm - pointer) % WORD;
    assert x + (addr + hhdm - pointer) % WORD - addr == WORD * (q - r);
    OneWord(x + (addr + hhdm - pointer) % WORD, addr, q - r);
  }

  lemma OneWord(x: nat, y: nat, q: int)
    requires x < WORD && y < WORD && x - y == WORD * q
    ensures x == y
  {
  }

  /** An address in a block is a usable byte of one of the block's pages. */
  lemma BlockUsable(es: seq<Entry>, low: nat, base: nat, size: nat, hhdm: nat, b: Block, pointer: nat, addr: nat)
    requires Aligned(es, low, base, size) && pointer == Pmm.Pointer(low, b.start, hhdm)
    requires addr < WORD && (addr + hhdm - pointer) % WORD < 0x1000 * b.pages
    requires forall i: nat :: b.Has(i) ==> InUsableMemory(i, es, low, base, size)
    ensures UsableByte(es, base, size, addr) && addr >= low && b.Has((addr - low) / PAGE)
  {
    var a := (addr + hhdm - pointer) % WORD;
    var i := b.start + a / PAGE;
    assert b.Has(i);
    PageBytes(es, low, base, size, i, a % PAGE);
    assert low + PAGE * b.start + a == low + PAGE * i + a % PAGE;
    BlockByte(low, hhdm, b.start, pointer, addr);
  }

  /** The flags say which pages are usable. */
  ghost predicate FreeAreUsable(used: seq<bool>, es: seq<Entry>, low: nat, base: nat, size: nat)
  {
    forall i {:trigger used[i]} :: 0 <= i < |used| ==> (used[i] <==> !InUsableMemory(i, es, low, base, size))
  }

  lemma RunUsable(used: seq<bool>, es: seq<Entry>, low: nat, base: nat, size: nat, b: Block)
    requires FreeAreUsable(used, es, low, base, size) && FreeRun(used, b.start, b.pages)
    ensures forall i: nat :: b.Has(i) ==> InUsableMemory(i, es, low, base, size)
  {
    forall i: nat | b.Has(i) ensures InUsableMemory(i, es, low, base, size) {
      assert !used[i];
    }
  }

  /** What every run keeps, in terms of the memory map. */
  lemma LiveUsable(init: State, r: Run, es: seq<Entry>, low: nat, base: nat, size: nat)
    requires FreeAreUsable(init.used, es, low, base, size) && Safe(init, r) && Exact(init, r)
    ensures forall b, i: nat :: b in r.live && b.Has(i) ==> InUsableMemory(i, es, low, base, size)
    ensures forall i {:trigger r.st.used[i]} :: 0 <= i < |r.st.used| ==>
              (r.st.used[i] <==> !InUsableMemory(i, es, low, base, size) || Covered(r.live, i))
  {
    forall b, i: nat | b in r.live && b.Has(i) ensures InUsableMemory(i, es, low, base, size) {
      RunUsable(init.used, es, low, base, size, b);
    }
    forall i | 0 <= i < |r.st.used|
      ensures r.st.used[i] <==> !InUsableMemory(i, es, low, base, size) || Covered(r.live, i)
    {
      assert init.used[i] <==> !InUsableMemory(i, es, low, base, size);
    }
  }

  /** The bytes of a run of free pages. */
  lemma RunBytes(used: seq<bool>, es: seq<Entry>, low: nat, base: nat, size: nat, hhdm: nat, b: Block, pointer: nat)
    requires FreeAreUsable(used, es, low, base, size) && FreeRun(used, b.start, b.pages)
    requires Aligned(es, low, base, size) && pointer == Pmm.Pointer(low, b.start, hhdm)
    ensures forall addr: nat :: addr < WORD && (addr + hhdm - pointer) % WORD < 0x1000 * b.pages ==>
              UsableByte(es, base, size, addr)
  {
    RunUsable(used, es, low, base, size, b);
    forall addr: nat | addr < WORD && (addr + hhdm - pointer) % WORD < 0x1000 * b.pages
      ensures UsableByte(es, base, size, addr)
    {
      BlockUsable(es, low, base, size, hhdm, b, pointer, addr);
    }
  }

  /** From the address of a block on, its pages are usable bytes, and no other block has them. */
  ghost predicate BytesApart(es: seq<Entry>, base: nat, size: nat, hhdm: nat, held: map<Block, nat>)
  {
    forall b, addr: nat :: b in held && addr < WORD && (addr + hhdm - held[b]) % WORD < 0x1000 * b.pages ==>
      && UsableByte(es, base, size, addr)
      && forall c :: c in held && (addr + hhdm - held[c]) % WORD < 0x1000 * c.pages ==> b == c
  }

  lemma HeldBytes(es: seq<Entry>, low: nat, base: nat, size: nat, hhdm: nat, held: map<Block, nat>)
    requires Aligned(es, low, base, size) && Addressed(held, low, hhdm)
    requires forall b, i: nat :: b in held && b.Has(i) ==> InUsableMemory(i, es, low, base, size)
    requires forall b, c, i :: b in held && c in held && b.Has(i) && c.Has(i) ==> b == c
    ensures BytesApart(es, base, size, hhdm, held)
  {
    forall b, addr: nat | b in held && addr < WORD && (addr + hhdm - held[b]) % WORD < 0x1000 * b.pages
      ensures UsableByte(es, base, size, addr)
      ensures forall c :: c in held && (addr + hhdm - held[c]) % WORD < 0x1000 * c.pages ==> b == c
    {
      BlockUsable(es, low, base, size, hhdm, b, held[b], addr);
      forall c | c in held && (addr + hhdm - held[c]) % WORD < 0x1000 * c.pages ensures b == c {
        BlockUsable(es, low, base, size, hhdm, c, held[c], addr);
      }
    }
  }

  /** Some usable entry is long enough for the bitmap. */
  ghost predicate HasRoom(es: seq<Entry>, size: nat)
  {
    exists k: nat :: FirstSuitable(es, size, k)
  }

  /** The first such entry starts at base. */
  ghost predicate BitmapAt(es: seq<Entry>, size: nat, base: nat)
  {
    exists k: nat :: FirstSuitable(es, size, k) && es[k].base == base
  }

  /** Initialisation, said of the memory map that it is given. */
  method Boot(p: Pmm, entries: array<Entry>) returns (ok: bool, ghost e: nat, ghost base: nat)
    requires p.Untouched() && Bootable(entries[..], p.hhdmOffset)
    modifies p, entries
    ensures ok <==> HasRoom(old(entries[..]), p.size)
    ensures ok ==> BitmapAt(old(entries[..]), p.size, base)
    ensures ok ==> p.Valid() && fresh(p.rows) && Booted(p.View(), e) && Addressable(p)
    ensures ok ==> Aligned(old(entries[..]), p.lowestAddress, base, p.size)
    ensures ok ==> FreeAreUsable(p.used, old(entries[..]), p.lowestAddress, base, p.size)
  {
    ghost var es := entries[..];
    e, base := 0, 0;
    ok := p.Initialize(entries);
    if ok {
      ghost var k: nat :| FirstSuitable(es, p.size, k);
      base := es[k].base;
      e := if PageUsable(entries[..], entries.Length, p.lowestAddress, 0) then 1 else 0;
      FreeIsUsable(es, k, p.used);
      BootAligned(es, k);
    }
  }

  /** The first allocation after initialisation: unless it returns NULL, every byte from the
      returned address on is usable memory, and none is the bitmap's. */
  method BootAndAllocate(p: Pmm, entries: array<Entry>, n: nat) returns (ok: bool, pointer: nat, ghost base: nat)
    requires p.Untouched() && Bootable(entries[..], p.hhdmOffset)
    modifies p, entries
    ensures ok <==> HasRoom(old(entries[..]), p.size)
    ensures ok ==> BitmapAt(old(entries[..]), p.size, base)
    ensures pointer != 0 ==> ok && n > 0 && forall addr: nat ::
              addr < WORD && (addr + p.hhdmOffset - pointer) % WORD < 0x1000 * n ==>
                UsableByte(old(entries[..]), base, p.size, addr)
  {
    ghost var es := entries[..];
    ghost var e;
    pointer := 0;
    ok, e, base := Boot(p, entries);
    if ok {
      ghost var st := p.View();
      FenceContains(st, n);
      AllocVerdict(st, e, n);
      pointer := p.Kalloc(n);
      if pointer != 0 {
        ghost var b := Block(Kalloc(st, n).1.value, n);
        RunBytes(st.used, es, p.lowestAddress, base, p.size, p.hhdmOffset, b, pointer);
      }
    }
  }

  /** The allocator from start to end: initialised from a memory map, then any operations. Live
      blocks are disjoint, lie in usable entries of the map, and hold neither page 0 nor a page
      carved out for the bitmap: as pages, and as the bytes from the returned addresses on. */
  method BootAndCarryOut(p: Pmm, entries: array<Entry>, ops: seq<Op>)
      returns (ok: bool, held: map<Block, nat>, ghost base: nat)
    requires p.Untouched() && Bootable(entries[..], p.hhdmOffset)
    modifies p, entries
    ensures ok <==> HasRoom(old(entries[..]), p.size)
    ensures ok ==> BitmapAt(old(entries[..]), p.size, base)
    ensures forall b, c, i :: b in held && c in held && b.Has(i) && c.Has(i) ==> b == c
    ensures forall b, i: nat :: b in held && b.Has(i) ==>
              InUsableMemory(i, old(entries[..]), p.lowestAddress, base, p.size)
    ensures ok ==> p.Valid() && forall i {:trigger p.used[i]} :: 0 <= i < |p.used| ==>
              (p.used[i] <==>
               !InUsableMemory(i, old(entries[..]), p.lowestAddress, base, p.size) || Covered(held.Keys, i))
    ensures BytesApart(old(entries[..]), base, p.size, p.hhdmOffset, held)
  {
    ghost var es := entries[..];
    ghost var e;
    held := map[];
    ok, e, base := Boot(p, entries);
    if ok {
      ghost var init := p.View();
      held := CarryOut(p, ops, e);
      LiveUsable(init, Run(p.View(), held.Keys), es, p.lowestAddress, base, p.size);
      HeldBytes(es, p.lowestAddress, base, p.size, p.hhdmOffset, held);
    }
  }
}
