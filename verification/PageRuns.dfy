/** The page allocator's meaning: a string of used/free pages, first-fit search, and the
    state after any sequence of allocations and frees. */
module PageRuns {
  import opened BitOps
  import opened Wrappers

  /** Page k is used[k]; total and usedPages are the counters the allocator keeps. */
  datatype State = State(used: seq<bool>, total: nat, usedPages: nat)

  function SetRange(used: seq<bool>, i: nat, n: nat, v: bool): (r: seq<bool>)
    requires n == 0 || i + n <= |used|
    ensures |r| == |used|
    ensures forall k {:trigger r[k]} :: 0 <= k < |r| ==> r[k] == if i <= k < i + n then v else used[k]
    decreases n
  {
    if n == 0 then used else SetRange(used, i, n - 1, v)[i + n - 1 := v]
  }

  predicate FreeRun(used: seq<bool>, i: nat, n: nat)
  {
    i + n <= |used| && forall k {:trigger used[k]} :: i <= k < i + n ==> !used[k]
  }

  /** The first index from i on, below total, where n > 0 pages are free. */
  function Search(used: seq<bool>, i: nat, total: nat, n: nat): Option<nat>
    decreases total - i
  {
    if i >= total then None
    else if n > 0 && FreeRun(used, i, n) then Some(i)
    else Search(used, i + 1, total, n)
  }

  /** The search finds the least fitting index, and nothing exactly when there is none. */
  lemma {:induction false} SearchLeast(used: seq<bool>, i: nat, total: nat, n: nat)
    ensures match Search(used, i, total, n)
            case Some(j) =>
              n > 0 && i <= j < total && FreeRun(used, j, n) && forall k: nat :: i <= k < j ==> !FreeRun(used, k, n)
            case None => n == 0 || forall k: nat :: i <= k < total ==> !FreeRun(used, k, n)
    decreases total - i
  {
    if i >= total || (n > 0 && FreeRun(used, i, n)) {
    } else {
      SearchLeast(used, i + 1, total, n);
    }
  }

  /** An allocation: index 0 reads as NULL, so a run that starts there is none. */
  function Kalloc(st: State, n: nat): (State, Option<nat>)
  {
    if st.usedPages >= st.total then (st, None)
    else
      SearchLeast(st.used, 0, st.total, n);
      match Search(st.used, 0, st.total, n)
      case None => (st, None)
      case Some(i) =>
        if i == 0 then (st, None)
        else (State(SetRange(st.used, i, n, true), st.total, (st.usedPages + n) % WORD), Some(i))
  }

  function Kfree(st: State, i: nat, n: nat): State
    requires n == 0 || i + n <= |st.used|
  {
    State(SetRange(st.used, i, n, false), st.total, (st.usedPages - n) % WORD)
  }

  // Counting free pages.

  /** How many of the first n pages are free. */
  function ClearTo(used: seq<bool>, n: nat): (c: nat)
    requires n <= |used|
    ensures c <= n
  {
    if n == 0 then 0 else ClearTo(used, n - 1) + (if used[n - 1] then 0 else 1)
  }

  function Clear(used: seq<bool>): nat
  {
    ClearTo(used, |used|)
  }

  lemma {:induction false} ClearUpdate(used: seq<bool>, k: nat, n: nat)
    requires k < |used| && n <= |used|
    ensures ClearTo(used[k := !used[k]], n) == ClearTo(used, n) + (if k >= n then 0 else if used[k] then 1 else -1)
  {
    if n == 0 {
    } else {
      ClearUpdate(used, k, n - 1);
    }
  }

  /** Flipping n pages moves the count by n. */
  lemma {:induction false} ClearSetRange(used: seq<bool>, i: nat, n: nat, v: bool)
    requires (n == 0 || i + n <= |used|) && forall k :: i <= k < i + n ==> used[k] != v
    ensures var c := Clear(SetRange(used, i, n, v)); if v then c + n == Clear(used) else c == Clear(used) + n
    decreases n
  {
    if n == 0 {
    } else {
      ClearSetRange(used, i, n - 1, v);
      ClearUpdate(SetRange(used, i, n - 1, v), i + n - 1, |used|);
    }
  }

  lemma {:induction false} SomeClear(used: seq<bool>, k: nat, n: nat)
    requires k < n <= |used| && !used[k]
    ensures ClearTo(used, n) > 0
  {
    if k == n - 1 {
    } else {
      SomeClear(used, k, n - 1);
    }
  }

  /** No more pages are free than lie below span and outside a gap of m pages at c. */
  lemma {:induction false} ClearBound(used: seq<bool>, n: nat, c: nat, m: nat, span: nat)
    requires n <= |used| && c + m <= span
    requires forall k {:trigger used[k]} :: 0 <= k < |used| && !used[k] ==> k < span && !(c <= k < c + m)
    ensures ClearTo(used, n) <= if n <= c then n else if n <= c + m then c else if n <= span then n - m else span - m
  {
    if n == 0 {
    } else {
      ClearBound(used, n - 1, c, m, span);
    }
  }

  lemma {:induction false} ClearMonotone(a: seq<bool>, b: seq<bool>, n: nat)
    requires n <= |a| == |b| && forall k {:trigger a[k]} :: 0 <= k < |a| && a[k] ==> b[k]
    ensures ClearTo(b, n) <= ClearTo(a, n)
  {
    if n == 0 {
    } else {
      ClearMonotone(a, b, n - 1);
    }
  }

  // What the rest of the kernel starts from.

  /** Page 0 is reserved, and a used page stops every look-ahead of a search below total. */
  ghost predicate Fenced(st: State)
  {
    |st.used| > 0 && st.used[0] && Stopped(st.used, st.total)
  }

  ghost predicate Stopped(used: seq<bool>, total: nat)
  {
    exists s {:trigger used[s]} :: total - 1 <= s < |used| && 0 <= s && used[s]
  }

  /** Looking ahead from page i for a long enough run examines bit k: all bits before it are clear. */
  ghost predicate LooksAt(used: seq<bool>, i: nat, k: nat)
  {
    i <= k && forall j {:trigger used[j]} :: i <= j < k && j < |used| ==> !used[j]
  }

  /** The fence is exactly what keeps every look-ahead inside the map. */
  lemma LookAheadStays(used: seq<bool>, total: nat)
    requires |used| > 0 && used[0] && total <= |used|
    ensures Stopped(used, total) <==> forall i: nat, k: nat :: i < total && LooksAt(used, i, k) ==> k < |used|
  {
    if total > 0 && !Stopped(used, total) {
      assert LooksAt(used, total - 1, |used|);
    }
  }

  /** The search for n pages examines no bit behind the map: neither the page it tries nor
      those it looks ahead at, from any page that no fitting run precedes. */
  ghost predicate Contained(used: seq<bool>, total: nat, n: nat)
  {
    forall i: nat, k: nat {:trigger LooksAt(used, i, k)} ::
      i < total && NoneBefore(used, i, n) && (k == i || k < i + n) && LooksAt(used, i, k) ==> k < |used|
  }

  ghost predicate NoneBefore(used: seq<bool>, i: nat, n: nat)
  {
    forall j: nat :: j < i ==> n == 0 || !FreeRun(used, j, n)
  }

  /** A fence contains every search. */
  lemma FenceContains(st: State, n: nat)
    requires Fenced(st)
    ensures Contained(st.used, st.total, n)
  {
    LookAheadStays(st.used, st.total);
  }

  /** Without one, every search for as many pages as there are bits, or more, leaves the map. */
  lemma UnfencedLeaves(used: seq<bool>, total: nat, n: nat)
    requires |used| > 0 && used[0] && !Stopped(used, total) && n >= |used|
    ensures !Contained(used, total, n)
  {
    assert total == 0 ==> Stopped(used, total);
    var i: nat := total - 1;
    assert LooksAt(used, i, if i < |used| then |used| else i);
  }

  /** With page 0 reserved, the fence is exactly what keeps every search inside the map. */
  lemma FenceExactly(used: seq<bool>, total: nat)
    requires |used| > 0 && used[0]
    ensures Stopped(used, total) <==> forall n: nat :: Contained(used, total, n)
  {
    if Stopped(used, total) {
      forall n: nat ensures Contained(used, total, n) {
        FenceContains(State(used, total, 0), n);
      }
    } else {
      UnfencedLeaves(used, total, |used|);
    }
  }

  /** Free and used pages add up, with e pages reserved that are not counted as used. */
  ghost predicate Conserved(st: State, e: nat)
  {
    st.total < WORD && Clear(st.used) + e == st.total - st.usedPages
  }

  ghost predicate Booted(st: State, e: nat)
  {
    Fenced(st) && Conserved(st, e)
  }

  // Runs: any interleaving of allocations and frees of live blocks.

  datatype Block = Block(start: nat, pages: nat)
  {
    predicate Has(k: int) {
      start <= k < start + pages
    }
  }

  datatype Op = Alloc(pages: nat) | Free(block: Block)

  datatype Run = Run(st: State, live: set<Block>)

  ghost predicate Inside(r: Run)
  {
    forall b :: b in r.live ==> b.start + b.pages <= |r.st.used|
  }

  /** One call. Freeing anything but a live block is no call of this kind and changes nothing. */
  ghost function Step(r: Run, op: Op): (r': Run)
    requires Inside(r)
    ensures Inside(r')
  {
    match op
    case Alloc(n) =>
      var (st, found) := Kalloc(r.st, n);
      SearchLeast(r.st.used, 0, r.st.total, n);
      Run(st, if found.Some? then r.live + {Block(found.value, n)} else r.live)
    case Free(b) =>
      if b in r.live then Run(Kfree(r.st, b.start, b.pages), r.live - {b}) else r
  }

  ghost function Exec(r: Run, ops: seq<Op>): (r': Run)
    requires Inside(r)
    ensures Inside(r')
    decreases |ops|
  {
    if ops == [] then r else Exec(Step(r, ops[0]), ops[1..])
  }

  ghost predicate Covered(live: set<Block>, k: nat)
  {
    exists b :: b in live && b.Has(k)
  }

  /** Live blocks are non-empty, pairwise disjoint, and lie in pages that were free at the start. */
  ghost predicate Safe(init: State, r: Run)
  {
    && (forall b :: b in r.live ==> b.pages > 0 && FreeRun(init.used, b.start, b.pages))
    && (forall a, b, k :: a in r.live && b in r.live && a.Has(k) && b.Has(k) ==> a == b)
  }

  /** A page is used exactly when it was so at the start or a live block has it, and the
      counter has moved by as much as the number of free pages. */
  ghost predicate Exact(init: State, r: Run)
  {
    && |r.st.used| == |init.used| && r.st.total == init.total
    && (forall k {:trigger r.st.used[k]} :: 0 <= k < |init.used| ==>
          (r.st.used[k] <==> init.used[k] || Covered(r.live, k)))
    && Clear(r.st.used) + r.st.usedPages == Clear(init.used) + init.usedPages
  }

  /** Free pages were free at the start and belong to no live block. */
  lemma FreeApart(init: State, r: Run, b: Block)
    requires Safe(init, r) && Exact(init, r) && FreeRun(r.st.used, b.start, b.pages)
    ensures FreeRun(init.used, b.start, b.pages)
    ensures forall a, k :: a in r.live && a.Has(k) ==> !b.Has(k)
  {
    forall a, k | a in r.live && a.Has(k) ensures !b.Has(k) {
      assert FreeRun(init.used, a.start, a.pages);
      assert Covered(r.live, k) && r.st.used[k];
    }
    forall k | b.start <= k < b.start + b.pages ensures !init.used[k] {
      assert !r.st.used[k];
    }
  }

  lemma CoveredMore(live: set<Block>, b: Block, k: nat)
    ensures Covered(live + {b}, k) <==> Covered(live, k) || b.Has(k)
  {
    if b.Has(k) {
      assert b in live + {b};
    } else if Covered(live, k) {
      var a :| a in live && a.Has(k);
      assert a in live + {b};
    }
  }

  lemma AllocKeeps(init: State, e: nat, r: Run, n: nat)
    requires Booted(init, e) && Inside(r) && Safe(init, r) && Exact(init, r)
    ensures Safe(init, Step(r, Alloc(n))) && Exact(init, Step(r, Alloc(n)))
  {
    SearchLeast(r.st.used, 0, r.st.total, n);
    var found := Kalloc(r.st, n).1;
    if found.Some? {
      var b := Block(found.value, n);
      FreeApart(init, r, b);
      ClearSetRange(r.st.used, b.start, n, true);
      forall k | 0 <= k < |init.used| ensures Covered(r.live + {b}, k) <==> Covered(r.live, k) || b.Has(k) {
        CoveredMore(r.live, b, k);
      }
    }
  }

  lemma FreeKeeps(init: State, e: nat, r: Run, b: Block)
    requires Booted(init, e) && Inside(r) && Safe(init, r) && Exact(init, r) && b in r.live
    ensures Safe(init, Step(r, Free(b))) && Exact(init, Step(r, Free(b)))
  {
    var r' := Step(r, Free(b));
    forall k | b.start <= k < b.start + b.pages ensures r.st.used[k] {
      assert b.Has(k) && Covered(r.live, k);
    }
    ClearSetRange(r.st.used, b.start, b.pages, false);
    ClearMonotone(init.used, r'.st.used, |init.used|);
    forall k | 0 <= k < |init.used| ensures r'.st.used[k] <==> init.used[k] || Covered(r'.live, k) {
      if b.Has(k) {
        assert !init.used[k];
      } else if Covered(r.live, k) {
        var a :| a in r.live && a.Has(k);
        assert a in r'.live;
      }
    }
  }

  /** Safety and exactness hold after every run from the initialised state. */
  lemma {:induction false} RunSafe(init: State, e: nat, r: Run, ops: seq<Op>)
    requires Booted(init, e) && Inside(r) && Safe(init, r) && Exact(init, r)
    ensures Safe(init, Exec(r, ops)) && Exact(init, Exec(r, ops))
    decreases |ops|
  {
    if ops == [] {
    } else {
      match ops[0] {
        case Alloc(n) => AllocKeeps(init, e, r, n);
        case Free(b) => if b in r.live { FreeKeeps(init, e, r, b); }
      }
      RunSafe(init, e, Step(r, ops[0]), ops[1..]);
    }
  }

  /** Conservation and the fence hold after every run too, no live block holds page 0, and
      once every block has been freed the allocator is back where it started. */
  lemma AllRuns(init: State, e: nat, ops: seq<Op>)
    requires Booted(init, e)
    ensures var r := Exec(Run(init, {}), ops);
            && Safe(init, r) && Exact(init, r) && Booted(r.st, e)
            && (forall b :: b in r.live ==> b.start > 0)
            && (r.live == {} ==> r.st == init)
  {
    var start := Run(init, {});
    RunSafe(init, e, start, ops);
    var r := Exec(start, ops);
    var s :| init.total - 1 <= s < |init.used| && 0 <= s && init.used[s];
    assert r.st.used[0] && r.st.used[s];
    forall b | b in r.live ensures b.start > 0 {
      assert FreeRun(init.used, b.start, b.pages);
    }
    if r.live == {} {
      assert r.st.used == init.used;
    }
  }

  /** An allocation fails exactly when no n > 0 neighbouring pages are free from an index
      below total on; otherwise it takes the least such index. */
  lemma AllocVerdict(st: State, e: nat, n: nat)
    requires Booted(st, e)
    ensures match Kalloc(st, n).1
            case None => Kalloc(st, n).0 == st && (n == 0 || forall k: nat :: k < st.total ==> !FreeRun(st.used, k, n))
            case Some(i) =>
              n > 0 && 0 < i < st.total && FreeRun(st.used, i, n) && forall k: nat :: k < i ==> !FreeRun(st.used, k, n)
    ensures st.usedPages >= st.total ==> forall k :: 0 <= k < |st.used| ==> st.used[k]
  {
    SearchLeast(st.used, 0, st.total, n);
    if st.usedPages >= st.total {
      forall k | 0 <= k < |st.used| ensures st.used[k] {
        if !st.used[k] {
          SomeClear(st.used, k, |st.used|);
        }
      }
      if n > 0 {
        forall k: nat | k < st.total ensures !FreeRun(st.used, k, n) {
          assert st.used[k];
        }
      }
    }
  }

  /** A single page is refused exactly when every free page lies at or behind total, which
      the carving of the bitmap has lowered while the pages there still have bits. */
  lemma SinglePage(st: State, e: nat)
    requires Booted(st, e)
    ensures Kalloc(st, 1).1 == None <==> forall k :: 0 <= k < |st.used| && !st.used[k] ==> k >= st.total
  {
    AllocVerdict(st, e, 1);
    match Kalloc(st, 1).1
    case None =>
      forall k | 0 <= k < |st.used| && !st.used[k] ensures k >= st.total {
        assert FreeRun(st.used, k, 1);
      }
    case Some(i) =>
      assert !st.used[i];
  }

  /** For example, one used page of two counted ones, and a free page behind those: no page
      is given out. */
  lemma FreePageRefused()
    ensures var st := State([true, true, false, true], 2, 1);
            Booted(st, 0) && !st.used[2] && st.usedPages < st.total && Kalloc(st, 1) == (st, None)
  {
    var used := [true, true, false, true];
    assert used[1] && Stopped(used, 2);
    assert ClearTo(used, 1) == 0 && ClearTo(used, 2) == 0 && ClearTo(used, 3) == 1 && ClearTo(used, 4) == 1;
    SearchLeast(used, 0, 2, 1);
  }

  /** Freeing what was just allocated restores pages and counter. */
  lemma AllocFree(st: State, e: nat, n: nat)
    requires Booted(st, e) && Kalloc(st, n).1.Some?
    ensures Kalloc(st, n).1.value + n <= |Kalloc(st, n).0.used|
    ensures Kfree(Kalloc(st, n).0, Kalloc(st, n).1.value, n) == st
  {
    SearchLeast(st.used, 0, st.total, n);
    var i := Kalloc(st, n).1.value;
    ClearSetRange(st.used, i, n, true);
    assert SetRange(SetRange(st.used, i, n, true), i, n, false) == st.used;
  }
}
