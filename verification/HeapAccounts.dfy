/**
 What calls of kheap_malloc do to reservations, mapped pages and frames: nothing is taken that no block or page table
 accounts for, except for the address space that a failed expansion does not give back.
 */
module HeapAccounts {
  import opened Words
  import opened Guards
  import opened Runs
  import opened Layout
  import opened AddressSpace
  import opened PageTables
  import opened HeapModel
  import opened HeapRuns
  import opened Sizing
  import opened KernelPages
  import opened HeapSearches

  /** Pages that blocks occupy. */
  ghost function PagesOf(h: seq<Block>): nat {
    if h == [] then 0 else h[0].size / PAGE_SIZE + PagesOf(h[1..])
  }

  /** `n` pages have been reserved and mapped; all frames taken belong to new pages and tables. */
  ghost predicate PagesAdded(e: Env, e': Env, n: int) {
    Clear(e'.pages) == Clear(e.pages) - n && Mapped(e, e', n)
  }

  /** The same without the reservations. */
  ghost predicate Mapped(e: Env, e': Env, n: int) {
    && |e'.flat| == |e.flat| + n && (forall p :: p in e.flat ==> p in e'.flat && e'.flat[p] == e.flat[p])
    && TablesGrow(e.tables, e'.tables) && FramesTaken(e, e')
  }

  lemma MappedTwice(e: Env, e1: Env, e2: Env, n: int, n': int)
    requires Mapped(e, e1, n) && Mapped(e1, e2, n')
    ensures Mapped(e, e2, n + n')
  {
    forall f | 0 <= f < |e.bits|
      ensures NewlyOwned(e, e2, f) <==> NewlyOwned(e, e1, f) || NewlyOwned(e1, e2, f)
    {
    }
  }

  /** Mapping a range that was not mapped adds its pages. */
  lemma RangeCount(flat: map<nat, Word>, flat': map<nat, Word>, first: nat, n: nat)
    requires RangeMapped(flat, flat', first, n) && forall p :: first <= p < first + n ==> p !in flat
    ensures |flat'| == |flat| + n
  {
    RangeMeans(flat, flat', first, n);
    var range := flat'.Keys - flat.Keys;
    forall p: nat
      ensures p in range <==> first <= p < first + n
    {
      assert p in range <==> p in flat' && p !in flat;
    }
    RangeSize(first, n, range);
    assert flat'.Keys == flat.Keys + range;
  }

  lemma {:induction false} RangeSize(first: nat, n: nat, range: set<nat>)
    requires forall p: nat :: p in range <==> first <= p < first + n
    ensures |range| == n
  {
    if n == 0 {
      assert range == {};
    } else {
      RangeSize(first, n - 1, range - {first + n - 1});
    }
  }

  lemma ExpandedAccounts(e: Env, h: seq<Block>, size: Word, section: Word, e': Env, h': seq<Block>)
    requires Expanded(e, h, size, section, e', h')
    ensures h' != [] && h'[1..] == h && PagesAdded(e, e', h'[0].size / PAGE_SIZE)
  {
    var pages: nat, at: nat :|
      Asked(e, size, pages, Some(at)) && Enough(e, pages, Some(at)) && Grows(e, h, section, pages, at, e', h');
    ProvidedMeans(e, pages, at, e');
    FreshPages(h'[0], at * PAGE_SIZE, pages, section);
    RangeMeans(e.flat, e'.flat, at, pages);
    RangeCount(e.flat, e'.flat, at, pages);
    RunCount(e.pages, pages, at);
  }

  lemma FreshPages(b: Block, start: nat, pages: nat, section: Word)
    requires FreshAt(b, start, pages, section)
    ensures b.size / PAGE_SIZE == pages
  {
    assert Open(SIZING);
  }

  lemma {:induction false} RunCount(v: seq<bool>, n: nat, first: nat)
    requires FoundRun(v, n, Some(first))
    ensures Clear(Fill(v, first, first + n, true)) == Clear(v) - n
  {
    ClearFill(v, first, first + n, true);
  }

  /** However often the heap is expanded, what is taken is what the new blocks occupy. */
  lemma {:induction false} ReachedAccounts(e0: Env, h: seq<Block>, e: Env, mid: seq<Block>, c: Demand)
    requires Reached(e0, h, e, mid, c)
    ensures PagesAdded(e0, e, PagesOf(mid) - PagesOf(h))
    decreases |mid|
  {
    if mid == h && e == e0 {
    } else {
      var e1 := ReachedFrom(e0, h, e, mid, c);
      var rest := mid[1..];
      ReachedAccounts(e0, h, e1, rest, c);
      ExpandedAccounts(e1, rest, c.Wanted(), c.section, e, mid);
      MappedTwice(e0, e1, e, PagesOf(rest) - PagesOf(h), mid[0].size / PAGE_SIZE);
    }
  }

  /** Pages of address space that a refused expansion loses: what asa_free does not clear of the run. */
  ghost function Lost(pages: nat, at: Option<nat>): nat {
    match at
    case None => 0
    case Some(first) => if first < pages then first else pages
  }

  /** A refused expansion leaves no page mapped and takes frames for tables only, but address space is lost. */
  lemma RolledBackAccounts(e: Env, pages: nat, at: Option<nat>, e': Env)
    requires FoundRun(e.pages, pages, at) && RolledBack(e, pages, at, e')
    ensures Mapped(e, e', 0) && Clear(e'.pages) == Clear(e.pages) - Lost(pages, at)
  {
    match at
    case None =>
      RolledBackMeans(e, pages, 0, e');
    case Some(first) =>
      RolledBackMeans(e, pages, first, e');
      ReleaseCounts(e.pages, pages, first);
  }

  lemma {:induction false} ReleaseCounts(v: seq<bool>, n: nat, first: nat)
    requires FoundRun(v, n, Some(first))
    ensures Clear(Released(Fill(v, first, first + n, true), first, n)) == Clear(v) - if first < n then first else n
  {
    var w := Fill(v, first, first + n, true);
    RunCount(v, n, first);
    if first < n {
      ClearFill(w, first, n, false);
    } else {
      assert Released(w, first, n) == w;
    }
  }

  /**
   A whole call of kheap_malloc, from `e0` to `e'`: whether it succeeds or fails, exactly the pages of the blocks it
   added have become mapped, every frame it took holds one of them or a page table, and address space is lost only by a
   refused expansion.
   */
  lemma CallAccounts(e0: Env, h: seq<Block>, e: Env, mid: seq<Block>, after: seq<Block>, ok: bool,
                     op: Op, out: nat, c: Demand, e': Env) returns (lost: nat)
    requires if ok then Success(e0, h, e, mid, after, op, out, c) && e' == e
             else mid == after && Failure(e0, h, e, mid, c) && GaveUp(e, c.Wanted(), e')
    ensures Mapped(e0, e', PagesOf(after) - PagesOf(h))
    ensures Clear(e'.pages) == Clear(e0.pages) - (PagesOf(after) - PagesOf(h)) - lost
    ensures ok ==> lost == 0
    ensures !ok ==> exists pages: nat, at :: Asked(e, c.Wanted(), pages, at) && lost == Lost(pages, at)
  {
    if ok {
      SuccessParts(e0, h, e, mid, after, op, out, c);
      ReachedAccounts(e0, h, e, mid, c);
      StepPages(mid, op, after);
      lost := 0;
    } else {
      FailureMeans(e0, h, e, mid, c);
      ReachedAccounts(e0, h, e, mid, c);
      var pages: nat, at: Option<nat> :|
        Asked(e, c.Wanted(), pages, at) && !Enough(e, pages, at) && RolledBack(e, pages, at, e');
      RolledBackAccounts(e, pages, at, e');
      MappedTwice(e0, e, e', PagesOf(mid) - PagesOf(h), 0);
      lost := Lost(pages, at);
    }
  }

  /** Allocating inside a block adds no pages. */
  lemma {:induction false} StepPages(h: seq<Block>, op: Op, h': seq<Block>)
    requires HeapStep(h, op, h') && op.Malloc?
    ensures PagesOf(h') == PagesOf(h)
  {
    SamePages(h, h');
  }

  lemma {:induction false} SamePages(h: seq<Block>, h': seq<Block>)
    requires |h'| == |h| && forall i :: 0 <= i < |h| ==> h'[i].size == h[i].size
    ensures PagesOf(h') == PagesOf(h)
  {
    if h != [] {
      SamePages(h[1..], h'[1..]);
    }
  }
}
