/**
 The early placement allocator of `kernel/arch/i386/mem.c`: a bump pointer that never gives memory back.
 */
module EarlyPlacement {
  import opened Words
  import opened Layout

  datatype Request = Request(size: Word, critical: bool, pageAlign: bool)

  /** Where the next region goes: rounded up to a page or to 8 bytes. */
  function Place(cur: Word, pageAlign: bool): nat {
    if pageAlign then
      if cur % PAGE_SIZE != 0 then cur - cur % PAGE_SIZE + PAGE_SIZE else cur
    else if cur % 8 != 0 then cur + (8 - cur % 8) else cur
  }

  /** The guard, in 32-bit arithmetic. */
  predicate Accepts(start: Word, cur: Word, r: Request) {
    r.critical && !(Wrap(r.size + cur + PAGE_SIZE) > Wrap(start + EARLY_HEAP_MAXSIZE))
  }

  /** The pointer after a request. */
  function Advance(start: Word, cur: Word, r: Request): Word {
    if Accepts(start, cur, r) then Wrap(Wrap(Place(cur, r.pageAlign)) + r.size) else cur
  }

  /** The request for a page directory or a page table: `kmalloc_ap(PAGE_SIZE, ..., KALLOC_CRITICAL)`. */
  const PAGE_REQUEST: Request := Request(PAGE_SIZE, true, true)

  /** Nothing in the guard wraps. */
  predicate NoOverflow(cur: Word, r: Request) {
    r.size + cur + PAGE_SIZE < TWO_32
  }

  class EarlyHeap {
    const kernel_heap_start: Word
    var kernel_heap_curpos: Word

    constructor (start: Word)
      ensures kernel_heap_start == start == kernel_heap_curpos
    {
      kernel_heap_start, kernel_heap_curpos := start, start;
    }

    /** i386_mem_kmalloc_real; physical and virtual addresses coincide this early. */
    method Kmalloc(r: Request) returns (addr: Word)
      modifies this`kernel_heap_curpos
      ensures kernel_heap_curpos == Advance(kernel_heap_start, old(kernel_heap_curpos), r)
      ensures addr == if Accepts(kernel_heap_start, old(kernel_heap_curpos), r)
                      then Wrap(Place(old(kernel_heap_curpos), r.pageAlign)) else 0
    {
      if !r.critical {
        return 0;
      }
      if Wrap(r.size + kernel_heap_curpos + PAGE_SIZE) > Wrap(kernel_heap_start + EARLY_HEAP_MAXSIZE) {
        return 0;
      }
      if r.pageAlign && kernel_heap_curpos % PAGE_SIZE != 0 {
        AndHigh32(kernel_heap_curpos);
        assert 0x1_0000_0000 - PAGE_SIZE == 0xFFFF_F000;
        kernel_heap_curpos := And(kernel_heap_curpos, 0x1_0000_0000 - PAGE_SIZE);
        kernel_heap_curpos := Wrap(kernel_heap_curpos + PAGE_SIZE);
      } else if !r.pageAlign && kernel_heap_curpos % 8 != 0 {
        kernel_heap_curpos := Wrap(kernel_heap_curpos + (8 - kernel_heap_curpos % 8));
      }
      addr := kernel_heap_curpos;
      kernel_heap_curpos := Wrap(kernel_heap_curpos + r.size);
    }
  }

  /** One accepted request: aligned, at or above the old pointer, and inside the heap thanks to the page of slack. */
  lemma AcceptedRegion(start: Word, cur: Word, r: Request)
    requires start <= cur && start + EARLY_HEAP_MAXSIZE < TWO_32
    requires Accepts(start, cur, r) && NoOverflow(cur, r)
    ensures var addr := Place(cur, r.pageAlign);
            && cur <= addr < cur + (if r.pageAlign then 4096 else 8) && addr % (if r.pageAlign then 4096 else 8) == 0
            && Advance(start, cur, r) == addr + r.size <= start + EARLY_HEAP_MAXSIZE
  {
    PlaceBounds(cur, r.pageAlign);
  }

  /** The region starts at the next multiple of 4096 or 8. */
  lemma PlaceBounds(cur: Word, pageAlign: bool)
    ensures var addr, unit := Place(cur, pageAlign), if pageAlign then 4096 else 8;
            cur <= addr < cur + unit && addr % unit == 0
  {
    if pageAlign {
      NextPage(cur);
    } else {
      NextEight(cur);
    }
  }

  lemma NextPage(x: nat)
    ensures (x - x % 4096 + 4096) % 4096 == 0
  {
    assert x - x % 4096 + 4096 == (x / 4096 + 1) * 4096;
  }

  lemma NextEight(x: nat)
    ensures (x + (8 - x % 8)) % 8 == 0
  {
    assert x + (8 - x % 8) == (x / 8 + 1) * 8;
  }

  /** Where nothing wraps, a critical request is accepted exactly when a page of slack is left behind it. */
  lemma AcceptedIff(start: Word, cur: Word, r: Request)
    requires start + EARLY_HEAP_MAXSIZE < TWO_32 && NoOverflow(cur, r)
    ensures Accepts(start, cur, r) <==> r.critical && cur + r.size + 4096 <= start + EARLY_HEAP_MAXSIZE
    ensures !Accepts(start, cur, r) ==> Advance(start, cur, r) == cur
  {
  }

  /** The guard for one page: with the page of slack, two pages must be left. */
  lemma PageAcceptedIff(start: Word, cur: Word)
    requires start <= cur <= start + EARLY_HEAP_MAXSIZE <= KVIRT_RESERVED
    ensures Accepts(start, cur, PAGE_REQUEST) <==> cur + 2 * PAGE_SIZE <= start + EARLY_HEAP_MAXSIZE
    ensures NoOverflow(cur, PAGE_REQUEST)
  {
  }

  /**
   A region that the guard lets through stays inside the heap exactly when the guard's sum does not wrap: a request
   near 2^32 bytes passes the guard and runs past the end.
   */
  lemma FitsIffNoOverflow(start: Word, cur: Word, r: Request)
    requires start <= cur <= start + EARLY_HEAP_MAXSIZE < TWO_32 - PAGE_SIZE
    requires Accepts(start, cur, r)
    ensures Place(cur, r.pageAlign) + r.size <= start + EARLY_HEAP_MAXSIZE <==> NoOverflow(cur, r)
  {
  }

  lemma OverflowWitness()
    ensures var r := Request(0xFFFF_0000, true, false);
            Accepts(0x12_0000, 0x12_0000, r) && !NoOverflow(0x12_0000, r)
  {
  }

  /**
   Over every sequence of requests that do not overflow, the regions handed out are increasing, disjoint, aligned and
   inside the heap. `cur[k]` is the pointer before request `k`.
   */
  lemma RegionsNeverOverlap(start: Word, cur: seq<Word>, rs: seq<Request>)
    requires |cur| == |rs| + 1 && cur[0] == start && start + EARLY_HEAP_MAXSIZE < TWO_32
    requires forall k :: 0 <= k < |rs| ==> NoOverflow(cur[k], rs[k]) && cur[k + 1] == Advance(start, cur[k], rs[k])
    ensures forall k :: 0 <= k < |rs| && Accepts(start, cur[k], rs[k]) ==>
              Place(cur[k], rs[k].pageAlign) + rs[k].size <= start + EARLY_HEAP_MAXSIZE
    ensures forall j, k :: 0 <= j < k < |rs| && Accepts(start, cur[j], rs[j]) && Accepts(start, cur[k], rs[k]) ==>
              Place(cur[j], rs[j].pageAlign) + rs[j].size <= Place(cur[k], rs[k].pageAlign)
  {
    PointerIsMonotone(start, cur, rs);
    forall k | 0 <= k < |rs| && Accepts(start, cur[k], rs[k])
      ensures Place(cur[k], rs[k].pageAlign) + rs[k].size <= start + EARLY_HEAP_MAXSIZE
    {
      AcceptedRegion(start, cur[k], rs[k]);
    }
    forall j, k | 0 <= j < k < |rs| && Accepts(start, cur[j], rs[j]) && Accepts(start, cur[k], rs[k])
      ensures Place(cur[j], rs[j].pageAlign) + rs[j].size <= Place(cur[k], rs[k].pageAlign)
    {
      AcceptedRegion(start, cur[j], rs[j]);
      AcceptedRegion(start, cur[k], rs[k]);
      assert cur[j + 1] <= cur[k];
    }
  }

  lemma PointerIsMonotone(start: Word, cur: seq<Word>, rs: seq<Request>)
    requires |cur| == |rs| + 1 && cur[0] == start && start + EARLY_HEAP_MAXSIZE < TWO_32
    requires forall k :: 0 <= k < |rs| ==> NoOverflow(cur[k], rs[k]) && cur[k + 1] == Advance(start, cur[k], rs[k])
    ensures forall j, k :: 0 <= j <= k < |cur| ==> start <= cur[j] <= cur[k]
  {
    for n := 0 to |rs|
      invariant forall j, k :: 0 <= j <= k <= n ==> start <= cur[j] <= cur[k]
    {
      if Accepts(start, cur[n], rs[n]) {
        AcceptedRegion(start, cur[n], rs[n]);
      }
    }
  }
}
