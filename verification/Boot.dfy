/**
 The order of initialisation in `kernel/kernel/kernel.c`: address space allocator, paging, heap. It establishes what every
 later operation keeps.
 */
module Boot {
  import opened Words
  import opened Runs
  import opened Layout
  import opened Bitsets
  import opened AddressSpace
  import opened FrameAllocator
  import opened EarlyPlacement
  import opened Processor
  import opened Paging
  import opened HeapModel
  import opened HeapRuns
  import opened Sizing
  import opened KernelPages
  import opened HeapSearches
  import opened KernelHeap

  /** Bytes of the address space allocator's bit vector. */
  const ASA_BYTES: nat := 0x8000

  /** Where the early heap ends. */
  function HeapEnd(start: nat): nat {
    start + EARLY_HEAP_MAXSIZE
  }

  /**
   kernel_early, from asa_init on. Memory, frame bits and the bounds of the early heap are what the boot loader and
   i386_mem_init left. There must be room for the bit vector, the page directory and one page table.
   */
  method KernelEarly(cpu: Cpu, frames: Frames, early: EarlyHeap) returns (heap: Kheap)
    requires !cpu.paging && cpu.tlb == map[] && frames.Valid() && RESERVED_PAGES <= |cpu.mem| == frames.bits.length
    requires 0 < early.kernel_heap_start <= early.kernel_heap_curpos && early.kernel_heap_start % PAGE_SIZE == 0
    requires HeapEnd(early.kernel_heap_start) + PAGE_SIZE < KVIRT_RESERVED
    requires Place(early.kernel_heap_curpos, false) + ASA_BYTES < KVIRT_RESERVED
    requires Place(Place(early.kernel_heap_curpos, false) + ASA_BYTES, true) + 3 * PAGE_SIZE
             <= HeapEnd(early.kernel_heap_start)
    modifies cpu, early, frames.bits.start
    ensures heap.Valid() && heap.model == [] && heap.total_free_sections == 0
    ensures heap.default_section_size == 16 && heap.min_block_size == 0x10_0000 && Booted(heap.Environment())
    ensures heap.mmu.cpu == cpu && heap.mmu.frames == frames
    ensures forall i :: 0 <= i < KERNEL_PAGES ==> heap.asa.View()[i] == (i < RESERVED_PAGES)
    ensures heap.mmu.View().window < RESERVED_PAGES
    ensures heap.mmu.View().bits == Fill(old(frames.View()), 0, RESERVED_PAGES, true) && heap.mmu.View().Tables() == map[]
  {
    var size := DivRoundUp(KVIRT_MAX / PAGE_SIZE, 32) * 4;
    assert size == ASA_BYTES;
    var storage := BitsetStorage(early, size);
    var asa := new Asa.Init(storage);
    var mmu := new Mmu(cpu, frames, early);
    var up := mmu.PagingInit();
    heap := new Kheap(asa, mmu, SECTION_SIZE_DEFAULT, MIN_BLOCK_SIZE_DEFAULT);
  }

  /** asa_init's request to the early heap. */
  method BitsetStorage(early: EarlyHeap, size: Word) returns (storage: array<Word>)
    requires size == ASA_BYTES && 0 < early.kernel_heap_start <= early.kernel_heap_curpos
    requires HeapEnd(early.kernel_heap_start) + PAGE_SIZE < KVIRT_RESERVED
    requires Place(early.kernel_heap_curpos, false) + ASA_BYTES + PAGE_SIZE <= HeapEnd(early.kernel_heap_start)
    modifies early
    ensures fresh(storage) && storage.Length == size / 4
    ensures early.kernel_heap_curpos == Place(old(early.kernel_heap_curpos), false) + size
  {
    AcceptedRegion(early.kernel_heap_start, early.kernel_heap_curpos, Request(size, true, false));
    var bitset_start := early.Kmalloc(Request(size, true, false));
    assert bitset_start != 0;
    storage := new Word[size / 4];
  }

  /**
   i386_paging_init asserts `<=` where `<` is needed. The address space allocator protects the window page exactly when
   the inequality is strict; with equality, the first reservation, whatever its size, starts at the window page.
   */
  lemma WindowIsProtectedIff(start: Word, v: seq<bool>)
    requires start % PAGE_SIZE == 0 && HeapEnd(start) + PAGE_SIZE <= KVIRT_RESERVED
    requires |v| == KERNEL_PAGES && forall i :: 0 <= i < KERNEL_PAGES ==> v[i] == (i < RESERVED_PAGES)
    ensures var window := (HeapEnd(start) + PAGE_SIZE) / PAGE_SIZE;
            && (v[window] <==> HeapEnd(start) + PAGE_SIZE < KVIRT_RESERVED)
            && forall n: nat, v', at: Option<nat> :: 0 < n <= KERNEL_PAGES - RESERVED_PAGES && Allocates(v, n, v', at) ==>
                 && at == Some(RESERVED_PAGES)
                 && (at.value <= window < at.value + n <==> HeapEnd(start) + PAGE_SIZE == KVIRT_RESERVED)
  {
    forall n: nat, v', at: Option<nat> | 0 < n <= KERNEL_PAGES - RESERVED_PAGES && Allocates(v, n, v', at)
      ensures at == Some(RESERVED_PAGES)
    {
      assert FreeRun(v, RESERVED_PAGES, n);
      FirstFitIsCorrectAndComplete(v, n, v', at);
      assert FreeRun(v, at.value, n);
      assert !v[at.value];
    }
  }

  // ----- The first request

  /** What kernel_early leaves to the heap: nothing is reserved above the kernel, and there are no tables but the first. */
  ghost predicate Booted(e: Env) {
    && |e.pages| == KERNEL_PAGES && (forall i :: 0 <= i < KERNEL_PAGES ==> e.pages[i] == (i < RESERVED_PAGES))
    && e.tables == map[]
  }

  /**
   The first kheap_malloc after kernel_early, for up to 0x100000 bytes with alignment, succeeds exactly when 261 frames are
   free that the search can find. It is served from the first section behind the metadata of a block at KVIRT_RESERVED.
   */
  lemma FirstRequestSucceedsIff(e0: Env, e: Env, mid: seq<Block>, after: seq<Block>, ok: bool, op: Op, out: nat, c: Demand)
    requires Booted(e0) && c.section == 16 && c.min == 0x10_0000
    requires 0 < c.size + (if c.align > 0 && c.align != 16 then c.align else 0) <= 0x10_0000
    requires if ok then Success(e0, [], e, mid, after, op, out, c) else Failure(e0, [], e, mid, c)
    ensures ok <==> |set f | 0 <= f < 32 * (|e0.bits| / 32) && !e0.bits[f]| >= 261
    ensures ok ==>
              && |after| == 1 && after[0].start == 0x17c000 && after[0].size == 261 * 4096
              && op.Malloc? && op.i == 0 && op.head == 1047
              && 0 <= out - (0x17c000 + 1047 * 16) < (if c.align > 0 then c.align else 1)
  {
    DemandMeans(c);
    AvailableIsCount(e0.bits);
    DefaultHeapFits(c.Padded());
    if ok {
      FirstServed(e0, e, mid, after, op, out, c);
    } else {
      FailureMeans(e0, [], e, mid, c);
      var pages: nat, at: Option<nat> :| Asked(e0, c.Wanted(), pages, at) && !Enough(e0, pages, at);
      FirstAsked(e0, c, pages, at);
    }
  }

  /** The first expansion asks for 261 pages, and they are found right above the kernel. */
  lemma FirstAsked(e0: Env, c: Demand, pages: nat, at: Option<nat>)
    requires Booted(e0) && c.section == 16 && c.min == 0x10_0000
    requires 0 < c.Padded() <= 0x10_0000 && Asked(e0, c.Wanted(), pages, at)
    ensures pages == 261 && at == Some(RESERVED_PAGES) && FramesNeeded(e0.tables, RESERVED_PAGES, 261) == 261
  {
    DefaultBlockFits(c.Padded(), pages);
    LowestAbove(e0.pages, 261);
    FoundOnce(e0.pages, 261, at, Some(RESERVED_PAGES));
    assert Missing(e0.tables, 0, 1) == Missing(e0.tables, 1, 1) == 0;
  }

  lemma FirstServed(e0: Env, e: Env, mid: seq<Block>, after: seq<Block>, op: Op, out: nat, c: Demand)
    requires Booted(e0) && c.section == 16 && c.min == 0x10_0000 && 0 < c.Padded() <= 0x10_0000 && !c.Wraps()
    requires FreshAlwaysFits(c.section, c.min, c.Padded()) && Success(e0, [], e, mid, after, op, out, c)
    ensures e0.Free() >= 261
    ensures |after| == 1 && after[0].start == 0x17c000 && after[0].size == 261 * 4096
    ensures op.Malloc? && op.i == 0 && op.head == 1047
    ensures 0 <= out - (0x17c000 + 1047 * 16) < if c.align > 0 then c.align else 1
  {
    SuccessMeans(e0, [], e, mid, after, op, out, c);
    var at := FirstBlockIs(e0, e, mid, c);
    FirstFound(mid[0], c.Padded(), op.head);
  }

  /** The one expansion that a first request needs. */
  lemma FirstBlockIs(e0: Env, e: Env, mid: seq<Block>, c: Demand) returns (at: nat)
    requires Booted(e0) && c.section == 16 && c.min == 0x10_0000
    requires 0 < c.Padded() <= 0x10_0000 && |mid| == 1 && Reached(e0, [], e, mid, c)
    ensures e0.Free() >= 261 && FreshAt(mid[0], RESERVED_PAGES * PAGE_SIZE, 261, 16)
  {
    var e1 := ReachedFrom(e0, [], e, mid, c);
    assert mid[1..] == [];
    ReachedMeans(e0, [], e1, mid[1..], c);
    var pages: nat;
    pages, at :| Asked(e0, c.Wanted(), pages, Some(at)) && Enough(e0, pages, Some(at))
                 && Grows(e0, [], c.section, pages, at, e, mid);
    FirstAsked(e0, c, pages, Some(at));
  }

  /** In a fresh block the search finds the first section behind the metadata. */
  lemma FirstFound(b: Block, size: Word, head: nat)
    requires FreshAt(b, RESERVED_PAGES * PAGE_SIZE, 261, 16) && 0 < size <= 0x10_0000
    requires b.section > 0 && |b.used| > 0 && Here(b, size, head)
    ensures b.start == 0x17c000 && b.size == 261 * 4096 && b.section == 16 && head == 1047
  {
    FreshMeans(b, RESERVED_PAGES * PAGE_SIZE, 261, 16);
    FreshBlockCapacity(RESERVED_PAGES * PAGE_SIZE, 261);
    FitsDefaultIff(size, 261);
    FitsFreshIff(RESERVED_PAGES * PAGE_SIZE, 261, 16, size);
    FoundAtCursor(b, size, head);
  }

  lemma FoundAtCursor(b: Block, size: Word, head: nat)
    requires b.section > 0 && |b.used| > 0 && b.cursor < |b.used| && Here(b, size, b.cursor) && Here(b, size, head)
    ensures head == b.cursor
  {
    ModUnique(b.cursor, |b.used|, 0, b.cursor);
    SearchIsSingle(b.used, b.cursor, DivRoundUp(size, b.section), head);
  }

  lemma SearchIsSingle(v: seq<bool>, c: nat, n: nat, s: nat)
    requires n > 0 && FreeRun(v, c, n) && NextFit(v, c, n, Some(s))
    ensures s == c
  {
    assert !v[c];
  }
}
