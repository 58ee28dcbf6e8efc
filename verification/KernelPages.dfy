/**
 What ties the three allocators together: heap blocks lie on pages that the address space allocator has reserved and
 that the page tables map.
 */
module KernelPages {
  import opened Words
  import opened Guards
  import opened Runs
  import opened Layout
  import opened FrameAllocator
  import opened AddressSpace
  import opened PageTables
  import opened Ownership
  import opened HeapModel
  import opened HeapRuns

  /** What the heap shares with the rest of the kernel: reservations, page tables, mapped pages and frame bits. */
  datatype Env = Env(pages: seq<bool>, tables: map<nat, Word>, flat: map<nat, Word>, bits: seq<bool>) {

    /** Free frames that can be found. */
    ghost function Free(): nat {
      Available(bits)
    }
  }

  ghost function EnvOf(pages: seq<bool>, s: Space): Env
    requires InRam(s.mem, s.dir)
  {
    Env(pages, s.Tables(), s.Flat(), s.bits)
  }

  /** Every page that `b` occupies is reserved and mapped. */
  ghost predicate OnMappedPages(b: Block, pages: seq<bool>, flat: map<nat, Word>) {
    && KVIRT_RESERVED <= b.start && b.start + b.size <= KERNEL_PAGES * PAGE_SIZE
    && |pages| == KERNEL_PAGES
    && forall p :: b.start <= p * PAGE_SIZE < b.start + b.size ==> p in flat && pages[p]
  }

  /** Mapped pages above the reserved area are reserved in the address space; so are the pages of every block. */
  ghost predicate PagesInv(h: seq<Block>, pages: seq<bool>, flat: map<nat, Word>) {
    && |pages| == KERNEL_PAGES
    && (forall p :: 0 <= p < RESERVED_PAGES ==> pages[p])
    && (forall p :: p in flat && RESERVED_PAGES <= p ==> p < KERNEL_PAGES && pages[p])
    && (forall i :: 0 <= i < |h| ==> OnMappedPages(h[i], pages, flat))
  }

  /** `[addr, addr + size)` has no byte in common with `b`. */
  ghost predicate Outside(b: Block, addr: nat, size: nat) {
    b.start + b.size <= addr || addr + size <= b.start
  }

  /** A run of pages that the address space allocator may hand out is unmapped, and no block lies on it. */
  lemma FreeRunIsUntouched(h: seq<Block>, pages: seq<bool>, flat: map<nat, Word>, first: nat, n: nat)
    requires PagesInv(h, pages, flat) && n > 0 && FreeRun(pages, first, n)
    requires forall i :: 0 <= i < |h| ==> h[i].start % PAGE_SIZE == 0 && h[i].size > 0
    ensures RESERVED_PAGES <= first && first + n <= KERNEL_PAGES
    ensures forall p :: first <= p < first + n ==> p !in flat
    ensures forall i :: 0 <= i < |h| ==> Outside(h[i], first * PAGE_SIZE, n * PAGE_SIZE)
  {
    assert !pages[first];
    forall i | 0 <= i < |h|
      ensures Outside(h[i], first * PAGE_SIZE, n * PAGE_SIZE)
    {
      BlockAvoidsRun(h[i], pages, flat, first, n);
    }
  }

  lemma BlockAvoidsRun(b: Block, pages: seq<bool>, flat: map<nat, Word>, first: nat, n: nat)
    requires OnMappedPages(b, pages, flat) && n > 0 && FreeRun(pages, first, n)
    requires b.start % PAGE_SIZE == 0 && b.size > 0
    ensures b.start + b.size <= first * PAGE_SIZE || (first + n) * PAGE_SIZE <= b.start
  {
    var s := b.start / PAGE_SIZE;
    assert s * PAGE_SIZE == b.start;
    assert pages[s] && !pages[first];
    if s < first {
      assert !(b.start <= first * PAGE_SIZE < b.start + b.size);
    }
  }

  /** What the address space allocator answers about a request for `n` pages, as a fact about its bits. */
  ghost predicate FoundRun(pages: seq<bool>, n: nat, at: Option<nat>) {
    match at
    case Some(s) => n > 0 && LowestRun(pages, 0, |pages|, n, s)
    case None => n > 0 ==> NoRun(pages, 0, |pages|, n)
  }

  lemma {:induction false} RunTaken(v: seq<bool>, n: nat, v': seq<bool>, at: Option<nat>)
    requires Allocates(v, n, v', at) && n > 0 && |v| > 0 && v[0]
    ensures FoundRun(v, n, at)
    ensures at.Some? ==> 0 < at.value && FreeRun(v, at.value, n) && Clear(v') < Clear(v)
  {
    FirstFitIsCorrectAndComplete(v, n, v', at);
    assert at.Some? ==> !v[at.value];
  }

  /** What happens inside a block does not concern its pages. */
  lemma PagesInvUpdate(h: seq<Block>, k: nat, b: Block, pages: seq<bool>, flat: map<nat, Word>)
    requires PagesInv(h, pages, flat) && k < |h| && b.start == h[k].start && b.size == h[k].size
    ensures PagesInv(h[k := b], pages, flat)
  {
    assert OnMappedPages(b, pages, flat);
  }

  /**
   Pages `[first, first + n)` have been mapped, present and writable, and nothing else has changed. (`Open` delays the
   unfolding.)
   */
  ghost predicate RangeMapped(flat: map<nat, Word>, flat': map<nat, Word>, first: nat, n: nat) {
    forall key {:trigger Open(key)} :: Open(key) && key == GROWTH ==>
      && (forall p :: first <= p < first + n ==> p in flat' && (p in flat || flat'[p] % PAGE_SIZE == PRESENT + RW))
      && (forall p :: p in flat ==> p in flat' && flat'[p] == flat[p])
      && (forall p :: p in flat' ==> p in flat || first <= p < first + n)
  }

  lemma RangeMeans(flat: map<nat, Word>, flat': map<nat, Word>, first: nat, n: nat)
    requires RangeMapped(flat, flat', first, n)
    ensures forall p :: p in flat ==> p in flat' && flat'[p] == flat[p]
    ensures forall p :: p in flat' && p !in flat ==> first <= p < first + n
    ensures forall p :: first <= p < first + n ==> p in flat'
  {
    assert Open(GROWTH);
  }

  /** Reserving a run and mapping it keeps the invariant and makes room for a block. */
  lemma {:induction false} MappedRunKeepsInv(h: seq<Block>, pages: seq<bool>, flat: map<nat, Word>, flat': map<nat, Word>,
                                             first: nat, n: nat)
    requires PagesInv(h, pages, flat) && FreeRun(pages, first, n) && RESERVED_PAGES <= first
    requires RangeMapped(flat, flat', first, n)
    ensures PagesInv(h, Fill(pages, first, first + n, true), flat')
    ensures first + n <= KERNEL_PAGES ==>
              CanHold(first * PAGE_SIZE, n * PAGE_SIZE, Fill(pages, first, first + n, true), flat')
  {
    assert Open(GROWTH);
  }

  /** A block on mapped, reserved pages joins the list. */
  lemma BlockJoins(h: seq<Block>, b: Block, pages: seq<bool>, flat: map<nat, Word>)
    requires PagesInv(h, pages, flat) && OnMappedPages(b, pages, flat)
    ensures PagesInv([b] + h, pages, flat)
  {
    var h' := [b] + h;
    forall i | 0 <= i < |h'|
      ensures OnMappedPages(h'[i], pages, flat)
    {
      if i > 0 {
        assert h'[i] == h[i - 1];
      }
    }
  }

  /** A new block on pages that can hold it joins the list. */
  lemma NewBlockJoins(h: seq<Block>, b: Block, pages: seq<bool>, flat: map<nat, Word>, addr: nat,
                      size: Word, section: Word)
    requires PagesInv(h, pages, flat) && Uniform(h, section) && IsNew(b, addr, size, section)
    requires CanHold(addr, size, pages, flat) && size % PAGE_SIZE == 0
    ensures b.start == addr && b.size == size && PagesInv([b] + h, pages, flat) && Uniform([b] + h, section)
  {
    NewFields(b, addr, size, section);
    BlockJoins(h, b, pages, flat);
    var h' := [b] + h;
    assert forall i :: 1 <= i < |h'| ==> h'[i] == h[i - 1];
  }

  /** Pages that a block of `size` bytes at `addr` can be put on. */
  ghost predicate CanHold(addr: nat, size: nat, pages: seq<bool>, flat: map<nat, Word>) {
    forall b: Block :: b.start == addr && b.size == size ==> OnMappedPages(b, pages, flat)
  }

  /**
   After a failed expansion the pages are unmapped again, and asa_free, which clears at most pages of the failed range,
   leaves every other reservation alone.
   */
  lemma {:induction false} RollbackKeepsInv(h: seq<Block>, pages: seq<bool>, flat: map<nat, Word>, first: nat, n: nat)
    requires PagesInv(h, pages, flat) && FreeRun(pages, first, n)
    ensures PagesInv(h, Released(Fill(pages, first, first + n, true), first, n), flat)
  {
    var pages' := Released(Fill(pages, first, first + n, true), first, n);
    assert forall p :: 0 <= p < |pages| && pages[p] ==> pages'[p];
  }

  /** Tables that are still missing among table indices `[lo, hi)`; table 0 always exists. */
  ghost function Missing(tables: map<nat, Word>, lo: nat, hi: nat): nat
    decreases hi - lo
  {
    if lo >= hi then 0 else (if lo == 0 || lo in tables then 0 else 1) + Missing(tables, lo + 1, hi)
  }

  lemma {:induction false} MissingSnoc(tables: map<nat, Word>, lo: nat, hi: nat)
    requires lo <= hi
    ensures Missing(tables, lo, hi + 1) == Missing(tables, lo, hi) + if hi == 0 || hi in tables then 0 else 1
    decreases hi - lo
  {
    if lo < hi {
      MissingSnoc(tables, lo + 1, hi);
    }
  }

  lemma {:induction false} MissingMono(tables: map<nat, Word>, lo: nat, hi: nat, hi': nat)
    requires lo <= hi <= hi'
    ensures Missing(tables, lo, hi) <= Missing(tables, lo, hi')
    decreases hi' - hi
  {
    if hi < hi' {
      MissingSnoc(tables, lo, hi);
      MissingMono(tables, lo, hi + 1, hi');
    }
  }

  /** Frames that mapping `n` pages from `first` on takes: one each, and one for every table that is missing. */
  ghost function FramesNeeded(tables: map<nat, Word>, first: nat, n: nat): nat {
    if n == 0 then 0 else n + Missing(tables, first / ENTRIES, (first + n - 1) / ENTRIES + 1)
  }

  ghost predicate TablesGrow(tables: map<nat, Word>, tables': map<nat, Word>) {
    forall t :: t in tables ==> t in tables' && tables'[t] == tables[t]
  }

  /** Tables may have been added, present and writable, but only for the `n` pages from `first` on. */
  ghost predicate TablesFor(tables: map<nat, Word>, tables': map<nat, Word>, first: nat, n: nat) {
    && TablesGrow(tables, tables')
    && forall t :: t in tables' && t !in tables ==>
         n > 0 && first / ENTRIES <= t <= (first + n - 1) / ENTRIES && tables'[t] % PAGE_SIZE == PRESENT + RW
  }

  /** The tables of these pages exist, and no others have been added. */
  ghost predicate TablesUpTo(tables: map<nat, Word>, tables': map<nat, Word>, first: nat, n: nat) {
    TablesFor(tables, tables', first, n) && forall p :: first <= p < first + n ==> TableExists(tables', p)
  }

  /** One more page needs one more frame, or two when its table is missing. */
  lemma NeededNext(tables0: map<nat, Word>, tables: map<nat, Word>, first: nat, i: nat)
    requires TablesUpTo(tables0, tables, first, i)
    ensures FramesNeeded(tables0, first, i + 1) ==
            FramesNeeded(tables0, first, i) + if TableExists(tables, first + i) then 1 else 2
  {
    var lo, t := first / ENTRIES, (first + i) / ENTRIES;
    if i > 0 && (first + i - 1) / ENTRIES == t {
      assert TableExists(tables, first + i - 1);
    } else {
      MissingSnoc(tables0, lo, t);
    }
  }

  lemma NeededMono(tables: map<nat, Word>, first: nat, i: nat, n: nat)
    requires i <= n
    ensures FramesNeeded(tables, first, i) <= FramesNeeded(tables, first, n)
  {
    if i > 0 {
      MissingMono(tables, first / ENTRIES, (first + i - 1) / ENTRIES + 1, (first + n - 1) / ENTRIES + 1);
    }
  }

  /**
   After `i` of the `n` pages from `first` on have been mapped: how many searchable free frames that took, and which
   tables exist. (`Open` delays the unfolding.)
   */
  ghost predicate Progress(tables0: map<nat, Word>, tables: map<nat, Word>, first: nat, n: nat, i: nat,
                           available0: nat, available: nat)
  {
    forall key {:trigger Open(key)} :: Open(key) && key == GROWTH ==>
      && i <= n && TablesUpTo(tables0, tables, first, i)
      && available0 == available + FramesNeeded(tables0, first, i)
  }

  /** One more page has been mapped, which took one frame, or two when its table was missing. */
  lemma ProgressStep(tables0: map<nat, Word>, tables: map<nat, Word>, tables': map<nat, Word>,
                     first: nat, n: nat, i: nat, available0: nat, available: nat, available': nat)
    requires Progress(tables0, tables, first, n, i, available0, available) && i < n
    requires var t := (first + i) / ENTRIES;
             if TableExists(tables, first + i) then tables' == tables && available' == available - 1
             else
               && t in tables' && tables' == tables[t := tables'[t]] && tables'[t] % PAGE_SIZE == PRESENT + RW
               && available' == available - 2
    ensures Progress(tables0, tables', first, n, i + 1, available0, available')
  {
    assert Open(GROWTH);
    NeededNext(tables0, tables, first, i);
    assert forall p :: TableExists(tables, p) ==> TableExists(tables', p);
  }

  /** The pages mapped so far needed no more frames than there were. Stuck at a page: one more needs too many. */
  lemma ProgressDecides(tables0: map<nat, Word>, tables: map<nat, Word>, first: nat, n: nat, i: nat,
                        available0: nat, available: nat)
    requires Progress(tables0, tables, first, n, i, available0, available)
    ensures i <= n && TablesUpTo(tables0, tables, first, i)
    ensures available0 >= FramesNeeded(tables0, first, i) && available == available0 - FramesNeeded(tables0, first, i)
    ensures i < n && available < (if TableExists(tables, first + i) then 1 else 2) ==>
              available0 < FramesNeeded(tables0, first, i + 1) <= FramesNeeded(tables0, first, n)
  {
    assert Open(GROWTH);
    NeededNext(tables0, tables, first, i);
    if i < n {
      NeededMono(tables0, first, i + 1, n);
    }
  }

  lemma RangeGrows(flat0: map<nat, Word>, flat: map<nat, Word>, flat': map<nat, Word>,
                   first: nat, i: nat, e: Word)
    requires RangeMapped(flat0, flat, first, i) && first + i !in flat0 && flat' == flat[first + i := e]
    requires e % PAGE_SIZE == PRESENT + RW
    ensures RangeMapped(flat0, flat', first, i + 1) && first + i !in flat
  {
    assert Open(GROWTH);
  }

  lemma RangeNext(flat0: map<nat, Word>, flat: map<nat, Word>, first: nat, i: nat)
    requires RangeMapped(flat0, flat, first, i) && first + i !in flat0
    ensures first + i !in flat
  {
    assert Open(GROWTH);
  }

  /** One page of the range has been mapped. */
  lemma OneMoreMapped(flat: map<nat, Word>, tables: map<nat, Word>, s: Space, s': Space, first: nat, n: nat, i: nat,
                      available: nat, frame: nat)
    requires InRam(s.mem, s.dir) && InRam(s'.mem, s'.dir) && i < n && first + n <= PAGES && first + i !in flat
    requires RangeMapped(flat, s.Flat(), first, i)
    requires Progress(tables, s.Tables(), first, n, i, available, Available(s.bits))
    requires frame < PAGES && PageAllocated(s, s', first + i, frame, PRESENT + RW, PRESENT + RW)
    requires HasTable(s, first + i) <==> TableExists(s.Tables(), first + i)
    requires Available(s'.bits) == Available(s.bits) - if HasTable(s, first + i) then 1 else 2
    ensures RangeMapped(flat, s'.Flat(), first, i + 1)
    ensures Progress(tables, s'.Tables(), first, n, i + 1, available, Available(s'.bits))
  {
    RangeGrows(flat, s.Flat(), s'.Flat(), first, i, s'.Flat()[first + i]);
    ProgressStep(tables, s.Tables(), s'.Tables(), first, n, i, available, Available(s.bits), Available(s'.bits));
  }

  /** Or it could not be mapped. */
  lemma NoMoreMapped(flat: map<nat, Word>, tables: map<nat, Word>, s: Space, s': Space, first: nat, n: nat, i: nat,
                     available: nat)
    requires InRam(s.mem, s.dir) && InRam(s'.mem, s'.dir) && i < n && first + n <= PAGES
    requires RangeMapped(flat, s.Flat(), first, i)
    requires Progress(tables, s.Tables(), first, n, i, available, Available(s.bits))
    requires s'.Flat() == s.Flat() && s'.Tables() == s.Tables() && s'.bits == s.bits
    requires HasTable(s, first + i) <==> TableExists(s.Tables(), first + i)
    requires Available(s.bits) < if HasTable(s, first + i) then 1 else 2
    ensures RangeMapped(flat, s'.Flat(), first, i)
    ensures available < FramesNeeded(tables, first, i + 1) <= FramesNeeded(tables, first, n)
    ensures Progress(tables, s'.Tables(), first, n, i, available, Available(s'.bits))
  {
    ProgressDecides(tables, s.Tables(), first, n, i, available, Available(s.bits));
  }

  lemma RangeShrinks(flat0: map<nat, Word>, flat: map<nat, Word>, flat': map<nat, Word>,
                     first: nat, i: nat)
    requires RangeMapped(flat0, flat, first, i + 1) && first + i !in flat0 && flat' == flat - {first + i}
    ensures RangeMapped(flat0, flat', first, i) && first + i in flat
  {
    assert Open(GROWTH);
  }

  lemma RangeEmpty(flat0: map<nat, Word>, flat: map<nat, Word>, first: nat)
    requires RangeMapped(flat0, flat, first, 0)
    ensures flat == flat0
  {
    assert Open(GROWTH);
  }

  /** Frame `f` holds a page or a table that `e'` has in addition. */
  ghost predicate NewlyOwned(e: Env, e': Env, f: nat) {
    || (exists p :: p in e'.flat && p !in e.flat && FrameOf(e'.flat[p]) == f)
    || (exists t :: t in e'.tables && t !in e.tables && FrameOf(e'.tables[t]) == f)
  }

  /** The frames that `e'` has taken were free before, and they are exactly those of its new pages and tables. */
  ghost predicate FramesTaken(e: Env, e': Env) {
    && |e'.bits| == |e.bits|
    && forall f :: 0 <= f < |e.bits| ==>
         (e'.bits[f] <==> e.bits[f] || NewlyOwned(e, e', f)) && !(e.bits[f] && NewlyOwned(e, e', f))
  }

  /** Between two sound states of which the second has all pages and tables of the first, no frame is lost. */
  lemma OnlyNewTaken(s: Space, s': Space, e: Env, e': Env)
    requires s.Valid() && s'.Valid() && s'.base == s.base && e == EnvOf(e.pages, s) && e' == EnvOf(e'.pages, s')
    requires forall p :: p in e.flat ==> p in e'.flat && e'.flat[p] == e.flat[p]
    requires forall p :: p in e'.flat && p !in e.flat ==> RESERVED_PAGES <= p
    requires TablesGrow(e.tables, e'.tables)
    ensures FramesTaken(e, e')
  {
    forall f: nat | f < |e.bits|
      ensures (e'.bits[f] <==> e.bits[f] || NewlyOwned(e, e', f)) && !(e.bits[f] && NewlyOwned(e, e', f))
    {
      OwnersSplit(e, e', f);
      if NewlyOwned(e, e', f) {
        NewOwnerIsAlone(e, e', s.base, f);
      }
    }
  }

  lemma OwnersSplit(e: Env, e': Env, f: nat)
    requires forall p :: p in e.flat ==> p in e'.flat && e'.flat[p] == e.flat[p]
    requires forall p :: p in e'.flat && p !in e.flat ==> RESERVED_PAGES <= p
    requires TablesGrow(e.tables, e'.tables)
    ensures Owned(e'.flat, e'.tables, f) <==> Owned(e.flat, e.tables, f) || NewlyOwned(e, e', f)
  {
  }

  lemma NewOwnerIsAlone(e: Env, e': Env, base: seq<bool>, f: nat)
    requires Accounts(e'.flat, e'.tables, e'.bits, base) && NewlyOwned(e, e', f)
    requires forall p :: p in e.flat ==> p in e'.flat && e'.flat[p] == e.flat[p]
    requires forall p :: p in e'.flat && p !in e.flat ==> RESERVED_PAGES <= p
    requires TablesGrow(e.tables, e'.tables)
    ensures !Owned(e.flat, e.tables, f)
  {
    if q :| q in e'.flat && q !in e.flat && FrameOf(e'.flat[q]) == f {
      forall p | p in e.flat && RESERVED_PAGES <= p
        ensures FrameOf(e.flat[p]) != f
      {
        assert p in e'.flat && p != q;
      }
      forall t | t in e.tables
        ensures FrameOf(e.tables[t]) != f
      {
        assert t in e'.tables;
      }
    } else {
      var u :| u in e'.tables && u !in e.tables && FrameOf(e'.tables[u]) == f;
      forall p | p in e.flat && RESERVED_PAGES <= p
        ensures FrameOf(e.flat[p]) != f
      {
        assert p in e'.flat;
      }
      forall t | t in e.tables
        ensures FrameOf(e.tables[t]) != f
      {
        assert t in e'.tables && t != u;
      }
    }
  }

  /** Freeing an allocation does not concern the pages. */
  lemma FreeKeepsPages(h: seq<Block>, op: Op, h': seq<Block>, pages: seq<bool>, flat: map<nat, Word>,
                       section: Word)
    requires HeapStep(h, op, h') && op.Free? && PagesInv(h, pages, flat) && Uniform(h, section)
    ensures PagesInv(h', pages, flat) && Uniform(h', section) && SameButOne(h, h', op.i)
  {
    PagesInvUpdate(h, op.i, h'[op.i], pages, flat);
  }

  // ----- Where the bytes of live allocations are

  /** The physical address behind a virtual one. */
  ghost function PhysByte(flat: map<nat, Word>, x: nat): nat
    requires x / PAGE_SIZE in flat
  {
    FrameOf(flat[x / PAGE_SIZE]) * PAGE_SIZE + x % PAGE_SIZE
  }

  /** Some live allocation contains byte `x`. */
  ghost predicate LiveByte(h: seq<Block>, x: nat) {
    exists i, a :: 0 <= i < |h| && a in h[i].live && a.addr <= x < a.addr + a.bytes
  }

  lemma ByteOfBlockIsMapped(b: Block, pages: seq<bool>, flat: map<nat, Word>, x: nat)
    requires OnMappedPages(b, pages, flat) && b.start % PAGE_SIZE == 0 && b.start <= x < b.start + b.size
    ensures x / PAGE_SIZE in flat && RESERVED_PAGES <= x / PAGE_SIZE < KERNEL_PAGES
  {
    assert b.start <= x / PAGE_SIZE * PAGE_SIZE < b.start + b.size;
  }

  lemma LiveByteIsInItsBlock(b: Block, a: Alloc, x: nat)
    requires b.Inv() && WholeSections(b) && a in b.live && a.addr <= x < a.addr + a.bytes
    ensures b.start % PAGE_SIZE == 0 && b.start <= x < b.start + b.size
  {
    LiveBytesInBlock(b, a);
  }

  /** Every byte of every live allocation is mapped. */
  lemma LiveBytesAreMapped(h: seq<Block>, pages: seq<bool>, flat: map<nat, Word>, x: nat)
    requires HeapInv(h) && PagesInv(h, pages, flat) && LiveByte(h, x)
    requires forall i :: 0 <= i < |h| ==> WholeSections(h[i])
    ensures x / PAGE_SIZE in flat && RESERVED_PAGES <= x / PAGE_SIZE < KERNEL_PAGES
  {
    var i, a :| 0 <= i < |h| && a in h[i].live && a.addr <= x < a.addr + a.bytes;
    LiveByteIsInItsBlock(h[i], a, x);
    ByteOfBlockIsMapped(h[i], pages, flat, x);
  }

  /** A mapped byte's frame is marked, was free at boot and holds no paging structure. */
  lemma MappedByte(s: Space, x: nat)
    requires s.Valid() && x / PAGE_SIZE in s.Flat() && RESERVED_PAGES <= x / PAGE_SIZE
    ensures var f := PhysByte(s.Flat(), x) / PAGE_SIZE;
            && f == FrameOf(s.Flat()[x / PAGE_SIZE])
            && RESERVED_PAGES <= f < |s.bits| && s.bits[f] && !s.base[f] && Unused(s.mem, s.dir, f)
  {
    OwnersAreMarked(s);
    DataFrameIsUnused(s, x / PAGE_SIZE);
  }

  lemma MappedBytesDiffer(s: Space, x: nat, y: nat)
    requires s.Valid() && x / PAGE_SIZE in s.Flat() && RESERVED_PAGES <= x / PAGE_SIZE
    requires y / PAGE_SIZE in s.Flat() && RESERVED_PAGES <= y / PAGE_SIZE && x != y
    ensures PhysByte(s.Flat(), x) != PhysByte(s.Flat(), y)
  {
    if x / PAGE_SIZE != y / PAGE_SIZE {
      FramesDiffer(s, x / PAGE_SIZE, y / PAGE_SIZE);
      MappedByte(s, x);
      MappedByte(s, y);
    }
  }

  /**
   The bytes of live allocations lie in frames that are marked, were free at boot and hold no paging structure, and
   different bytes have different physical addresses.
   */
  ghost predicate OwnMemory(h: seq<Block>, s: Space)
    requires InRam(s.mem, s.dir) && |s.base| == |s.bits|
  {
    && (forall x: nat :: LiveByte(h, x) ==>
          && x / PAGE_SIZE in s.Flat()
          && var f := PhysByte(s.Flat(), x) / PAGE_SIZE;
             RESERVED_PAGES <= f < |s.bits| && s.bits[f] && !s.base[f] && Unused(s.mem, s.dir, f))
    && (forall x: nat, y: nat :: LiveByte(h, x) && LiveByte(h, y) && x != y ==>
          PhysByte(s.Flat(), x) != PhysByte(s.Flat(), y))
  }

  /** End to end, over the three allocators and the page tables. */
  lemma LiveBytesHaveTheirOwnMemory(h: seq<Block>, pages: seq<bool>, s: Space)
    requires HeapInv(h) && s.Valid() && PagesInv(h, pages, s.Flat())
    requires forall i :: 0 <= i < |h| ==> WholeSections(h[i])
    ensures OwnMemory(h, s)
  {
    forall x: nat | LiveByte(h, x)
      ensures x / PAGE_SIZE in s.Flat() && RESERVED_PAGES <= x / PAGE_SIZE
      ensures var f := PhysByte(s.Flat(), x) / PAGE_SIZE;
              RESERVED_PAGES <= f < |s.bits| && s.bits[f] && !s.base[f] && Unused(s.mem, s.dir, f)
    {
      LiveBytesAreMapped(h, pages, s.Flat(), x);
      MappedByte(s, x);
    }
    forall x: nat, y: nat | LiveByte(h, x) && LiveByte(h, y) && x != y
      ensures PhysByte(s.Flat(), x) != PhysByte(s.Flat(), y)
    {
      MappedBytesDiffer(s, x, y);
    }
  }
}
