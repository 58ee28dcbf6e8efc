/**
 Concrete runs in which the heap does not do what one would expect of it.
 */
module HeapExamples {
  import opened Words
  import opened Runs
  import opened Layout
  import opened HeapModel
  import opened HeapRuns
  import opened Sizing
  import opened KernelPages
  import opened HeapSearches

  // ----- A run before the cursor is missed

  /** The allocation is made where kheap_malloc finds a run for its bytes. */
  ghost predicate Found(h: seq<Block>, op: Op) {
    && op.Malloc? && op.i < |h| && op.bytes < TWO_32
    && h[op.i].section > 0 && |h[op.i].used| > 0 && Here(h[op.i], op.bytes, op.head)
  }

  /**
   One page of 16-byte sections, three allocations that fill it, and the first two freed in order: sections 7 and 8 are
   free and next to each other, the cursor stands on 8, and a request of 32 bytes finds nothing.
   */
  lemma RunBeforeCursorIsMissed(start: nat) returns (hs: seq<seq<Block>>, ops: seq<Op>)
    requires start % PAGE_SIZE == 0 && start + PAGE_SIZE <= TWO_32
    ensures |hs| == 7 && |ops| == 6 && hs[0] == []
    ensures forall k :: 0 <= k < 6 ==> HeapStep(hs[k], ops[k], hs[k + 1])
    ensures forall k :: 1 <= k < 4 ==> Found(hs[k], ops[k])
    ensures |hs[6]| == 1 && hs[6][0].Inv() && FreeRun(hs[6][0].used, 7, 2)
    ensures NextFit(hs[6][0].used, hs[6][0].cursor, DivRoundUp(32, hs[6][0].section), None)
  {
    var b3, x, y;
    hs, ops, b3, x, y := FullPage(start);
    var b4 := Give(b3, x);
    var b5 := Give(b4, y);
    NothingFits(b5);
    hs, ops := hs + [[b4], [b5]], ops + [Op.Free(0, x), Op.Free(0, y)];
  }

  /** The first four states of that run. */
  lemma FullPage(start: nat) returns (hs: seq<seq<Block>>, ops: seq<Op>, b: Block, x: Alloc, y: Alloc)
    requires start % PAGE_SIZE == 0 && start + PAGE_SIZE <= TWO_32
    ensures |hs| == 5 && |ops| == 4 && hs[0] == [] && hs[4] == [b]
    ensures forall k :: 0 <= k < 4 ==> HeapStep(hs[k], ops[k], hs[k + 1])
    ensures forall k :: 1 <= k < 4 ==> Found(hs[k], ops[k])
    ensures b.Inv() && b.section == 16 && b.Length() == 256 && x in b.live && y in b.live && x != y
    ensures x.head == 7 && x.end == 8 && x.addr == b.SectionAddr(7)
    ensures y.head == 8 && y.end == 9 && y.addr == b.SectionAddr(8)
    ensures forall i :: 0 <= i < 256 ==> b.used[i]
  {
    var b2, z;
    hs, ops, b2, x, y := TwoTaken(start);
    b, z := Take(b2, 9, 247);
    hs, ops := hs + [[b]], ops + [Op.Malloc(0, 9, 247, z.addr, 3952)];
  }

  lemma TwoTaken(start: nat) returns (hs: seq<seq<Block>>, ops: seq<Op>, b: Block, x: Alloc, y: Alloc)
    requires start % PAGE_SIZE == 0 && start + PAGE_SIZE <= TWO_32
    ensures |hs| == 4 && |ops| == 3 && hs[0] == [] && hs[3] == [b]
    ensures forall k :: 0 <= k < 3 ==> HeapStep(hs[k], ops[k], hs[k + 1])
    ensures forall k :: 1 <= k < 3 ==> Found(hs[k], ops[k])
    ensures b.Inv() && b.section == 16 && b.size == PAGE_SIZE && b.Length() == 256 && b.cursor == 9
    ensures x in b.live && y in b.live
    ensures x == Alloc(7, b.SectionAddr(7), 16, 8) && y == Alloc(8, b.SectionAddr(8), 16, 9)
    ensures forall i :: 0 <= i < 256 ==> b.used[i] == (i < 9)
  {
    var b0 := FirstPage(start);
    var b1;
    b1, x := Take(b0, 7, 1);
    b, y := Take(b1, 8, 1);
    hs, ops := [[], [b0], [b1], [b]], [Op.Add(b0), Op.Malloc(0, 7, 1, x.addr, 16), Op.Malloc(0, 8, 1, y.addr, 16)];
  }

  lemma FirstPage(start: nat) returns (b: Block)
    requires start % PAGE_SIZE == 0 && start + PAGE_SIZE <= TWO_32
    ensures HeapStep([], Op.Add(b), [b]) && b.Inv() && b.section == 16 && b.size == PAGE_SIZE && b.Length() == 256
    ensures b.cursor == 7
    ensures forall i :: 0 <= i < 256 ==> b.used[i] == (i < 7)
  {
    FreshBlockCapacity(start, 1);
    b := NewBlock(start, PAGE_SIZE, SECTION_SIZE_DEFAULT);
    assert [b] + [] == [b];
  }

  lemma NothingFits(b: Block)
    requires b.section == 16 && b.Length() == 256 && b.cursor == 8
    requires forall i :: 0 <= i < 256 ==> b.used[i] == (i != 7 && i != 8)
    ensures FreeRun(b.used, 7, 2) && NextFit(b.used, b.cursor, DivRoundUp(32, b.section), None)
  {
    assert DivRoundUp(32, 16) == 2;
    assert !b.used[8];
    forall s: nat | 8 <= s && s + 2 <= 256
      ensures !FreeRun(b.used, s, 2)
    {
      assert b.used[s + 1];
    }
  }

  /** Allocate `n` sections from the cursor on, all of them for the caller. */
  lemma Take(b: Block, head: nat, n: nat) returns (b': Block, a: Alloc)
    requires b.Inv() && b.section == 16 && b.size == PAGE_SIZE && b.Length() == 256
    requires b.cursor == head < 256 && 0 < n < 250 && FreeRun(b.used, head, n)
    ensures a == Alloc(head, b.SectionAddr(head), 16 * n, head + n)
    ensures HeapStep([b], Op.Malloc(0, head, n, a.addr, a.bytes), [b']) && b'.Inv() && b'.section == 16
    ensures Found([b], Op.Malloc(0, head, n, a.addr, a.bytes))
    ensures b'.live == b.live + {a} && b'.Length() == b.Length() && b'.start == b.start && b'.size == b.size
    ensures b'.cursor == head + n
    ensures forall i :: 0 <= i < b.Length() ==> b'.used[i] == (b.used[i] || head <= i < head + n)
  {
    HereAtCursor(b, n);
    FreeRunIsApart(b, head, n);
    a := Alloc(head, b.SectionAddr(head), 16 * n, head + n);
    assert b.Placed(a);
    AllocateKeepsInv(b, head, n, a.addr, a.bytes);
    b' := Allocate(b, head, n, a.addr, a.bytes);
    assert [b][0 := b'] == [b'];
  }

  lemma HereAtCursor(b: Block, n: nat)
    requires b.Inv() && b.section == 16 && b.size == PAGE_SIZE && b.Length() == 256
    requires b.cursor < 256 && 0 < n < 250 && FreeRun(b.used, b.cursor, n)
    ensures |b.used| > 0 && Here(b, 16 * n, b.cursor)
  {
    NotSkipped(b, n);
    ModUnique(b.cursor, |b.used|, 0, b.cursor);
    assert LowestRun(b.used, b.cursor, |b.used|, n, b.cursor);
  }

  lemma NotSkipped(b: Block, n: nat)
    requires b.Inv() && b.section == 16 && b.size == PAGE_SIZE
    requires 0 < n < 250 && FreeRun(b.used, b.cursor, n)
    ensures DivRoundUp(16 * n, 16) == n && !Skipped(b, 16 * n)
  {
    NoWrapInGuard(b);
    PageMetadata();
    RunWithinClear(b.used, b.cursor, n);
  }

  lemma PageMetadata()
    ensures Metadata(PAGE_SIZE, 16) == 104
  {
  }

  /** Free an allocation whose address is that of its first section. */
  lemma Give(b: Block, a: Alloc) returns (b': Block)
    requires b.Inv() && b.section == 16 && a in b.live && a.addr == b.SectionAddr(a.head)
    ensures HeapStep([b], Op.Free(0, a), [b']) && b'.Inv() && b'.section == 16 && b'.cursor == a.head
    ensures b'.live == b.live - {a} && b'.Length() == b.Length() && b'.start == b.start
    ensures forall i :: 0 <= i < b.Length() ==> b'.used[i] == (b.used[i] && !(a.head <= i < a.end))
  {
    ReleaseKeepsInv(b, a);
    b' := Release(b, a);
    assert b.SectionOf(a.addr) == a.head;
    assert [b][0 := b'] == [b'];
  }

  // ----- Sections that do not fill the block

  /**
   One page of 24-byte sections: a request of 4008 bytes gets all free sections, the last of which reaches eight bytes
   past the page, into the header of any block that lies there.
   */
  lemma RegionsOverlap(start: nat) returns (b: Block, b': Block)
    requires start % PAGE_SIZE == 0 && start + PAGE_SIZE <= TWO_32
    ensures Stepped([], Op.Add(b), [b]) && Stepped([b], Op.Malloc(0, 4, 167, start + 96, 4008), [b'])
    ensures b.section > 0 && |b.used| > 0 && Here(b, 4008, 4)
    ensures forall c: Block :: c.Inv() && c.start == start + PAGE_SIZE ==> HeapInv([b', c]) && !RegionsDisjoint([b', c])
  {
    b := OddBlock(start);
    b' := TakeAll(b);
    forall c: Block | c.Inv() && c.start == start + PAGE_SIZE
      ensures HeapInv([b', c]) && !RegionsDisjoint([b', c])
    {
      Overlap(b', c);
    }
  }

  /** Give all of an odd block's sections to one allocation. */
  lemma TakeAll(b: Block) returns (b': Block)
    requires OddOne(b)
    ensures b.section > 0 && |b.used| > 0 && Here(b, 4008, 4)
    ensures b'.Inv() && b'.start == b.start && b'.size == b.size
    ensures Alloc(4, b.start + 96, 4008, 171) in b'.live
    ensures Stepped([b], Op.Malloc(0, 4, 167, b.start + 96, 4008), [b'])
  {
    FreshHere(b, 4008);
    AllocateKeepsInv(b, 4, 167, b.start + 96, 4008);
    b' := Allocate(b, 4, 167, b.start + 96, 4008);
    assert [b][0 := b'] == [b'];
    SteppedMeans([b], Op.Malloc(0, 4, 167, b.start + 96, 4008), [b']);
  }

  lemma Overlap(b: Block, c: Block)
    requires b.Inv() && c.Inv() && Apart(b, c) && Divides(c.section)
    requires exists a :: a in b.live && a.addr <= c.start < a.addr + a.bytes
    ensures HeapInv([b, c]) && !RegionsDisjoint([b, c])
  {
    var h := [b, c];
    var a :| a in b.live && a.addr <= c.start < a.addr + a.bytes;
    assert a in h[0].live && !BytesApart(a.addr, a.bytes, h[1].start, Metadata(h[1].size, h[1].section));
  }

  /** A page of 24-byte sections: 171 of them, 4104 bytes, of which 4 hold metadata. */
  ghost predicate OddOne(b: Block) {
    && b.Inv() && b.size == PAGE_SIZE && b.section == 24 && b.live == {} && b.leaked == {}
    && b.Length() == 171 && b.Meta() == 4 && b.cursor == 4 && Clear(b.used) == 167
    && (forall i :: 4 <= i < 171 ==> !b.used[i]) && !Skipped(b, 4008)
  }

  lemma OddBlock(start: nat) returns (b: Block)
    requires start % PAGE_SIZE == 0 && start + PAGE_SIZE <= TWO_32
    ensures OddOne(b) && b.start == start && Stepped([], Op.Add(b), [b])
  {
    assert Metadata(PAGE_SIZE, 24) == 88;
    NewBlockInv(start, PAGE_SIZE, 24);
    b := NewBlock(start, PAGE_SIZE, 24);
    assert [b] + [] == [b];
    SteppedMeans([], Op.Add(b), [b]);
  }

  // ----- The padded size wraps

  /**
   A request of 0xFFFFF800 bytes, aligned to a page, is padded to 0x800 bytes, which the first block of the default heap
   has room for; the run is four gigabytes too short.
   */
  lemma WrappedRequestIsServed(start: nat, pages: nat)
    requires SizedTo(MIN_BLOCK_SIZE_DEFAULT, pages) && start % PAGE_SIZE == 0 && start + pages * PAGE_SIZE <= TWO_32
    ensures var c := WRAPPED;
            && c.Wraps() && c.Padded() == 0x800 && c.Wanted() == MIN_BLOCK_SIZE_DEFAULT
            && DivRoundUp(c.Padded(), SECTION_SIZE_DEFAULT) * SECTION_SIZE_DEFAULT == c.Needed() - TWO_32
    ensures pages == 261
    ensures var b := NewBlock(start, 261 * PAGE_SIZE, SECTION_SIZE_DEFAULT);
            |b.used| > 0 && Here(b, WRAPPED.Padded(), b.cursor)
  {
    WrappedPadding();
    DefaultBlockFits(0x800, pages);
    ServedFromFresh(start, 261, 0x800);
  }

  /** The address returned for that request lies behind the run that was marked for it. */
  lemma WrappedAddressIsOutside(start: nat)
    requires start % PAGE_SIZE == 0 && start + 261 * PAGE_SIZE <= TWO_32
    ensures var b := NewBlock(start, 261 * PAGE_SIZE, SECTION_SIZE_DEFAULT);
            var n := DivRoundUp(WRAPPED.Padded(), SECTION_SIZE_DEFAULT);
            Aligned(b.SectionAddr(b.cursor), WRAPPED.align, WRAPPED.Manual()) > b.SectionAddr(b.cursor + n)
  {
    WrappedPadding();
    FreshBlockCapacity(start, 261);
    AlignedPastRun(start);
  }

  lemma AlignedPastRun(start: nat)
    requires start % PAGE_SIZE == 0
    ensures Aligned(start + 1047 * 16, PAGE_SIZE, true) == start + 1047 * 16 + 3728
  {
    assert (start + 1047 * 16) % PAGE_SIZE == 368;
  }

  const WRAPPED: Demand := Demand(0xFFFF_F800, 0x1000, SECTION_SIZE_DEFAULT, MIN_BLOCK_SIZE_DEFAULT)

  lemma WrappedPadding()
    ensures WRAPPED.Wraps() && WRAPPED.Padded() == 0x800 && WRAPPED.Wanted() == MIN_BLOCK_SIZE_DEFAULT
    ensures DivRoundUp(0x800, SECTION_SIZE_DEFAULT) * SECTION_SIZE_DEFAULT == WRAPPED.Needed() - TWO_32
  {
  }

  lemma ServedFromFresh(start: nat, pages: nat, size: Word)
    requires FitsFresh(size, pages, SECTION_SIZE_DEFAULT) && start % PAGE_SIZE == 0 && start + pages * PAGE_SIZE <= TWO_32
    ensures var b := NewBlock(start, pages * PAGE_SIZE, SECTION_SIZE_DEFAULT); |b.used| > 0 && Here(b, size, b.cursor)
  {
    FitsFreshIff(start, pages, SECTION_SIZE_DEFAULT, size);
  }
}
