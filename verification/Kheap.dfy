/**
 The kernel heap (`kheap_t`) on top of the address space allocator and the paging code: `kernel/mm/heap.c`.
 */
module KernelHeap {
  import opened Words
  import opened Guards
  import opened Runs
  import opened Layout
  import opened Bitsets
  import opened FrameAllocator
  import opened AddressSpace
  import opened PageTables
  import opened Ownership
  import opened Memory
  import opened Paging
  import opened HeapModel
  import opened HeapRuns
  import opened Sizing
  import opened HeapBlocks
  import opened KernelPages
  import opened HeapSearches
  import opened HeapImages
  import opened HeapMemory

  class Kheap {
    const asa: Asa
    const mmu: Mmu
    const default_section_size: Word
    const min_block_size: Word
    var first: KheapBlock?
    var total_free_sections: nat
    /** The block list, first block first, what is in each block, and the words of its metadata. */
    ghost var blocks: seq<KheapBlock>
    ghost var model: seq<Block>
    ghost var images: seq<seq<Word>>
    /** The heap's own objects: blocks and the words of their bit vectors. */
    ghost var own: set<object>

    /** The blocks are linked in order, belong to the heap, and hold what `model` says. */
    ghost predicate Listed()
      reads this`first, this`blocks, this`model, this`images, this`own, own
    {
      Linked(first, blocks) && Arranged() && forall i :: 0 <= i < |blocks| ==> At(i)
    }

    /** Block `i` is what the model and the images say. */
    ghost predicate At(i: nat)
      requires Arranged() && i < |blocks|
      reads this`blocks, this`model, this`images, this`own, own
    {
      blocks[i].Is(model[i], images[i])
    }

    ghost predicate HeapValid()
      reads this, own
      ensures HeapValid() ==> default_section_size >= 4 && Divides(default_section_size) && min_block_size <= MAX_REQUEST
    {
      assert Open(HEAP);
      forall key {:trigger Open(key)} :: Open(key) && key == HEAP ==>
        && Listed() && Sound(model) && total_free_sections == FreeTotal(model)
        && default_section_size >= 4 && Divides(default_section_size) && min_block_size <= MAX_REQUEST
    }

    lemma HeapParts()
      ensures HeapValid() <==>
                && Listed() && Sound(model) && total_free_sections == FreeTotal(model)
                && default_section_size >= 4 && Divides(default_section_size) && min_block_size <= MAX_REQUEST
    {
      assert Open(HEAP);
    }

    /** The address space allocator and the paging code are sound and agree with the heap. */
    ghost predicate SystemValid()
      reads this, asa.pages.start, mmu, mmu.cpu, mmu.frames.bits.start
    {
      && asa.Valid() && mmu.Valid() && mmu.View().window < RESERVED_PAGES
      && PagesInv(model, asa.View(), mmu.View().Flat()) && Imaged(mmu.View(), model, images)
    }

    /** Everything; proofs that only pass it on do not look inside (`Open`). */
    ghost predicate Valid()
      reads this, own, asa.pages.start, mmu, mmu.cpu, mmu.frames.bits.start
      ensures Valid() ==> asa.Valid() && mmu.frames.Valid() && InRam(mmu.View().mem, mmu.View().dir)
      ensures Valid() ==> min_block_size <= MAX_REQUEST && Divides(default_section_size)
    {
      assert Open(HEAP);
      forall key {:trigger Open(key)} :: Open(key) && key == HEAP ==>
        HeapValid() && SystemValid() && Separated() && Uniform(model, default_section_size)
    }

    lemma ValidParts()
      ensures Valid() <==> HeapValid() && SystemValid() && Separated() && Uniform(model, default_section_size)
    {
      assert Open(HEAP);
    }

    /** What the heap shares with the rest of the kernel. */
    ghost function Environment(): Env
      requires asa.Valid() && mmu.frames.Valid() && InRam(mmu.View().mem, mmu.View().dir)
      reads this, asa.pages.start, mmu, mmu.cpu, mmu.frames.bits.start
    {
      EnvOf(asa.View(), mmu.View())
    }

    /** The three allocators share no storage. */
    ghost predicate Separated()
      reads this
    {
      && asa.pages.start != mmu.frames.bits.start
      && asa.pages.start !in own && mmu.frames.bits.start !in own && mmu !in own && mmu.cpu !in own
    }

    /** kheap_init */
    constructor (a: Asa, m: Mmu, sectionSize: Word, minBlockSize: Word)
      requires sectionSize >= 4 && Divides(sectionSize) && minBlockSize <= MAX_REQUEST
      requires a.Valid() && m.Valid() && a.LowPagesMarked() && m.View().window < RESERVED_PAGES
      requires forall p :: p in m.View().Flat() ==> p < RESERVED_PAGES
      requires a.pages.start != m.frames.bits.start
      ensures Valid() && model == [] && total_free_sections == 0 && asa == a && mmu == m && fresh(own)
      ensures default_section_size == sectionSize && min_block_size == minBlockSize
    {
      asa, mmu, default_section_size, min_block_size := a, m, sectionSize, minBlockSize;
      first, total_free_sections := null, 0;
      blocks, model, images, own := [], [], [], {};
      SoundIsInv([]);
      new;
      HeapParts();
      ValidParts();
    }

    /** The page-count loop of kheap_expand. */
    static method CountPages(size: Word) returns (pages_required: nat)
      requires size <= MAX_REQUEST
      ensures SizedTo(size, pages_required) && 0 < pages_required <= PAGES_IN_4G + 1
    {
      pages_required := DivRoundUp(size, PAGE_SIZE);
      StartPages(size);
      ghost var k := 0;
      var bytes_per_int := SECTION_SIZE_DEFAULT * 32;
      var block_size := Wrap(pages_required * PAGE_SIZE);
      var bitset_size: nat := DivRoundUp(block_size, bytes_per_int) * 4;
      while NeedsMore(pages_required, bitset_size, size)
        invariant pages_required == Start(size) + k <= PAGES_IN_4G + 1
        invariant RoundsDone(size, k, pages_required, bitset_size)
        decreases PAGES_IN_4G + 1 - pages_required
      {
        OneMoreRound(size, k, pages_required, bitset_size);
        block_size := Wrap(pages_required * PAGE_SIZE);
        bitset_size := DivRoundUp(block_size, bytes_per_int) * 4;
        pages_required, k := pages_required + 1, k + 1;
      }
      RoundsEnd(size, k, pages_required, bitset_size);
    }

    /** The mapping loop of kheap_expand; stops at the first page that cannot be mapped. */
    static method MapRange(m: Mmu, page: nat, n: nat) returns (mapped: nat)
      requires m.Valid() && m.View().window < RESERVED_PAGES <= page && page + n <= PAGES
      requires forall p :: page <= p < page + n ==> p !in m.View().Flat()
      modifies m.cpu, m.frames.bits.start
      ensures m.Valid() == old(m.Valid()) && MemoryKept(old(m.View()), m.View())
      ensures mapped <= n && RangeMapped(old(m.View().Flat()), m.View().Flat(), page, mapped)
      ensures TablesUpTo(old(m.View().Tables()), m.View().Tables(), page, mapped)
      ensures mapped == n <==> old(Available(m.frames.View())) >= FramesNeeded(old(m.View().Tables()), page, n)
      ensures old(Available(m.frames.View())) - Available(m.frames.View()) ==
              FramesNeeded(old(m.View().Tables()), page, mapped)
      ensures mapped < n ==> old(Available(m.frames.View())) < FramesNeeded(old(m.View().Tables()), page, mapped + 1)
    {
      ghost var flat, tables, available := m.View().Flat(), m.View().Tables(), Available(m.frames.View());
      ghost var s := m.View();
      mapped := 0;
      while mapped < n
        invariant mapped <= n && m.Valid() && MemoryKept(s, m.View())
        invariant RangeMapped(flat, m.View().Flat(), page, mapped)
        invariant Progress(tables, m.View().Tables(), page, n, mapped, available, Available(m.frames.View()))
      {
        ghost var s1 := m.View();
        var ok := MapOne(m, page, mapped, flat, tables, n, available);
        MemoryKeptTwice(s, s1, m.View());
        if !ok {
          ProgressDecides(tables, m.View().Tables(), page, n, mapped, available, Available(m.frames.View()));
          return;
        }
        mapped := mapped + 1;
      }
      ProgressDecides(tables, m.View().Tables(), page, n, mapped, available, Available(m.frames.View()));
    }

    /** One call of kpage_allocate in that loop. */
    static method MapOne(m: Mmu, page: nat, i: nat, ghost flat: map<nat, Word>, ghost tables: map<nat, Word>,
                         ghost n: nat, ghost available: nat)
        returns (ok: bool)
      requires m.Valid() && m.View().window < RESERVED_PAGES <= page && page + n <= PAGES && i < n
      requires page + i !in flat && RangeMapped(flat, m.View().Flat(), page, i)
      requires Progress(tables, m.View().Tables(), page, n, i, available, Available(m.frames.View()))
      modifies m.cpu, m.frames.bits.start
      ensures m.Valid() == old(m.Valid()) && MemoryKept(old(m.View()), m.View())
      ensures ok ==>
                && RangeMapped(flat, m.View().Flat(), page, i + 1)
                && Progress(tables, m.View().Tables(), page, n, i + 1, available, Available(m.frames.View()))
      ensures !ok ==>
                && RangeMapped(flat, m.View().Flat(), page, i)
                && available < FramesNeeded(tables, page, i + 1) <= FramesNeeded(tables, page, n)
                && Progress(tables, m.View().Tables(), page, n, i, available, Available(m.frames.View()))
    {
      ghost var s := m.View();
      RangeNext(flat, s.Flat(), page, i);
      ghost var frame;
      ok, frame := AllocateAt(m, page + i);
      if ok {
        OneMoreMapped(flat, tables, s, m.View(), page, n, i, available, frame);
      } else {
        NoMoreMapped(flat, tables, s, m.View(), page, n, i, available);
      }
    }

    /** kpage_allocate for page number `p`, which is not mapped. */
    static method AllocateAt(m: Mmu, p: nat) returns (ok: bool, ghost frame: nat)
      requires m.Valid() && m.View().window < RESERVED_PAGES <= p < PAGES && p !in m.View().Flat()
      modifies m.cpu, m.frames.bits.start
      ensures m.Valid() == old(m.Valid()) && MemoryKept(old(m.View()), m.View())
      ensures ok ==> frame < PAGES && PageAllocated(old(m.View()), m.View(), p, frame, PRESENT + RW, PRESENT + RW)
      ensures !ok ==>
                && m.View().Flat() == old(m.View().Flat()) && m.View().Tables() == old(m.View().Tables())
                && m.frames.View() == old(m.frames.View())
      ensures old(HasTable(m.View(), p)) <==> old(TableExists(m.View().Tables(), p))
      ensures ok <==> old(Available(m.frames.View())) >= if old(HasTable(m.View(), p)) then 1 else 2
      ensures ok ==>
                Available(m.frames.View()) ==
                old(Available(m.frames.View())) - if old(HasTable(m.View(), p)) then 1 else 2
    {
      m.TableKnown(p);
      var ret;
      var addr := p * PAGE_SIZE;
      assert addr / PAGE_SIZE == p && addr % PAGE_SIZE == 0;
      ret, frame := m.KpageAllocate(addr, PRESENT + RW);
      ok := ret == K_SUCCESS;
    }

    /** The loop that undoes a failed expansion: the pages mapped so far are freed, last one first. */
    static method UnmapRange(m: Mmu, page: nat, mapped: nat, ghost flat: map<nat, Word>)
      requires m.Valid() && m.View().window < RESERVED_PAGES <= page && page + mapped <= PAGES
      requires RangeMapped(flat, m.View().Flat(), page, mapped)
      requires forall p :: page <= p < page + mapped ==> p !in flat
      modifies m.cpu, m.frames.bits.start
      ensures m.Valid() == old(m.Valid()) && DataKept(old(m.View()), m.View())
      ensures m.View().Flat() == flat && m.View().Tables() == old(m.View().Tables())
    {
      ghost var s, tables := m.View(), m.View().Tables();
      var i := mapped;
      while i > 0
        invariant 0 <= i <= mapped && m.Valid() && DataKept(s, m.View())
        invariant RangeMapped(flat, m.View().Flat(), page, i) && m.View().Tables() == tables
      {
        i := i - 1;
        ghost var s1 := m.View();
        UnmapOne(m, page, i, flat);
        DataKeptTwice(s, s1, m.View());
      }
      RangeEmpty(flat, m.View().Flat(), page);
    }

    /** One call of kpage_free in that loop. */
    static method UnmapOne(m: Mmu, page: nat, i: nat, ghost flat: map<nat, Word>)
      requires m.Valid() && m.View().window < RESERVED_PAGES <= page && page + i < PAGES
      requires RangeMapped(flat, m.View().Flat(), page, i + 1) && page + i !in flat
      modifies m.cpu, m.frames.bits.start
      ensures m.Valid() == old(m.Valid()) && DataKept(old(m.View()), m.View())
      ensures m.View().Flat() == old(m.View().Flat()) - {page + i}
      ensures RangeMapped(flat, m.View().Flat(), page, i) && m.View().Tables() == old(m.View().Tables())
    {
      ghost var before := m.View().Flat();
      RangeShrinks(flat, before, before - {page + i}, page, i);
      FreeAt(m, page + i);
    }

    /** kpage_free for page number `p`, which is mapped. */
    static method FreeAt(m: Mmu, p: nat)
      requires m.Valid() && m.View().window < RESERVED_PAGES <= p < PAGES && p in m.View().Flat()
      modifies m.cpu, m.frames.bits.start
      ensures m.Valid() == old(m.Valid()) && DataKept(old(m.View()), m.View())
      ensures m.View().Flat() == old(m.View().Flat()) - {p} && m.View().Tables() == old(m.View().Tables())
    {
      var addr := p * PAGE_SIZE;
      assert addr / PAGE_SIZE == p && addr % PAGE_SIZE == 0;
      var ret := m.KpageFree(addr);
    }

    /** The walk of kheap_free along the list. */
    method FindBlock(addr: nat) returns (cur: KheapBlock?, ghost k: nat)
      requires Listed()
      ensures k <= |blocks| && cur == if k < |blocks| then blocks[k] else null
      ensures forall i :: 0 <= i < k ==> !(model[i].start < addr < model[i].start + model[i].size)
      ensures cur != null ==> model[k].start < addr < model[k].start + model[k].size
    {
      ghost var bs, h := blocks, model;
      forall i | 0 <= i < |bs|
        ensures bs[i].start == h[i].start && bs[i].block_size == h[i].size
      {
        assert At(i);
        bs[i].IsMeans(h[i], images[i]);
      }
      cur, k := Walk(first, addr, bs, h);
    }

    static method Walk(head: KheapBlock?, addr: nat, ghost bs: seq<KheapBlock>, ghost h: seq<Block>)
        returns (cur: KheapBlock?, ghost k: nat)
      requires Linked(head, bs) && |bs| == |h|
      requires forall i :: 0 <= i < |bs| ==> bs[i].start == h[i].start && bs[i].block_size == h[i].size
      ensures k <= |bs| && cur == if k < |bs| then bs[k] else null
      ensures forall i :: 0 <= i < k ==> !(h[i].start < addr < h[i].start + h[i].size)
      ensures cur != null ==> h[k].start < addr < h[k].start + h[k].size
    {
      k := 0;
      cur := head;
      while cur != null
        invariant k <= |bs| && cur == if k < |bs| then bs[k] else null
        invariant forall i :: 0 <= i < k ==> !(h[i].start < addr < h[i].start + h[i].size)
        decreases |bs| - k
      {
        if addr > cur.start && addr < cur.start + cur.block_size {
          return;
        }
        cur := cur.next;
        k := k + 1;
      }
    }

    /** kheap_free on the block objects; false when no block contains the address. `op` is the step taken. */
    method Free(addr: nat) returns (freed: bool, cur: KheapBlock?, ghost op: Op)
      requires HeapValid()
      requires forall i :: 0 <= i < |model| && model[i].start < addr < model[i].start + model[i].size ==>
                 exists a :: a in model[i].live && a.addr == addr
      modifies this`total_free_sections, this`model, this`images, own
      ensures HeapValid() == old(HeapValid()) && blocks == old(blocks)
      ensures freed ==>
                && op.Free? && op.a.addr == addr && op.i < |old(model)|
                && old(model)[op.i].start < addr < old(model)[op.i].start + old(model)[op.i].size
      ensures freed ==> HeapStep(old(model), op, model) && |blocks| == |model| == |images| && cur == blocks[op.i]
      ensures freed ==> |old(images)| == |images| && images == old(images)[op.i := images[op.i]]
      ensures !freed ==>
                && model == old(model) && images == old(images)
                && forall i :: 0 <= i < |model| ==> !(model[i].start < addr < model[i].start + model[i].size)
      ensures forall i, a :: 0 <= i < |old(model)| && a in old(model)[i].live && a.addr == addr
                             && addr < old(model)[i].start + old(model)[i].size ==>
                freed && op == Op.Free(i, a)
    {
      HeapParts();
      ghost var k;
      cur, k := FindBlock(addr);
      NoneLiveOutside(model, addr);
      if cur == null {
        return false, null, Op.Free(0, Alloc(0, 0, 0, 0));
      }
      freed := true;
      op := FreeOwned(cur, k, addr);
    }

    /** kheap_free from the point where the block has been found. */
    method FreeOwned(cur: KheapBlock, ghost k: nat, addr: nat) returns (ghost op: Op)
      requires HeapValid() && k < |blocks| == |model| == |images| && cur == blocks[k]
      requires model[k].start < addr < model[k].start + model[k].size && exists a :: a in model[k].live && a.addr == addr
      modifies this`total_free_sections, this`model, this`images, own
      ensures HeapValid() == old(HeapValid()) && blocks == old(blocks)
      ensures op.Free? && op.i == k && op.a.addr == addr && HeapStep(old(model), op, model)
      ensures |blocks| == |model| == |images| == |old(images)| && images == old(images)[k := images[k]]
      ensures forall i, a :: 0 <= i < |old(model)| && a in old(model)[i].live && a.addr == addr
                             && addr < old(model)[i].start + old(model)[i].size ==>
                op == Op.Free(i, a)
    {
      HeapParts();
      ghost var a :| a in model[k].live && a.addr == addr;
      OnlyOneLive(model, k, a);
      ghost var b := FreeStep(model, k, a);
      FreeIn(cur, k, addr, a.end - 1, b);
      HeapParts();
      op := Op.Free(k, a);
    }

    /** kheap_add_block: the new block goes to the front of the list. */
    method AddBlock(addr: nat, block_size: Word, section_size: Word)
      requires HeapValid() && addr % 0x1000 == 0 && addr + block_size <= TWO_32
      requires section_size >= 4 && Divides(section_size) && HoldsMetadata(block_size, section_size)
      requires forall i :: 0 <= i < |model| ==> Outside(model[i], addr, block_size)
      modifies this
      ensures HeapValid() == old(HeapValid()) && own >= old(own) && fresh(own - old(own))
      ensures model != [] && model[1..] == old(model) && IsNew(model[0], addr, block_size, section_size)
      ensures |images| == |blocks| == |model| && images[1..] == old(images)
      ensures HeapStep(old(model), Op.Add(model[0]), model)
    {
      HeapParts();
      SomeMetadata(block_size, section_size);
      ghost var h, b := model, NewBlock(addr, block_size, section_size);
      NewMeans(b, addr, block_size, section_size);
      var block := new KheapBlock(addr, block_size, section_size, first);
      Link(block, b, block.Image());
      AddStep(h, b);
      HeapParts();
    }

    /** Put a block in front of the list. */
    method Link(block: KheapBlock, ghost b: Block, ghost words: seq<Word>)
      requires Listed() && block.next == first && block.Is(b, words)
      requires block !in own && block.used_sections.start !in own && block.delimiters.start !in own
      modifies this`first, this`total_free_sections, this`blocks, this`model, this`images, this`own
      ensures Listed() == old(Listed())
      ensures own == old(own) + {block, block.used_sections.start, block.delimiters.start}
      ensures model == [b] + old(model) && blocks == [block] + old(blocks) && images == [words] + old(images)
      ensures total_free_sections == old(total_free_sections) + Clear(b.used)
    {
      block.FreeCount(b, words);
      total_free_sections := total_free_sections + block.free_sections;
      Prepend(block, b, words);
      first := block;
    }

    /** Record the block that `first` will point to. */
    ghost method Prepend(block: KheapBlock, b: Block, words: seq<Word>)
      requires Listed() && block.next == first && block.Is(b, words)
      requires block !in own && block.used_sections.start !in own && block.delimiters.start !in own
      modifies this`blocks, this`model, this`images, this`own
      ensures Linked(block, blocks) && Arranged() && forall i :: 0 <= i < |blocks| ==> At(i)
      ensures own == old(own) + {block, block.used_sections.start, block.delimiters.start}
      ensures model == [b] + old(model) && blocks == [block] + old(blocks) && images == [words] + old(images)
    {
      LinkedFront(block, blocks);
      SeparateFront(block, blocks, own);
      model, blocks, images := [b] + model, [block] + blocks, [words] + images;
      own := own + {block, block.used_sections.start, block.delimiters.start};
      forall i | 0 <= i < |blocks|
        ensures At(i)
      {
        assert i > 0 ==> old(At(i - 1));
      }
    }

    /** The mapping part of kheap_expand, with its roll-back; `e` is the environment before the reservation. */
    method MapOrUndo(page: nat, pages: nat, ghost e: Env) returns (ok: bool)
      requires asa.Valid() && mmu.Valid() && asa.pages.start != mmu.frames.bits.start
      requires mmu.View().window < RESERVED_PAGES <= page && page + pages <= KERNEL_PAGES
      requires forall p :: page <= p < page + pages ==> p !in mmu.View().Flat()
      requires e == EnvOf(e.pages, mmu.View()) && asa.View() == Fill(e.pages, page, page + pages, true)
      modifies asa.pages.start, mmu.cpu, mmu.frames.bits.start
      ensures mmu.Valid() == old(mmu.Valid()) && MemoryKept(old(mmu.View()), mmu.View())
      ensures ok <==> Enough(e, pages, Some(page))
      ensures ok ==>
                && asa.View() == old(asa.View()) && RangeMapped(e.flat, mmu.View().Flat(), page, pages)
                && Provided(e, pages, page, EnvOf(asa.View(), mmu.View()))
      ensures !ok ==>
                && asa.View() == Released(old(asa.View()), page, pages) && mmu.View().Flat() == e.flat
                && RolledBack(e, pages, Some(page), EnvOf(asa.View(), mmu.View()))
    {
      mmu.ValidParts();
      ghost var s := mmu.View();
      var mapped := MapRange(mmu, page, pages);
      ok := mapped == pages;
      if ok {
        RangeMeans(e.flat, mmu.View().Flat(), page, pages);
      } else {
        Undo(page, pages, mapped, s);
      }
      mmu.ValidParts();
      OnlyNewTaken(s, mmu.View(), e, EnvOf(asa.View(), mmu.View()));
      ProvidedMeans(e, pages, page, EnvOf(asa.View(), mmu.View()));
      RolledBackMeans(e, pages, page, EnvOf(asa.View(), mmu.View()));
      if !ok {
        assert Stuck(e, pages, page, EnvOf(asa.View(), mmu.View()), mapped);
      }
    }

    /** The roll-back when only `mapped` pages could be mapped; `s` is the state before. */
    method Undo(page: nat, pages: nat, mapped: nat, ghost s: Space)
      requires asa.Valid() && mmu.Valid() && asa.pages.start != mmu.frames.bits.start && mapped <= pages
      requires mmu.View().window < RESERVED_PAGES <= page && page + pages <= KERNEL_PAGES
      requires InRam(s.mem, s.dir) && forall p :: page <= p < page + pages ==> p !in s.Flat()
      requires MemoryKept(s, mmu.View()) && RangeMapped(s.Flat(), mmu.View().Flat(), page, mapped)
      modifies asa.pages.start, mmu.cpu, mmu.frames.bits.start
      ensures mmu.Valid() == old(mmu.Valid()) && MemoryKept(s, mmu.View())
      ensures asa.View() == Released(old(asa.View()), page, pages)
      ensures mmu.View().Flat() == s.Flat() && mmu.View().Tables() == old(mmu.View().Tables())
    {
      asa.Free(page * PAGE_SIZE, pages);
      ghost var s1 := mmu.View();
      UnmapRange(mmu, page, mapped, s.Flat());
      AddedAndTakenAway(s, s1, mmu.View());
    }

    /** The heap and the paging code, before the address space allocator is asked: everything `Valid` says but that. */
    ghost predicate Reserving(v: seq<bool>)
      reads this, own, asa.pages.start, mmu, mmu.cpu, mmu.frames.bits.start
    {
      && HeapValid() && Separated() && Uniform(model, default_section_size)
      && asa.Valid() && mmu.Valid() && mmu.View().window < RESERVED_PAGES
      && PagesInv(model, v, mmu.View().Flat()) && Imaged(mmu.View(), model, images)
    }

    /** kheap_expand once pages `[page, page + pages)` have been reserved; `e` is the environment before that. */
    method Populate(page: nat, pages: nat, ghost e: Env) returns (ok: bool)
      requires Reserving(e.pages) && 0 < pages && FreeRun(e.pages, page, pages) && e == EnvOf(e.pages, mmu.View())
      requires asa.View() == Fill(e.pages, page, page + pages, true)
      modifies this, asa.pages.start, mmu.cpu, mmu.frames.bits.start
      ensures Valid() == old(Reserving(e.pages)) && own >= old(own) && fresh(own - old(own))
      ensures ok <==> Enough(e, pages, Some(page))
      ensures ok ==>
                && Grows(e, old(model), default_section_size, pages, page, Environment(), model)
                && asa.View() == old(asa.View())
      ensures !ok ==>
                && model == old(model) && blocks == old(blocks) && own == old(own)
                && total_free_sections == old(total_free_sections)
                && RolledBack(e, pages, Some(page), Environment())
      ensures AllKept(old(mmu.View()), mmu.View())
    {
      HeapParts();
      ghost var s, v := mmu.View(), e.pages;
      RunIsUntouched(v, s.Flat(), page, pages);
      ok := MapOrUndo(page, pages, e);
      ghost var s1 := mmu.View();
      MemoryKeptIs(s, s1);
      ImagedStill(s, s1, model, images);
      if ok {
        AddMapped(page, pages, v, s.Flat());
        NewPagesWritten(s, s1, mmu.View(), page, pages);
      } else {
        RollbackKeepsInv(model, v, s.Flat(), page, pages);
      }
    }

    /** The last step of kheap_expand: a block on the pages just mapped. */
    method AddMapped(page: nat, pages: nat, ghost v: seq<bool>, ghost flat: map<nat, Word>)
      requires HeapValid() && Separated() && asa.Valid() && mmu.Valid() && mmu.View().window < RESERVED_PAGES
      requires Uniform(model, default_section_size) && Imaged(mmu.View(), model, images)
      requires PagesInv(model, v, flat) && FreeRun(v, page, pages) && asa.View() == Fill(v, page, page + pages, true)
      requires RESERVED_PAGES <= page && 0 < pages && page + pages <= KERNEL_PAGES
      requires RangeMapped(flat, mmu.View().Flat(), page, pages)
      requires forall i :: 0 <= i < |model| ==> Outside(model[i], page * PAGE_SIZE, pages * PAGE_SIZE)
      modifies this, mmu.cpu
      ensures Valid() == old(HeapValid()) && own >= old(own) && fresh(own - old(own))
      ensures model != [] && model[1..] == old(model) && FreshAt(model[0], page * PAGE_SIZE, pages, default_section_size)
      ensures Environment() == old(Environment())
      ensures KeptBut(old(mmu.View()), mmu.View(), page * PAGE_SIZE, (page + pages) * PAGE_SIZE)
    {
      MappedRunKeepsInv(model, v, flat, mmu.View().Flat(), page, pages);
      WholePagesHold(page, pages, default_section_size);
      AddOn(page * PAGE_SIZE, pages * PAGE_SIZE);
      NewIsFresh(model[0], page, pages, default_section_size);
    }

    /** kheap_add_block for a block that agrees with the reservations and the page tables; its metadata goes to memory. */
    method AddOn(addr: nat, block_size: Word)
      requires HeapValid() && Separated() && asa.Valid() && mmu.Valid() && mmu.View().window < RESERVED_PAGES
      requires Uniform(model, default_section_size) && PagesInv(model, asa.View(), mmu.View().Flat())
      requires Imaged(mmu.View(), model, images)
      requires addr % 0x1000 == 0 && block_size % PAGE_SIZE == 0 && addr + block_size <= TWO_32
      requires HoldsMetadata(block_size, default_section_size)
      requires CanHold(addr, block_size, asa.View(), mmu.View().Flat())
      requires forall i :: 0 <= i < |model| ==> Outside(model[i], addr, block_size)
      modifies this, mmu.cpu
      ensures Valid() == old(HeapValid()) && own >= old(own) && fresh(own - old(own))
      ensures model != [] && model[1..] == old(model) && IsNew(model[0], addr, block_size, default_section_size)
      ensures Environment() == old(Environment())
      ensures KeptBut(old(mmu.View()), mmu.View(), addr, addr + block_size)
    {
      ghost var h, im, s := model, images, mmu.View();
      AddBlock(addr, block_size, default_section_size);
      assert model == [model[0]] + h && images == [images[0]] + im;
      NewBlockJoins(h, model[0], asa.View(), mmu.View().Flat(), addr, block_size, default_section_size);
      WriteFirst();
      NewBlockImaged(s, mmu.View(), h, im, model, images, addr, block_size);
      ValidParts();
    }

    /** Write back the metadata of the first block. */
    method WriteFirst()
      requires HeapValid() && Separated() && asa.Valid() && mmu.Valid() && blocks != []
      requires PagesInv(model, asa.View(), mmu.View().Flat())
      modifies mmu.cpu
      ensures mmu.Valid() == old(mmu.Valid()) && mmu.View() == old(mmu.View()).(mem := mmu.cpu.mem)
      ensures mmu.View().Flat() == old(mmu.View().Flat()) && mmu.View().Tables() == old(mmu.View().Tables())
      ensures |images| == |model| == |blocks| && Sound(model) && IsImage(model[0], images[0])
      ensures Decodes(model[0], images[0], NextStart(model, 0))
      ensures KeptBut(old(mmu.View()), mmu.View(), model[0].start, model[0].start + 4 * |images[0]|)
      ensures Holds(mmu.View(), model[0].start, images[0])
    {
      HeapParts();
      WriteBack(first, 0);
    }

    /**
     The block's header and bit vectors, which lie at its start, as stores to memory. The C code stores each word when it
     changes; here all words are stored when the operation is done.
     */
    method WriteBack(cur: KheapBlock, ghost k: nat)
      requires HeapValid() && Separated() && asa.Valid() && mmu.Valid() && k < |blocks| && cur == blocks[k]
      requires PagesInv(model, asa.View(), mmu.View().Flat())
      modifies mmu.cpu
      ensures mmu.Valid() == old(mmu.Valid()) && mmu.View() == old(mmu.View()).(mem := mmu.cpu.mem)
      ensures mmu.View().Flat() == old(mmu.View().Flat()) && mmu.View().Tables() == old(mmu.View().Tables())
      ensures |images| == |model| == |blocks| && Sound(model) && IsImage(model[k], images[k])
      ensures Decodes(model[k], images[k], NextStart(model, k))
      ensures KeptBut(old(mmu.View()), mmu.View(), model[k].start, model[k].start + 4 * |images[k]|)
      ensures Holds(mmu.View(), model[k].start, images[k])
    {
      var words := MetadataOf(cur, k);
      MetadataIsStorable(mmu.View(), model, k, asa.View(), cur.start, words);
      mmu.WriteWords(cur.start, words);
    }

    /** The words that block `k` should have in memory. */
    method MetadataOf(cur: KheapBlock, ghost k: nat) returns (words: seq<Word>)
      requires HeapValid() && k < |blocks| && cur == blocks[k]
      ensures |images| == |model| == |blocks| && Sound(model) && model[k].Inv() && cur.start == model[k].start
      ensures words == images[k] && IsImage(model[k], images[k]) && Decodes(model[k], images[k], NextStart(model, k))
    {
      HeapParts();
      SoundIsInv(model);
      assert At(k);
      LinkIs(k);
      words := cur.Words(model[k], images[k]);
    }

    /** The block behind block `k`. */
    lemma LinkIs(k: nat)
      requires Listed() && Sound(model) && k < |blocks|
      ensures NextStart(model, k) == (if blocks[k].next == null then 0 else blocks[k].next.start) < TWO_32
    {
      SoundIsInv(model);
      if k + 1 < |blocks| {
        assert At(k + 1) && model[k + 1].Inv();
        blocks[k + 1].IsMeans(model[k + 1], images[k + 1]);
      }
    }

    lemma RunIsUntouched(v: seq<bool>, flat: map<nat, Word>, page: nat, pages: nat)
      requires Sound(model) && PagesInv(model, v, flat) && pages > 0 && FreeRun(v, page, pages)
      ensures RESERVED_PAGES <= page && page + pages <= KERNEL_PAGES
      ensures forall p :: page <= p < page + pages ==> p !in flat
      ensures forall i :: 0 <= i < |model| ==> Outside(model[i], page * PAGE_SIZE, pages * PAGE_SIZE)
    {
      SoundIsInv(model);
      FreeRunIsUntouched(model, v, flat, page, pages);
    }

    /** kheap_expand's request to the address space allocator. */
    method ReservePages(n: nat) returns (block_location: nat, ghost at: Option<nat>)
      requires Valid() && n > 0
      modifies asa.pages.start
      ensures Reserving(old(asa.View())) == old(Valid())
      ensures FoundRun(old(asa.View()), n, at)
      ensures at == None ==> block_location == 0 && Valid() == old(Valid()) && asa.View() == old(asa.View())
      ensures at.Some? ==>
                && 0 < block_location && block_location / PAGE_SIZE == at.value && FreeRun(old(asa.View()), at.value, n)
                && asa.View() == Fill(old(asa.View()), at.value, at.value + n, true)
                && Clear(asa.View()) < old(Clear(asa.View()))
    {
      ValidParts();
      ghost var v := asa.View();
      block_location, at := asa.Alloc(n);
      RunTaken(v, n, asa.View(), at);
    }

    /**
     kheap_expand. `pages` is the size of the block asked for and `at` the run of pages that the address space allocator
     found for it. After a failure the reservations are what asa_free leaves, and only new page tables hold frames.
     */
    method Expand(size: Word) returns (ret: KResult, pages: nat, ghost at: Option<nat>)
      requires Valid() && size <= MAX_REQUEST
      modifies this, asa.pages.start, mmu.cpu, mmu.frames.bits.start
      ensures Valid() == old(Valid()) && own >= old(own) && fresh(own - old(own))
      ensures Asked(old(Environment()), size, pages, at) && (ret == K_SUCCESS || ret == K_OOM)
      ensures ret == K_SUCCESS <==> Enough(old(Environment()), pages, at)
      ensures ret == K_SUCCESS ==>
                && Grows(old(Environment()), old(model), default_section_size, pages, at.value, Environment(), model)
                && Clear(asa.View()) < old(Clear(asa.View()))
      ensures ret == K_OOM ==>
                && model == old(model) && blocks == old(blocks) && own == old(own)
                && total_free_sections == old(total_free_sections)
                && RolledBack(old(Environment()), pages, at, Environment())
      ensures AllKept(old(mmu.View()), mmu.View())
    {
      pages := CountPages(size);
      ret, at := ExpandBy(size, pages);
    }

    /** The same for a given number of pages. */
    method ExpandBy(ghost size: Word, pages: nat) returns (ret: KResult, ghost at: Option<nat>)
      requires Valid() && 0 < pages && SizedTo(size, pages)
      modifies this, asa.pages.start, mmu.cpu, mmu.frames.bits.start
      ensures Valid() == old(Valid()) && own >= old(own) && fresh(own - old(own))
      ensures Asked(old(Environment()), size, pages, at) && (ret == K_SUCCESS || ret == K_OOM)
      ensures ret == K_SUCCESS <==> Enough(old(Environment()), pages, at)
      ensures ret == K_SUCCESS ==>
                && Grows(old(Environment()), old(model), default_section_size, pages, at.value, Environment(), model)
                && Clear(asa.View()) < old(Clear(asa.View()))
      ensures ret == K_OOM ==>
                && model == old(model) && blocks == old(blocks) && own == old(own)
                && total_free_sections == old(total_free_sections)
                && RolledBack(old(Environment()), pages, at, Environment())
      ensures AllKept(old(mmu.View()), mmu.View())
    {
      ghost var e := Environment();
      var block_location;
      block_location, at := ReservePages(pages);
      assert Environment().(pages := e.pages) == e;
      if block_location == 0 {
        KeptSame(mmu.View());
        RolledBackMeans(e, pages, 0, e);
        return K_OOM, at;
      }
      var ok := Populate(block_location / PAGE_SIZE, pages, e);
      ret := if ok then K_SUCCESS else K_OOM;
    }

    /** kheap_malloc's marking of the run found in block `k`; `b` is what the block becomes. */
    method TakeIn(cur: KheapBlock, ghost k: nat, head: nat, n_sec: nat, ghost b: Block)
      requires Listed() && k < |blocks| && cur == blocks[k] && total_free_sections >= n_sec
      requires n_sec > 0 && FreeRun(model[k].used, head, n_sec) && |model[k].delims| == |model[k].used|
      requires b.(live := model[k].live) == TakenBlock(model[k], head, n_sec)
      modifies this`total_free_sections, this`model, this`images, own
      ensures Listed() == old(Listed()) && model == old(model)[k := b]
      ensures |images| == |old(images)| == |model| && images == old(images)[k := images[k]]
      ensures total_free_sections == old(total_free_sections) - n_sec
    {
      ghost var h, im := model, images;
      ghost var words := MarkIn(cur, k, head, n_sec);
      cur.SameContents(TakenBlock(h[k], head, n_sec), b, words);
      total_free_sections := total_free_sections - n_sec;
      SetModel(h, im, k, b, words);
    }

    /** Marking sections of one block leaves the contents of the others alone. */
    method MarkIn(cur: KheapBlock, ghost k: nat, head: nat, n_sec: nat) returns (ghost words: seq<Word>)
      requires Listed() && k < |blocks| && cur == blocks[k]
      requires n_sec > 0 && FreeRun(model[k].used, head, n_sec) && |model[k].delims| == |model[k].used|
      modifies own
      ensures cur.Is(TakenBlock(model[k], head, n_sec), words)
      ensures forall i :: 0 <= i < |blocks| && i != k ==> At(i) == old(At(i))
    {
      assert forall i :: 0 <= i < |blocks| && i != k ==> Distinct(blocks[i], cur);
      assert At(k);
      words := cur.Take(head, n_sec, model[k], images[k]);
    }

    /** The end of kheap_malloc, once a run has been found in block `k`. */
    method Serve(cur: KheapBlock, ghost k: nat, head: nat, n_sec: nat, align: Word, manual: bool, ghost c: Demand)
        returns (out: Word, ghost op: Op)
      requires Valid() && Found(cur, k, head, n_sec, c.Padded()) && c.section == default_section_size
      requires align == c.align && manual == c.Manual()
      modifies this`total_free_sections, this`model, this`images, own, mmu.cpu
      ensures Valid() == old(Valid()) && Stepped(old(model), op, model) && own == old(own)
      ensures Environment() == old(Environment()) && KeptOutside(model, old(mmu.View()), mmu.View())
      ensures k < |old(model)| && op.Malloc? && op.i == k && op.head == head && op.n == n_sec
      ensures ServedAt(old(model)[k], op, c, out)
    {
      var section_start := cur.start + head * cur.section_size;
      out := AlignAddress(section_start, align, manual);
      ghost var b;
      b, op := RunFound(cur, k, head, n_sec, c, out);
      TakeSound(cur, k, head, n_sec, b);
    }

    lemma RunFound(cur: KheapBlock, k: nat, head: nat, n: nat, c: Demand, out: Word)
        returns (b: Block, op: Op)
      requires Valid() && Found(cur, k, head, n, c.Padded()) && c.section == default_section_size
      requires out == Wrap(Aligned(cur.start + head * cur.section_size, c.align, c.Manual()))
      ensures k < |blocks| == |model| && cur == blocks[k] && n > 0
      ensures op.Malloc? && op.i == k && op.head == head && op.n == n && ServedAt(model[k], op, c, out)
      ensures Stepped(model, op, model[k := b]) && Sound(model[k := b])
      ensures FreeRun(model[k].used, head, n)
      ensures |model[k].delims| == |model[k].used| && b.(live := model[k].live) == TakenBlock(model[k], head, n)
      ensures FreeTotal(model[k := b]) == FreeTotal(model) - n
    {
      RunReady(cur, k, head, n, c);
      b, op := ServeStep(model, k, head, n, c);
      SteppedMeans(model, op, model[k := b]);
    }

    lemma RunReady(cur: KheapBlock, k: nat, head: nat, n: nat, c: Demand)
      requires Valid() && Found(cur, k, head, n, c.Padded()) && c.section == default_section_size
      ensures k < |blocks| == |model| && cur == blocks[k] && Sound(model)
      ensures cur.start == model[k].start && cur.section_size == model[k].section == c.section > 0
      ensures model[k].start + 2 * model[k].size <= TWO_32
      ensures n == DivRoundUp(c.Padded(), c.section) && n > 0 && FreeRun(model[k].used, head, n)
    {
      ValidParts();
      HeapParts();
      FoundMeans(cur, k, head, n, c.Padded());
      assert OnMappedPages(model[k], asa.View(), mmu.View().Flat());
    }

    lemma FoundMeans(cur: KheapBlock?, k: nat, head: nat, n: nat, padded: Word)
      requires Found(cur, k, head, n, padded)
      ensures k < |blocks| == |model| && cur == blocks[k]
      ensures model[k].section > 0 && cur.start == model[k].start && cur.section_size == model[k].section
      ensures n == DivRoundUp(padded, model[k].section) && Verdict(model[k], padded, true, head)
      ensures FreeRun(model[k].used, head, n)
    {
      assert Open(FOUND);
      VerdictFound(model[k], padded, head, n);
    }

    /** The address returned for a run that starts at `section_start`. */
    static method AlignAddress(section_start: nat, align: Word, manual: bool) returns (out: Word)
      requires manual ==> align > 0
      ensures out == Wrap(Aligned(section_start, align, manual))
    {
      if manual && section_start % align > 0 {
        out := Wrap(section_start + (align - section_start % align));
      } else {
        out := Wrap(section_start);
      }
    }

    /** The same marking, as a step of a sound system: the block's metadata in memory changes, and nothing else. */
    method TakeSound(cur: KheapBlock, ghost k: nat, head: nat, n_sec: nat, ghost b: Block)
      requires Valid() && k < |blocks| == |model| && cur == blocks[k] && n_sec > 0
      requires FreeRun(model[k].used, head, n_sec) && |model[k].delims| == |model[k].used|
      requires b.(live := model[k].live) == TakenBlock(model[k], head, n_sec)
      requires Sound(model[k := b]) && FreeTotal(model[k := b]) == FreeTotal(model) - n_sec
      modifies this`total_free_sections, this`model, this`images, own, mmu.cpu
      ensures Valid() == old(Valid()) && own == old(own) && model == old(model)[k := b]
      ensures Environment() == old(Environment()) && KeptOutside(model, old(mmu.View()), mmu.View())
    {
      ValidParts();
      HeapParts();
      ghost var h, im := model, images;
      PagesInvUpdate(model, k, b, asa.View(), mmu.View().Flat());
      TakeIn(cur, k, head, n_sec, b);
      HeapParts();
      Rewrite(cur, k, h, im);
    }

    /** An expansion made by kheap_malloc when no block so far can serve the request; the search starts over. */
    method Grow(padded: Word, ghost e0: Env, ghost h: seq<Block>, ghost c: Demand) returns (ret: KResult, ghost e: Env)
      requires Valid() && IsDemand(c, padded) && Looking(e0, h, Environment(), model, |model|, c)
      modifies this, asa.pages.start, mmu.cpu, mmu.frames.bits.start
      ensures Valid() == old(Valid()) && own >= old(own) && fresh(own - old(own))
      ensures AllKept(old(mmu.View()), mmu.View())
      ensures ret == K_SUCCESS || ret == K_OOM
      ensures ret == K_SUCCESS ==>
                Clear(asa.View()) < old(Clear(asa.View())) && Looking(e0, h, Environment(), model, 0, c) && model != []
      ensures ret == K_OOM ==>
                model == old(model) && Failure(e0, h, e, model, c) && GaveUp(e, c.Wanted(), Environment())
    {
      var request := Max(min_block_size, padded);
      ghost var mid := model;
      var pages;
      ghost var at;
      e := Environment();
      ret, pages, at := Expand(request);
      if ret == K_SUCCESS {
        ListFacts();
        LookAgain(e0, h, e, mid, c, Environment(), model);
      } else {
        Fails(e0, h, e, mid, c);
      }
    }

    /** The request `c` as this heap sees it. */
    ghost predicate IsDemand(c: Demand, padded: Word) {
      c.section == default_section_size && c.min == min_block_size && padded == c.Padded() <= MAX_REQUEST
    }

    /**
     kheap_malloc. `c` is the call, `mid` and `e` the block list and the environment in which it was decided; `Success`
     and `Failure` say what the result means. On return the environment is `e`, except for what the last expansion leaves
     behind when it is refused.
     */
    method Malloc(size: Word, align: Word)
        returns (ret: KResult, out: Word, ghost mid: seq<Block>, ghost e: Env, ghost op: Op, ghost c: Demand)
      requires Valid() && Demand(size, align, default_section_size, min_block_size).Padded() <= MAX_REQUEST
      modifies this, own, asa.pages.start, mmu.cpu, mmu.frames.bits.start
      ensures Valid() == old(Valid()) && own >= old(own) && fresh(own - old(own))
      ensures KeptOutside(model, old(mmu.View()), mmu.View())
      ensures PAGE_SIZE % default_section_size == 0 ==> LiveKept(old(model), old(mmu.View()), mmu.View())
      ensures c == Demand(size, align, default_section_size, min_block_size) && (ret == K_SUCCESS || ret == K_OOM)
      ensures ret == K_SUCCESS ==>
                Success(old(Environment()), old(model), e, mid, model, op, out, c) && Environment() == e
      ensures ret == K_OOM ==>
                && mid == model && Failure(old(Environment()), old(model), e, model, c)
                && GaveUp(e, c.Wanted(), Environment())
    {
      Settle();
      ghost var v := asa.View();
      c := Demand(size, align, default_section_size, min_block_size);
      var padded, manual_align := size, false;
      if align > 0 {
        if default_section_size != align {
          padded := Wrap(size + align);
          manual_align := true;
        }
      }
      ghost var e0, h := Environment(), model;
      ghost var s, k := mmu.View(), 0;
      var cur, head, n_sec;
      ret, cur, head, n_sec, k, e := FindRun(padded, e0, h, c);
      ghost var s1 := mmu.View();
      mid := model;
      if ret != K_SUCCESS {
        out, op := 0, Op.Malloc(0, 0, 0, 0, 0);
        KeptIsKeptOutside(s, s1, model);
        Settle();
        if PAGE_SIZE % default_section_size == 0 {
          LiveThroughMalloc(e0, h, e, mid, model, false, op, out, c, v, asa.View(), s, mmu.View());
        }
        return;
      }
      out, op := Finish(cur, k, head, n_sec, align, manual_align, e0, h, c);
      KeptIsKeptOutside(s, s1, model);
      KeptOutsideTwice(s, s1, mmu.View(), model);
      Settle();
      if PAGE_SIZE % default_section_size == 0 {
        LiveThroughMalloc(e0, h, e, mid, model, true, op, out, c, v, asa.View(), s, mmu.View());
      }
    }

    /** `Malloc` covers exactly the calls of kheap_malloc that return. */
    lemma MallocReturnsIff(size: Word, align: Word)
      requires Valid()
      ensures var c := Demand(size, align, default_section_size, min_block_size);
              && Searchable(model) && (Returns(model, c) <==> c.Padded() <= MAX_REQUEST)
              && c.Padded() == (size + if align > 0 && align != default_section_size then align else 0) % 0x1_0000_0000
    {
      DemandMeans(Demand(size, align, default_section_size, min_block_size));
      ValidParts();
      HeapParts();
      ReturnsIff(model, Demand(size, align, default_section_size, min_block_size), asa.View(), mmu.View().Flat());
    }

    /** The search has found a run of `n_sec` sections at `head` of block `k`. (`Open` delays the unfolding.) */
    ghost predicate Found(cur: KheapBlock?, k: nat, head: nat, n_sec: nat, padded: Word)
      reads this
      ensures Found(cur, k, head, n_sec, padded) ==> cur != null
    {
      assert Open(FOUND);
      forall key {:trigger Open(key)} :: Open(key) && key == FOUND ==>
        && k < |blocks| == |model| && cur == blocks[k]
        && model[k].section > 0 && cur.start == model[k].start && cur.section_size == model[k].section
        && n_sec == DivRoundUp(padded, model[k].section) && Verdict(model[k], padded, true, head)
    }

    /** kheap_malloc from the point where the search has succeeded in block `k`. */
    method Finish(cur: KheapBlock, ghost k: nat, head: nat, n_sec: nat, align: Word, manual: bool,
                  ghost e0: Env, ghost h: seq<Block>, ghost c: Demand)
        returns (out: Word, ghost op: Op)
      requires Valid() && Found(cur, k, head, n_sec, c.Padded()) && Looking(e0, h, Environment(), model, k, c)
      requires IsDemand(c, c.Padded()) && align == c.align && manual == c.Manual()
      modifies this`total_free_sections, this`model, this`images, own, mmu.cpu
      ensures Valid() == old(Valid()) && own == old(own) && KeptOutside(model, old(mmu.View()), mmu.View())
      ensures Success(e0, h, old(Environment()), old(model), model, op, out, c) && Environment() == old(Environment())
    {
      ghost var e, mid := Environment(), model;
      SearchFound(cur, k, head, n_sec, c);
      out, op := Serve(cur, k, head, n_sec, align, manual, c);
      Succeeds(e0, h, e, mid, model, k, op, out, c);
    }

    lemma SearchFound(cur: KheapBlock?, k: nat, head: nat, n: nat, c: Demand)
      requires Valid() && Found(cur, k, head, n, c.Padded()) && c.section == default_section_size
      ensures k < |model| && model[k].section == c.section > 0 && n == DivRoundUp(c.Padded(), c.section)
      ensures Verdict(model[k], c.Padded(), true, head)
    {
      ValidParts();
      FoundMeans(cur, k, head, n, c.Padded());
    }

    /** The loop of kheap_malloc over the blocks, expanding the heap at the end of the list. */
    method FindRun(padded: Word, ghost e0: Env, ghost h: seq<Block>, ghost c: Demand)
        returns (ret: KResult, cur: KheapBlock?, head: nat, n_sec: nat, ghost k: nat, ghost e: Env)
      requires Valid() && IsDemand(c, padded) && h == model && e0 == Environment()
      modifies this, asa.pages.start, mmu.cpu, mmu.frames.bits.start
      ensures Valid() == old(Valid()) && own >= old(own) && fresh(own - old(own))
      ensures AllKept(old(mmu.View()), mmu.View())
      ensures ret == K_SUCCESS || ret == K_OOM
      ensures ret == K_OOM ==> Failure(e0, h, e, model, c) && GaveUp(e, c.Wanted(), Environment())
      ensures ret == K_SUCCESS ==>
                e == Environment() && Looking(e0, h, e, model, k, c) && Found(cur, k, head, n_sec, padded)
    {
      ghost var s := mmu.View();
      head, n_sec, k := 0, 0, 0;
      ret, cur, e := FirstBlock(padded, e0, h, c);
      if ret != K_SUCCESS {
        return;
      }
      while cur != null
        invariant Valid() == old(Valid()) && own >= old(own) && fresh(own - old(own)) && |blocks| == |model|
        invariant AllKept(s, mmu.View())
        invariant k < |blocks| && cur == blocks[k] && Looking(e0, h, Environment(), model, k, c) && ret == K_SUCCESS
        decreases Clear(asa.View()), |blocks| - k
      {
        ghost var s1 := mmu.View();
        var found;
        found, head, n_sec := LookAt(cur, k, padded, e0, h, c);
        if found {
          e := Environment();
          return;
        }
        ret, cur, k, e := GoOn(cur, k, padded, e0, h, c);
        KeptButTwice(s, s1, mmu.View(), 0, 0);
        if ret != K_SUCCESS {
          return;
        }
      }
      assert false;
    }

    /** Look at block `k`. */
    method LookAt(cur: KheapBlock, ghost k: nat, padded: Word, ghost e0: Env, ghost h: seq<Block>, ghost c: Demand)
        returns (found: bool, head: nat, n_sec: nat)
      requires Valid() && IsDemand(c, padded) && k < |blocks| == |model| && cur == blocks[k]
      requires Looking(e0, h, Environment(), model, k, c)
      ensures found ==> Found(cur, k, head, n_sec, padded)
      ensures !found ==> Looking(e0, h, Environment(), model, k + 1, c)
    {
      found, head, n_sec := FindIn(cur, k, padded);
      if !found {
        LookOn(e0, h, Environment(), model, k, c);
      }
    }

    /** The first block; an empty heap is expanded. */
    method FirstBlock(padded: Word, ghost e0: Env, ghost h: seq<Block>, ghost c: Demand)
        returns (ret: KResult, cur: KheapBlock?, ghost e: Env)
      requires Valid() && IsDemand(c, padded) && h == model && e0 == Environment()
      modifies this, asa.pages.start, mmu.cpu, mmu.frames.bits.start
      ensures Valid() == old(Valid()) && own >= old(own) && fresh(own - old(own)) && |blocks| == |model|
      ensures AllKept(old(mmu.View()), mmu.View())
      ensures ret == K_SUCCESS || ret == K_OOM
      ensures ret == K_OOM ==> Failure(e0, h, e, model, c) && GaveUp(e, c.Wanted(), Environment())
      ensures ret == K_SUCCESS ==> 0 < |blocks| && cur == blocks[0] && Looking(e0, h, Environment(), model, 0, c)
    {
      ListFacts();
      LookStart(e0, h, c);
      ret, cur, e := K_SUCCESS, first, e0;
      if cur == null {
        ret, e := Grow(padded, e0, h, c);
        ListFacts();
        cur := first;
      }
    }

    /** The step from one block to the next; at the end of the list the heap is expanded and the walk starts over. */
    method GoOn(cur: KheapBlock, ghost k: nat, padded: Word, ghost e0: Env, ghost h: seq<Block>, ghost c: Demand)
        returns (ret: KResult, cur': KheapBlock?, ghost k': nat, ghost e: Env)
      requires Valid() && IsDemand(c, padded) && k < |blocks| == |model| && cur == blocks[k]
      requires Looking(e0, h, Environment(), model, k + 1, c)
      modifies this, asa.pages.start, mmu.cpu, mmu.frames.bits.start
      ensures Valid() == old(Valid()) && own >= old(own) && fresh(own - old(own)) && |blocks| == |model|
      ensures AllKept(old(mmu.View()), mmu.View())
      ensures ret == K_SUCCESS || ret == K_OOM
      ensures ret == K_OOM ==> Failure(e0, h, e, model, c) && GaveUp(e, c.Wanted(), Environment())
      ensures ret == K_SUCCESS ==>
                && k' < |blocks| && cur' == blocks[k'] && Looking(e0, h, Environment(), model, k', c)
                && (Clear(asa.View()) < old(Clear(asa.View()))
                    || (Clear(asa.View()) == old(Clear(asa.View())) && |blocks| == |old(blocks)| && k' == k + 1))
    {
      cur' := NextBlock(cur, k);
      ret, k', e := K_SUCCESS, k + 1, e0;
      if cur' == null {
        ret, e := Grow(padded, e0, h, c);
        ListFacts();
        if ret == K_SUCCESS {
          cur', k' := first, 0;
        }
      }
    }

    /** __kheap_kalloc_free: kheap_free in the running system. */
    method KallocFree(addr: nat) returns (freed: bool, ghost op: Op)
      requires Valid()
      requires forall i :: 0 <= i < |model| && model[i].start < addr < model[i].start + model[i].size ==>
                 exists a :: a in model[i].live && a.addr == addr
      modifies this`total_free_sections, this`model, this`images, own, mmu.cpu
      ensures Valid() == old(Valid())
      ensures Environment() == old(Environment()) && mmu.View().Flat() == old(mmu.View().Flat())
      ensures KeptOutside(model, old(mmu.View()), mmu.View())
      ensures PAGE_SIZE % default_section_size == 0 ==> LiveKept(model, old(mmu.View()), mmu.View())
      ensures freed ==> op.Free? && op.a.addr == addr && HeapStep(old(model), op, model)
      ensures !freed ==>
                && model == old(model) && mmu.View() == old(mmu.View())
                && forall i :: 0 <= i < |model| ==> !(model[i].start < addr < model[i].start + model[i].size)
      ensures PAGE_SIZE % default_section_size == 0 ==>
                forall i, a :: 0 <= i < |old(model)| && a in old(model)[i].live && a.addr == addr ==>
                  freed && op == Op.Free(i, a)
    {
      ValidParts();
      HeapParts();
      ghost var h, im, s := model, images, mmu.View();
      AllInside(default_section_size);
      var cur;
      freed, cur, op := Free(addr);
      if freed {
        FreeKeepsPages(h, op, model, asa.View(), mmu.View().Flat(), default_section_size);
        Rewrite(cur, op.i, h, im);
      } else {
        KeptIsKeptOutside(mmu.View(), mmu.View(), model);
        ValidParts();
      }
      Settle();
      if PAGE_SIZE % default_section_size == 0 {
        LiveThroughFree(model, asa.View(), s, mmu.View(), default_section_size);
      }
    }

    /** A program stores a word to an allocation of its own, which is a step of the running system too. */
    method ClientStore(addr: Word, w: Word)
      requires Valid() && PAGE_SIZE % default_section_size == 0 && addr % 4 == 0 && LiveByte(model, addr)
      modifies mmu.cpu
      ensures Valid() == old(Valid()) && Environment() == old(Environment())
      ensures Usable(mmu.View(), addr) && WordAt(mmu.View(), addr) == w
      ensures KeptBut(old(mmu.View()), mmu.View(), addr, addr + 4)
    {
      Writable(addr);
      ghost var s := mmu.View();
      mmu.WriteWord(addr, w);
      ImagedThroughStore(s, mmu.View(), model, images, addr);
      ValidParts();
    }

    lemma Writable(addr: Word)
      requires Valid() && PAGE_SIZE % default_section_size == 0 && LiveByte(model, addr)
      ensures HeapValid() && SystemValid() && Separated() && Uniform(model, default_section_size)
      ensures Usable(mmu.View(), addr) && HeapInv(model) && RegionsDisjoint(model)
    {
      ValidParts();
      HeapParts();
      SoundIsInv(model);
      UniformIsWhole(model, default_section_size);
      InvSeparatesRegions(model);
      LiveBytesAreMapped(model, asa.View(), mmu.View().Flat(), addr);
    }

    /** In a heap of whole sections the address of an allocation lies inside its block. */
    lemma AllInside(section: Word)
      requires Valid() && section == default_section_size && Sound(model)
      ensures PAGE_SIZE % section == 0 ==>
                forall i, a :: 0 <= i < |model| && a in model[i].live ==> a.addr < model[i].start + model[i].size
    {
      ValidParts();
      if PAGE_SIZE % section == 0 {
        SoundIsInv(model);
        UniformIsWhole(model, section);
        forall i, a | 0 <= i < |model| && a in model[i].live
          ensures a.addr < model[i].start + model[i].size
        {
          LiveAddress(model[i], a);
        }
      }
    }

    lemma Settle()
      requires Valid()
      ensures Settled(model, asa.View(), mmu.View(), default_section_size)
    {
      ValidParts();
      HeapParts();
      SoundIsInv(model);
    }

    /** Block `k` has changed; its metadata goes to memory. */
    method Rewrite(cur: KheapBlock, ghost k: nat, ghost h: seq<Block>, ghost im: seq<seq<Word>>)
      requires HeapValid() && Separated() && asa.Valid() && mmu.Valid() && mmu.View().window < RESERVED_PAGES
      requires PagesInv(model, asa.View(), mmu.View().Flat()) && Uniform(model, default_section_size)
      requires k < |blocks| && cur == blocks[k] && |h| == |im| == |model| == |images|
      requires Imaged(mmu.View(), h, im) && Sound(h)
      requires SameButOne(h, model, k) && images == im[k := images[k]]
      modifies mmu.cpu
      ensures Valid() && Environment() == old(Environment()) && mmu.View().Flat() == old(mmu.View().Flat())
      ensures KeptOutside(model, old(mmu.View()), mmu.View())
    {
      ghost var s := mmu.View();
      WriteBack(cur, k);
      BlockRewritten(s, mmu.View(), h, im, model, images, k);
      ValidParts();
    }

    /**
     __kheap_kalloc_malloc_real on the default heap; false stands for its PANIC. The physical address reported is that of
     the page, so it is the address of the allocation only when that is page-aligned.
     */
    method KallocMallocReal(size: Word, wantPhys: bool, pageAlign: bool)
        returns (ok: bool, res: Word, phys: nat, ghost mid: seq<Block>, ghost e: Env, ghost op: Op, ghost c: Demand)
      requires Valid() && default_section_size == SECTION_SIZE_DEFAULT
      requires Demand(size, if pageAlign then PAGE_SIZE else 0, default_section_size, min_block_size).Padded() <= MAX_REQUEST
      modifies this, own, asa.pages.start, mmu.cpu, mmu.frames.bits.start
      ensures Valid() == old(Valid()) && KeptOutside(model, old(mmu.View()), mmu.View())
      ensures LiveKept(old(model), old(mmu.View()), mmu.View())
      ensures c == Demand(size, if pageAlign then PAGE_SIZE else 0, default_section_size, min_block_size)
      ensures ok ==> Success(old(Environment()), old(model), e, mid, model, op, res, c) && Environment() == e
      ensures !ok ==> Failure(old(Environment()), old(model), e, model, c) && GaveUp(e, c.Wanted(), Environment())
      ensures ok && !c.Wraps() ==> res / PAGE_SIZE in mmu.View().Flat()
      ensures ok && !c.Wraps() && wantPhys ==> phys + res % PAGE_SIZE == PhysByte(mmu.View().Flat(), res)
    {
      ghost var e0, h, s := Environment(), model, mmu.View();
      var ret;
      ret, res, mid, e, op, c := Malloc(size, if pageAlign then PAGE_SIZE else 0);
      phys := 0;
      ok := ret == K_SUCCESS;
      if ok {
        if !c.Wraps() {
          ResultKnown(e0, h, e, mid, op, res, c);
        }
        if wantPhys {
          ghost var s1 := mmu.View();
          phys := GetPhys(res);
          KeptIsKeptOutside(s1, mmu.View(), model);
          KeptOutsideTwice(s, s1, mmu.View(), model);
          LiveKeptStill(h, s, s1, mmu.View());
        }
      }
    }

    /** kpage_get_phys in the running system. */
    method GetPhys(addr: Word) returns (phys: Word)
      requires Valid()
      modifies mmu.cpu
      ensures Valid() == old(Valid()) && AllKept(old(mmu.View()), mmu.View()) && model == old(model)
      ensures Environment() == old(Environment()) && mmu.View().Flat() == old(mmu.View().Flat())
      ensures addr / PAGE_SIZE in mmu.View().Flat() && RESERVED_PAGES <= addr / PAGE_SIZE ==>
                phys + addr % PAGE_SIZE == PhysByte(mmu.View().Flat(), addr)
    {
      ValidParts();
      ghost var s := mmu.View();
      phys := mmu.PageGetPhys(addr);
      AddedOnly(s, mmu.View());
      MemoryKeptIs(s, mmu.View());
      ImagedStill(s, mmu.View(), model, images);
      ValidParts();
    }

    lemma ResultKnown(e0: Env, h: seq<Block>, e: Env, mid: seq<Block>, op: Op, out: nat, c: Demand)
      requires Valid() && default_section_size == SECTION_SIZE_DEFAULT && !c.Wraps()
      requires Success(e0, h, e, mid, model, op, out, c)
      ensures out < TWO_32 && out / PAGE_SIZE in mmu.View().Flat() && RESERVED_PAGES <= out / PAGE_SIZE
    {
      ValidParts();
      UniformIsWhole(model, default_section_size);
      ResultIsMapped(e0, h, e, mid, model, op, out, c, asa.View(), mmu.View().Flat());
    }

    /** In every state the system can be in, live allocations are disjoint and their bytes have memory of their own. */
    lemma LiveMemory()
      requires Valid() && PAGE_SIZE % default_section_size == 0
      ensures |mmu.View().base| == |mmu.View().bits| && RegionsDisjoint(model) && OwnMemory(model, mmu.View())
    {
      ValidParts();
      HeapParts();
      mmu.ValidParts();
      SoundIsInv(model);
      UniformIsWhole(model, default_section_size);
      InvSeparatesRegions(model);
      LiveBytesHaveTheirOwnMemory(model, asa.View(), mmu.View());
    }

    lemma ListFacts()
      requires Valid()
      ensures |blocks| == |model| && first == (if blocks == [] then null else blocks[0]) && Sound(model)
    {
      ValidParts();
      HeapParts();
    }

    /** Guard and search on block `k`. */
    method FindIn(cur: KheapBlock, ghost k: nat, padded: Word) returns (found: bool, head: nat, n_sec: nat)
      requires Valid() && k < |blocks| == |model| && cur == blocks[k]
      ensures model[k].section > 0 && cur.section_size == model[k].section && cur.start == model[k].start
      ensures n_sec == DivRoundUp(padded, model[k].section)
      ensures Verdict(model[k], padded, found, if found then head else 0)
    {
      ValidParts();
      HeapParts();
      SoundIsSearchable(model);
      assert At(k);
      found, head, n_sec := cur.Find(padded, model[k], images[k]);
    }

    method NextBlock(cur: KheapBlock, ghost k: nat) returns (next: KheapBlock?)
      requires Valid() && k < |blocks| && cur == blocks[k]
      ensures next == if k + 1 < |blocks| then blocks[k + 1] else null
    {
      ValidParts();
      HeapParts();
      next := cur.next;
    }

    /** What the blocks share with one another, apart from their contents. */
    ghost predicate Arranged()
      reads this`blocks, this`model, this`images, this`own
    {
      && |blocks| == |model| == |images| && this !in own && Separate(blocks)
      && forall i :: 0 <= i < |blocks| ==>
           blocks[i] in own && blocks[i].used_sections.start in own && blocks[i].delimiters.start in own
    }

    /** kheap_free once the block has been found; `b` is what the block becomes. */
    method FreeIn(cur: KheapBlock, ghost k: nat, addr: nat, ghost last: nat, ghost b: Block)
      requires Listed() && k < |blocks| && cur == blocks[k] && DelimitedAt(model[k], addr, last)
      requires b.(live := model[k].live, leaked := model[k].leaked)
               == ClearedBlock(model[k], model[k].SectionOf(addr), last)
      modifies this`total_free_sections, this`model, this`images, own
      ensures Listed() == old(Listed()) && model == old(model)[k := b]
      ensures |images| == |old(images)| == |model| && images == old(images)[k := images[k]]
      ensures total_free_sections == old(total_free_sections) + (last - old(model)[k].SectionOf(addr) + 1)
    {
      ghost var h, im := model, images;
      var n;
      ghost var words;
      n, words := GiveIn(cur, k, addr, last);
      cur.SameContents(ClearedBlock(h[k], h[k].SectionOf(addr), last), b, words);
      total_free_sections := total_free_sections + n;
      SetModel(h, im, k, b, words);
    }

    /** Record what block `k` has become. */
    ghost method SetModel(h: seq<Block>, im: seq<seq<Word>>, k: nat, b: Block, words: seq<Word>)
      requires Linked(first, blocks) && Arranged() && k < |h| && model == h && images == im && blocks[k].Is(b, words)
      requires forall i :: 0 <= i < |blocks| && i != k ==> At(i)
      modifies this`model, this`images
      ensures Listed() && model == h[k := b] && images == im[k := words]
    {
      model, images := h[k := b], im[k := words];
      forall i | 0 <= i < |blocks|
        ensures At(i)
      {
        assert i != k ==> old(At(i));
      }
    }

    /** Clearing sections of one block leaves the contents of the others alone. */
    method GiveIn(cur: KheapBlock, ghost k: nat, addr: nat, ghost last: nat) returns (n: nat, ghost words: seq<Word>)
      requires Listed() && k < |blocks| && cur == blocks[k] && DelimitedAt(model[k], addr, last)
      modifies own
      ensures n == last - model[k].SectionOf(addr) + 1
      ensures cur.Is(ClearedBlock(model[k], model[k].SectionOf(addr), last), words)
      ensures forall i :: 0 <= i < |blocks| && i != k ==> At(i) == old(At(i))
    {
      assert forall i :: 0 <= i < |blocks| && i != k ==> Distinct(blocks[i], cur);
      assert At(k);
      n, words := cur.Give(addr, model[k], last, images[k]);
    }
  }

  lemma VerdictFound(b: Block, padded: Word, head: nat, n: nat)
    requires Verdict(b, padded, true, head) && b.section > 0 && n == DivRoundUp(padded, b.section)
    ensures FreeRun(b.used, head, n)
  {
    assert Open(SEARCH);
  }

  ghost predicate Linked(first: KheapBlock?, blocks: seq<KheapBlock>) {
    && first == (if blocks == [] then null else blocks[0])
    && forall i {:trigger blocks[i].next} :: 0 <= i < |blocks| ==>
         blocks[i].next == if i + 1 < |blocks| then blocks[i + 1] else null
  }

  lemma LinkedFront(b: KheapBlock, blocks: seq<KheapBlock>)
    requires Linked(b.next, blocks)
    ensures Linked(b, [b] + blocks)
  {
  }

  lemma SeparateFront(b: KheapBlock, blocks: seq<KheapBlock>, own: set<object>)
    requires Separate(blocks) && b !in own && b.used_sections.start !in own && b.delimiters.start !in own
    requires forall i :: 0 <= i < |blocks| ==>
               blocks[i] in own && blocks[i].used_sections.start in own && blocks[i].delimiters.start in own
    ensures Separate([b] + blocks)
  {
    var bs := [b] + blocks;
    assert forall i :: 1 <= i < |bs| ==> bs[i] == blocks[i - 1];
  }

  ghost predicate Distinct(b: KheapBlock, c: KheapBlock) {
    && b != c
    && b.used_sections.start != c.used_sections.start && b.used_sections.start != c.delimiters.start
    && b.delimiters.start != c.used_sections.start && b.delimiters.start != c.delimiters.start
  }

  /** No two blocks share storage. */
  ghost predicate Separate(blocks: seq<KheapBlock>) {
    forall i, j :: 0 <= i < j < |blocks| ==> Distinct(blocks[i], blocks[j])
  }
}
