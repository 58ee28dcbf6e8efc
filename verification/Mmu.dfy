/**
 The paging code of `kernel/arch/i386/paging.c`: page tables in physical memory, reached through one movable window page.
 */
module Paging {
  import opened Words
  import opened Guards
  import opened Runs
  import opened Layout
  import opened Bitsets
  import opened FrameAllocator
  import opened EarlyPlacement
  import opened PageTables
  import opened Ownership
  import opened Memory
  import opened Processor

  class Mmu {
    const cpu: Cpu
    const frames: Frames
    const early: EarlyHeap
    var page_directory: Word
    var WINDOW_PAGE: Word
    var early_init_done: bool
    /** The frames that were marked when paging was switched on. */
    ghost var base: seq<bool>

    ghost function View(): Space
      reads this, cpu, frames.bits.start
      requires frames.Valid()
    {
      Space(cpu.mem, page_directory / PAGE_SIZE, WINDOW_PAGE / PAGE_SIZE, frames.View(), base)
    }

    /** Paging is on and its structures can be reached through the window. */
    ghost predicate Ready()
      reads this, cpu, frames.bits.start
    {
      && frames.Valid() && early_init_done
      && page_directory % PAGE_SIZE == 0 && WINDOW_PAGE % PAGE_SIZE == 0
      && cpu.paging && cpu.cr3 == page_directory / PAGE_SIZE
      && View().Addressable()
    }

    /** Everything; proofs that only pass it on do not look inside (`Open`). */
    ghost predicate Valid()
      reads this, cpu, frames.bits.start
      ensures Valid() ==> frames.Valid() && InRam(View().mem, View().dir)
    {
      assert Open(PAGING);
      forall key {:trigger Open(key)} :: Open(key) && key == PAGING ==> Ready() && View().Valid() && cpu.Coherent({})
    }

    lemma TableKnown(page: nat)
      requires Valid() && page < PAGES
      ensures HasTable(View(), page) <==> TableExists(View().Tables(), page)
    {
      ValidParts();
      HasTableIff(View(), page);
    }

    lemma ValidParts()
      ensures Valid() <==> Ready() && View().Valid() && cpu.Coherent({})
    {
      assert Open(PAGING);
    }

    /** get_virt_ptr after early initialisation: the window page now shows frame `phys / PAGE_SIZE`. */
    method GetVirtPtr(phys: Word) returns (virt: Word)
      requires Ready() && cpu.Coherent({}) && phys % PAGE_SIZE == 0 && InRam(cpu.mem, phys / PAGE_SIZE)
      modifies cpu
      ensures Ready() == old(Ready()) && cpu.Coherent({}) && virt == WINDOW_PAGE
      ensures cpu.mem == Put(old(cpu.mem), old(View().WindowTable()), WINDOW_PAGE / PAGE_SIZE,
                             Entry(phys / PAGE_SIZE, PRESENT + RW))
      ensures SamePdes(old(cpu.mem), cpu.mem, cpu.cr3)
      ensures SameWalks(old(cpu.mem), cpu.mem, cpu.cr3, {WINDOW_PAGE / PAGE_SIZE})
      ensures Kept(old(cpu.mem), cpu.mem, cpu.cr3, {})
      ensures cpu.Reaches(WINDOW_PAGE / PAGE_SIZE, phys / PAGE_SIZE)
    {
      var page_index := WINDOW_PAGE / PAGE_SIZE;
      var table_index := page_index / ENTRIES;
      var page_index_in_table := page_index % ENTRIES;
      ghost var s := View();
      WindowMoves(s, phys / PAGE_SIZE);
      EntryFlags(phys);
      IdentityMapped(s, s.dir);
      IdentityMapped(s, s.WindowTable());

      var d := cpu.Load(page_directory / PAGE_SIZE, table_index, s.dir);
      EntryMasks(d);
      var table := And(d, 0xFFFF_F000);
      assert table / PAGE_SIZE == s.WindowTable();
      cpu.Store(table / PAGE_SIZE, page_index_in_table, Or(Or(phys, PRESENT), RW), s.WindowTable());
      assert View() == s.(mem := cpu.mem);
      cpu.Invlpg(page_index);
      assert View() == s.(mem := cpu.mem);
      virt := WINDOW_PAGE;
    }

    constructor (c: Cpu, f: Frames, e: EarlyHeap)
      ensures cpu == c && frames == f && early == e && !early_init_done
    {
      cpu, frames, early := c, f, e;
      page_directory, WINDOW_PAGE, early_init_done, base := 0, 0, false, [];
    }

    // ----- Before paging is switched on

    /** Paging is off, and the early heap with room for the window page behind it lies in the reserved area. */
    ghost predicate Booting()
      reads this, cpu, early
    {
      && frames.Valid() && !early_init_done && !cpu.paging && cpu.tlb == map[]
      && RESERVED_PAGES <= |cpu.mem| == frames.bits.length <= PAGES
      && 0 < early.kernel_heap_start && early.kernel_heap_start % PAGE_SIZE == 0
      && early.kernel_heap_start + EARLY_HEAP_MAXSIZE + PAGE_SIZE <= KVIRT_RESERVED
      && early.kernel_heap_start <= early.kernel_heap_curpos <= early.kernel_heap_start + EARLY_HEAP_MAXSIZE
    }

    /** The early heap can serve a page-aligned page. */
    ghost predicate HasRoom()
      reads early
    {
      early.kernel_heap_curpos + 2 * PAGE_SIZE <= early.kernel_heap_start + EARLY_HEAP_MAXSIZE
    }

    /** The directory exists; it and its tables lie below the early heap's pointer. */
    ghost predicate Early()
      reads this, cpu, early
    {
      && Booting() && page_directory % PAGE_SIZE == 0 && WellFormed(cpu.mem, page_directory / PAGE_SIZE)
      && early.kernel_heap_start <= page_directory && page_directory + PAGE_SIZE <= early.kernel_heap_curpos
      && forall t :: 0 <= t < ENTRIES && Present(Pde(cpu.mem, page_directory / PAGE_SIZE, t)) ==>
           page_directory / PAGE_SIZE < FrameOf(Pde(cpu.mem, page_directory / PAGE_SIZE, t))
           && (FrameOf(Pde(cpu.mem, page_directory / PAGE_SIZE, t)) + 1) * PAGE_SIZE <= early.kernel_heap_curpos
    }

    /** memset32(virt, value, 1024) while virtual and physical addresses coincide */
    method Memset32(virt: Word, value: Word)
      requires !cpu.paging && virt % PAGE_SIZE == 0 && InRam(cpu.mem, virt / PAGE_SIZE)
      modifies cpu
      ensures !cpu.paging && cpu.tlb == old(cpu.tlb) && |cpu.mem| == old(|cpu.mem|)
      ensures cpu.mem == old(cpu.mem)[virt / PAGE_SIZE := cpu.mem[virt / PAGE_SIZE]]
      ensures forall i :: 0 <= i < ENTRIES ==> cpu.mem[virt / PAGE_SIZE][i] == value
    {
      ghost var m, frame := cpu.mem, virt / PAGE_SIZE;
      for i := 0 to ENTRIES
        invariant !cpu.paging && cpu.tlb == old(cpu.tlb) && |cpu.mem| == |m| && cpu.mem == m[frame := cpu.mem[frame]]
        invariant forall k :: 0 <= k < i ==> cpu.mem[frame][k] == value
      {
        cpu.Store(virt / PAGE_SIZE, i, value, frame);
      }
    }

    /** `kmalloc_ap(PAGE_SIZE, ..., KALLOC_CRITICAL)` from the early heap; 0 when there is no room. */
    method EarlyPage() returns (addr: Word)
      requires Booting()
      modifies early
      ensures Booting()
      ensures if old(HasRoom()) then
                && addr == Place(old(early.kernel_heap_curpos), true) && addr % PAGE_SIZE == 0
                && 0 < old(early.kernel_heap_curpos) <= addr && early.kernel_heap_curpos == addr + PAGE_SIZE
              else addr == 0 && early.kernel_heap_curpos == old(early.kernel_heap_curpos)
    {
      PageAcceptedIff(early.kernel_heap_start, early.kernel_heap_curpos);
      if HasRoom() {
        AcceptedRegion(early.kernel_heap_start, early.kernel_heap_curpos, PAGE_REQUEST);
      }
      addr := early.Kmalloc(PAGE_REQUEST);
    }

    /** i386_mmu_data_init */
    method MmuDataInit() returns (ret: KResult)
      requires Booting()
      modifies this`page_directory, cpu, early
      ensures ret == if old(HasRoom()) then K_SUCCESS else K_OOM
      ensures ret == K_SUCCESS ==>
                && Early() && EmptyTable(cpu.mem, page_directory / PAGE_SIZE)
                && page_directory == Place(old(early.kernel_heap_curpos), true)
                && early.kernel_heap_curpos == page_directory + PAGE_SIZE
                && |cpu.mem| == old(|cpu.mem|)
    {
      var tmp := EarlyPage();
      if tmp == 0 {
        return K_OOM;
      }
      page_directory := tmp;
      Memset32(tmp, RW);
      EmptyDirectory(cpu.mem, page_directory / PAGE_SIZE);
      ret := K_SUCCESS;
    }

    /** allocate_page_table before early initialisation is done */
    method EarlyPageTable() returns (ret: KResult, phys: Word)
      requires Early()
      modifies cpu, early
      ensures Early() && |cpu.mem| == old(|cpu.mem|)
      ensures ret == if old(HasRoom()) then K_SUCCESS else K_OOM
      ensures SamePdes(old(cpu.mem), cpu.mem, page_directory / PAGE_SIZE)
      ensures SameWalks(old(cpu.mem), cpu.mem, page_directory / PAGE_SIZE, {})
      ensures ret == K_OOM ==> cpu.mem == old(cpu.mem) && early.kernel_heap_curpos == old(early.kernel_heap_curpos)
      ensures ret == K_SUCCESS ==>
                && phys % PAGE_SIZE == 0 && old(early.kernel_heap_curpos) <= phys
                && early.kernel_heap_curpos == phys + PAGE_SIZE
                && Unused(cpu.mem, page_directory / PAGE_SIZE, phys / PAGE_SIZE)
                && EmptyTable(cpu.mem, phys / PAGE_SIZE)
    {
      ghost var m, dir := cpu.mem, page_directory / PAGE_SIZE;
      phys := EarlyPage();
      if phys == 0 {
        return K_OOM, 0;
      }
      assert Unused(m, dir, phys / PAGE_SIZE);
      Memset32(phys, RW);
      StoreElsewhere(m, dir, phys / PAGE_SIZE, cpu.mem[phys / PAGE_SIZE]);
      ret := K_SUCCESS;
    }

    /**
     i386_identity_map_page before early initialisation is done. Without room for a table it maps nothing and returns
     the code K_OOM, 2, as if it were an entry.
     */
    method IdentityMapPage(address: Word, pt_flags: nat, pd_flags: nat) returns (page: Word)
      requires Early() && address % PAGE_SIZE == 0 && address / PAGE_SIZE < |cpu.mem|
      requires pt_flags < PAGE_SIZE && pd_flags < PAGE_SIZE && pt_flags % 2 == PRESENT && pd_flags % 2 == PRESENT
      modifies cpu, early, frames.bits.start
      ensures Early() && |cpu.mem| == old(|cpu.mem|)
      ensures var dir, p := page_directory / PAGE_SIZE, address / PAGE_SIZE;
              var had := old(Present(Pde(cpu.mem, dir, p / ENTRIES)));
              && (forall t :: 0 <= t < ENTRIES && t != p / ENTRIES ==> Pde(cpu.mem, dir, t) == old(Pde(cpu.mem, dir, t)))
              && SameWalks(old(cpu.mem), cpu.mem, dir, {p})
              && if had || old(HasRoom()) then
                   && page == Entry(p, pt_flags) && Walk(cpu.mem, dir, p) == Some(page)
                   && Present(Pde(cpu.mem, dir, p / ENTRIES)) && frames.View() == old(frames.View())[p := true]
                   && if had then Pde(cpu.mem, dir, p / ENTRIES) == old(Pde(cpu.mem, dir, p / ENTRIES))
                      else Pde(cpu.mem, dir, p / ENTRIES) % PAGE_SIZE == pd_flags
                 else
                   && page == 2 && cpu.mem == old(cpu.mem) && frames.View() == old(frames.View())
                   && early.kernel_heap_curpos == old(early.kernel_heap_curpos)
    {
      var page_index := address / PAGE_SIZE;
      var table_index := page_index / ENTRIES;
      var page_index_in_table := page_index % ENTRIES;
      var ok := EarlyEnsureTable(table_index, pd_flags);
      if !ok {
        return 2;
      }
      page := EarlyEnter(page_index, pt_flags);
      frames.bits.SetBit(page_index);
    }

    /** Make sure that table `t` exists. */
    method EarlyEnsureTable(t: nat, pd_flags: nat) returns (ok: bool)
      requires Early() && t < ENTRIES && pd_flags < PAGE_SIZE && pd_flags % 2 == PRESENT
      modifies cpu, early
      ensures Early() && |cpu.mem| == old(|cpu.mem|)
      ensures ok == (old(Present(Pde(cpu.mem, page_directory / PAGE_SIZE, t))) || old(HasRoom()))
      ensures ok ==> Present(Pde(cpu.mem, page_directory / PAGE_SIZE, t))
      ensures forall u :: 0 <= u < ENTRIES && u != t ==>
                Pde(cpu.mem, page_directory / PAGE_SIZE, u) == old(Pde(cpu.mem, page_directory / PAGE_SIZE, u))
      ensures SameWalks(old(cpu.mem), cpu.mem, page_directory / PAGE_SIZE, {})
      ensures var d, had := Pde(cpu.mem, page_directory / PAGE_SIZE, t), old(Pde(cpu.mem, page_directory / PAGE_SIZE, t));
              ok ==> if Present(had) then d == had
                     else d % PAGE_SIZE == pd_flags && old(early.kernel_heap_curpos) <= FrameOf(d) * PAGE_SIZE
      ensures !ok ==> cpu.mem == old(cpu.mem) && early.kernel_heap_curpos == old(early.kernel_heap_curpos)
    {
      ghost var dir := page_directory / PAGE_SIZE;
      var d := cpu.Load(page_directory / PAGE_SIZE, t, dir);
      EntryMasks(d);
      ok := true;
      if And(d, PRESENT) == 0 {
        var ret, pt_phys := EarlyPageTable();
        if ret != K_SUCCESS {
          return false;
        }
        ghost var m := cpu.mem;
        EntryIsOr(pt_phys, pd_flags);
        InstallTable(m, dir, t, pt_phys / PAGE_SIZE, Or(pt_phys, pd_flags));
        cpu.Store(page_directory / PAGE_SIZE, t, Or(pt_phys, pd_flags), dir);
      }
    }

    /** Enter the identity mapping of a page into its table. */
    method EarlyEnter(page_index: nat, pt_flags: nat) returns (page: Word)
      requires Early() && page_index < |cpu.mem| && pt_flags < PAGE_SIZE && pt_flags % 2 == PRESENT
      requires Present(Pde(cpu.mem, page_directory / PAGE_SIZE, page_index / ENTRIES))
      modifies cpu
      ensures Early() && |cpu.mem| == old(|cpu.mem|)
      ensures page == Entry(page_index, pt_flags)
      ensures SamePdes(old(cpu.mem), cpu.mem, page_directory / PAGE_SIZE)
      ensures SameWalks(old(cpu.mem), cpu.mem, page_directory / PAGE_SIZE, {page_index})
      ensures Walk(cpu.mem, page_directory / PAGE_SIZE, page_index) == Some(page)
    {
      ghost var m, dir := cpu.mem, page_directory / PAGE_SIZE;
      var d := cpu.Load(page_directory / PAGE_SIZE, page_index / ENTRIES, dir);
      EntryMasks(d);
      var pt_virt := And(d, 0xFFFF_F000);
      EntryIsOr(page_index * PAGE_SIZE, pt_flags);
      page := Or(page_index * PAGE_SIZE, pt_flags);
      StorePte(m, dir, page_index, page);
      cpu.Store(pt_virt / PAGE_SIZE, page_index % ENTRIES, page, FrameOf(d));
    }

    /** The loop of i386_paging_init: identity map the reserved area, if there is room for its table. */
    method MapReserved() returns (ghost mapped: bool)
      requires Early() && EmptyTable(cpu.mem, page_directory / PAGE_SIZE)
      modifies cpu, early, frames.bits.start
      ensures Early() && |cpu.mem| == old(|cpu.mem|) && mapped == old(HasRoom())
      ensures if mapped then
                && IdentityBelow(cpu.mem, page_directory / PAGE_SIZE, RESERVED_PAGES)
                && Writable(Pde(cpu.mem, page_directory / PAGE_SIZE, 0))
                && frames.View() == Fill(old(frames.View()), 0, RESERVED_PAGES, true)
              else cpu.mem == old(cpu.mem) && frames.View() == old(frames.View())
    {
      ghost var m, dir, v := cpu.mem, page_directory / PAGE_SIZE, frames.View();
      mapped := HasRoom();
      EmptyDirectory(m, dir);
      var i: Word := 0;
      while i < KVIRT_RESERVED
        invariant i <= KVIRT_RESERVED && i % PAGE_SIZE == 0 && Early() && |cpu.mem| == |m|
        invariant mapped ==>
                    && IdentityBelow(cpu.mem, dir, i / PAGE_SIZE)
                    && frames.View() == Fill(v, 0, i / PAGE_SIZE, true)
                    && if i == 0 then HasRoom() && !Present(Pde(cpu.mem, dir, 0)) else Writable(Pde(cpu.mem, dir, 0))
        invariant !mapped ==> cpu.mem == m && frames.View() == v && !HasRoom()
        decreases KVIRT_RESERVED - i
      {
        ghost var before := cpu.mem;
        WritableIsPresent(Pde(before, dir, 0));
        var page := IdentityMapPage(i, PRESENT + RW, PRESENT + RW);
        if mapped {
          IdentityGrows(before, cpu.mem, dir, i / PAGE_SIZE);
        }
        i := i + 0x1000;
      }
    }

    /**
     i386_paging_init; false stands for its PANIC. The result of the identity mapping is not looked at, so without room
     for the one page table paging is switched on over an empty directory.
     */
    method PagingInit() returns (ok: bool)
      requires Booting()
      modifies this, cpu, early, frames.bits.start
      ensures ok <==> old(early.kernel_heap_curpos) + 2 * PAGE_SIZE <= early.kernel_heap_start + EARLY_HEAP_MAXSIZE
      ensures ok ==> frames.Valid() && InRam(View().mem, View().dir)
      ensures ok ==> (Valid() <==> Place(old(early.kernel_heap_curpos), true) + 3 * PAGE_SIZE
                                   <= early.kernel_heap_start + EARLY_HEAP_MAXSIZE)
      ensures ok && Valid() ==>
                && View().window * PAGE_SIZE == early.kernel_heap_start + EARLY_HEAP_MAXSIZE + PAGE_SIZE
                && View().bits == View().base == Fill(old(frames.View()), 0, RESERVED_PAGES, true)
                && View().Tables() == map[] && Writable(Pde(View().mem, View().dir, 0))
                && (forall p :: p in View().Flat() <==> 0 <= p < RESERVED_PAGES && p != View().window)
                && forall p :: p in View().Flat() ==> View().Flat()[p] == Entry(p, PRESENT + RW)
    {
      var ret := MmuDataInit();
      if ret != K_SUCCESS {
        return false;
      }
      ghost var mapped := MapReserved();
      SwitchOn(mapped);
      ok := true;
    }

    /** The end of i386_paging_init. */
    method SwitchOn(ghost mapped: bool)
      requires Early()
      requires if mapped then
                 && IdentityBelow(cpu.mem, page_directory / PAGE_SIZE, RESERVED_PAGES)
                 && Writable(Pde(cpu.mem, page_directory / PAGE_SIZE, 0))
                 && forall f :: 0 <= f < RESERVED_PAGES ==> frames.View()[f]
               else EmptyTable(cpu.mem, page_directory / PAGE_SIZE)
      modifies this, cpu
      ensures frames.Valid() && InRam(View().mem, View().dir) && (Valid() <==> mapped)
      ensures View().window * PAGE_SIZE == early.kernel_heap_start + EARLY_HEAP_MAXSIZE + PAGE_SIZE
      ensures View().base == View().bits
      ensures mapped ==>
                && View().Tables() == map[] && Writable(Pde(View().mem, View().dir, 0))
                && (forall p :: p in View().Flat() <==> 0 <= p < RESERVED_PAGES && p != View().window)
                && forall p :: p in View().Flat() ==> View().Flat()[p] == Entry(p, PRESENT + RW)
    {
      cpu.LoadPageDir(page_directory / PAGE_SIZE);
      cpu.EnablePaging();
      var highest_page := early.kernel_heap_start + EARLY_HEAP_MAXSIZE;
      WINDOW_PAGE := highest_page + PAGE_SIZE;
      early_init_done := true;
      base := frames.View();
      if mapped {
        IdentityIsValid(View());
      }
      ValidParts();
    }

    // ----- Paging switched on

    /** What allocating a page table needs: memory has a bit per frame, frame 0 is taken, free frames hold no tables. */
    ghost predicate FreeFramesUnused()
      requires frames.Valid() && InRam(cpu.mem, page_directory / PAGE_SIZE)
      reads this, cpu, frames.bits.start
    {
      && |cpu.mem| == frames.bits.length && 32 <= frames.bits.length && frames.View()[0]
      && forall f :: 0 <= f < frames.bits.length && !frames.View()[f] ==>
           Unused(cpu.mem, page_directory / PAGE_SIZE, f)
    }

    /** allocate_page_table after early initialisation */
    method AllocatePageTable() returns (ret: KResult, phys: Word)
      requires Ready() && cpu.Coherent({}) && FreeFramesUnused()
      modifies cpu, frames.bits.start
      ensures Ready() == old(Ready()) && cpu.Coherent({}) && |cpu.mem| == old(|cpu.mem|)
      ensures SamePdes(old(cpu.mem), cpu.mem, cpu.cr3)
      ensures SameWalks(old(cpu.mem), cpu.mem, cpu.cr3, {WINDOW_PAGE / PAGE_SIZE})
      ensures ret == K_OOM ==>
                cpu.mem == old(cpu.mem) && frames.View() == old(frames.View()) && Available(frames.View()) == 0
      ensures ret != K_OOM ==>
                && ret == K_SUCCESS && phys % PAGE_SIZE == 0
                && TookFrame(old(frames.View()), frames.View(), phys / PAGE_SIZE)
                && Unused(cpu.mem, cpu.cr3, phys / PAGE_SIZE) && EmptyTable(cpu.mem, phys / PAGE_SIZE)
                && Kept(old(cpu.mem), cpu.mem, cpu.cr3, {phys / PAGE_SIZE})
    {
      var frame := TakeUnused();
      if frame == 0 {
        return K_OOM, 0;
      }
      phys := frame * PAGE_SIZE;
      EmptyFrame(phys, frame);
      ret := K_SUCCESS;
    }

    /** mem_allocate_frame where free frames hold no tables. */
    method TakeUnused() returns (frame: Word)
      requires Ready() && FreeFramesUnused()
      modifies frames.bits.start
      ensures Ready() && FreeFramesUnused()
      ensures frame == 0 ==> frames.View() == old(frames.View()) && Available(frames.View()) == 0
      ensures frame != 0 ==>
                && frame < PAGES && TookFrame(old(frames.View()), frames.View(), frame)
                && Unused(cpu.mem, cpu.cr3, frame)
    {
      frame := frames.AllocateFrame();
      ZeroMeansExhausted(old(frames.View()), frame);
    }

    /** Show the new frame in the window and write an empty table there. */
    method EmptyFrame(phys: Word, ghost frame: nat)
      requires Ready() && cpu.Coherent({}) && phys == frame * PAGE_SIZE && Unused(cpu.mem, cpu.cr3, frame)
      modifies cpu
      ensures Ready() == old(Ready()) && cpu.Coherent({}) && |cpu.mem| == old(|cpu.mem|)
      ensures SamePdes(old(cpu.mem), cpu.mem, cpu.cr3)
      ensures SameWalks(old(cpu.mem), cpu.mem, cpu.cr3, {WINDOW_PAGE / PAGE_SIZE})
      ensures Unused(cpu.mem, cpu.cr3, frame) && EmptyTable(cpu.mem, frame)
      ensures Kept(old(cpu.mem), cpu.mem, cpu.cr3, {frame})
    {
      var virt := GetVirtPtr(phys);
      ghost var m := cpu.mem;
      ClearTable(virt, frame);
      KeptTwice(old(cpu.mem), m, cpu.mem, cpu.cr3, {frame});
    }

    /** memset32(virt, PT_RW, 1024) through the window */
    method ClearTable(virt: Word, ghost frame: nat)
      requires Ready() && cpu.Coherent({}) && virt == WINDOW_PAGE && cpu.Reaches(virt / PAGE_SIZE, frame)
      requires Unused(cpu.mem, cpu.cr3, frame)
      modifies cpu
      ensures Ready() == old(Ready()) && cpu.Coherent({}) && |cpu.mem| == old(|cpu.mem|)
      ensures SamePdes(old(cpu.mem), cpu.mem, cpu.cr3) && SameWalks(old(cpu.mem), cpu.mem, cpu.cr3, {})
      ensures Unused(cpu.mem, cpu.cr3, frame) && EmptyTable(cpu.mem, frame)
      ensures Kept(old(cpu.mem), cpu.mem, cpu.cr3, {frame})
    {
      ghost var s := View();
      StoreElsewhere(s.mem, s.dir, frame, s.mem[frame]);
      for i := 0 to ENTRIES
        invariant frames.Valid() && |cpu.mem| == |s.mem| && View() == s.(mem := s.mem[frame := cpu.mem[frame]])
        invariant early_init_done && cpu.paging && cpu.cr3 == s.dir
        invariant virt == WINDOW_PAGE && page_directory % PAGE_SIZE == 0 && WINDOW_PAGE % PAGE_SIZE == 0
        invariant cpu.Coherent({})
        invariant forall k :: 0 <= k < i ==> cpu.mem[frame][k] == RW
        invariant SameWalks(s.mem, cpu.mem, s.dir, {})
      {
        cpu.Store(virt / PAGE_SIZE, i, RW, frame);
        StoreElsewhere(s.mem, s.dir, frame, cpu.mem[frame]);
      }
      StoreElsewhere(s.mem, s.dir, frame, cpu.mem[frame]);
      StaysAddressable(s, View());
    }

    /** Put the directory in the window and see whether table `t` is present. */
    method FindTable(t: nat) returns (present: bool, pd_virt: Word)
      requires Ready() && cpu.Coherent({}) && t < ENTRIES
      modifies cpu
      ensures Ready() == old(Ready()) && cpu.Coherent({}) && |cpu.mem| == old(|cpu.mem|)
      ensures pd_virt == WINDOW_PAGE && cpu.Reaches(pd_virt / PAGE_SIZE, cpu.cr3)
      ensures SamePdes(old(cpu.mem), cpu.mem, cpu.cr3)
      ensures SameWalks(old(cpu.mem), cpu.mem, cpu.cr3, {WINDOW_PAGE / PAGE_SIZE})
      ensures Kept(old(cpu.mem), cpu.mem, cpu.cr3, {})
      ensures present == Present(Pde(cpu.mem, cpu.cr3, t))
    {
      pd_virt := GetVirtPtr(page_directory);
      var d := cpu.Load(pd_virt / PAGE_SIZE, t, cpu.cr3);
      EntryMasks(d);
      present := And(d, PRESENT) != 0;
    }

    /**
     Make sure that table `t` exists, as i386_allocate_page does. The directory is then in the window.
     */
    method EnsureTable(t: nat, pd_flags: nat) returns (ret: KResult, pd_virt: Word)
      requires Ready() && cpu.Coherent({}) && FreeFramesUnused()
      requires t < ENTRIES && pd_flags < PAGE_SIZE && pd_flags % 2 == PRESENT
      modifies cpu, frames.bits.start
      ensures Ready() == old(Ready()) && cpu.Coherent({}) && |cpu.mem| == old(|cpu.mem|)
      ensures pd_virt == WINDOW_PAGE && cpu.Reaches(WINDOW_PAGE / PAGE_SIZE, cpu.cr3)
      ensures SameWalks(old(cpu.mem), cpu.mem, cpu.cr3, {WINDOW_PAGE / PAGE_SIZE})
      ensures Kept(old(cpu.mem), cpu.mem, cpu.cr3, {})
      ensures forall u :: 0 <= u < ENTRIES && u != t ==> Pde(cpu.mem, cpu.cr3, u) == old(Pde(cpu.mem, cpu.cr3, u))
      ensures ret == K_SUCCESS || ret == K_OOM
      ensures ret == K_SUCCESS ==> Present(Pde(cpu.mem, cpu.cr3, t))
      ensures old(Present(Pde(cpu.mem, cpu.cr3, t))) ==> ret == K_SUCCESS
      ensures old(Present(Pde(cpu.mem, cpu.cr3, t))) || ret == K_OOM ==>
                frames.View() == old(frames.View()) && Pde(cpu.mem, cpu.cr3, t) == old(Pde(cpu.mem, cpu.cr3, t))
      ensures ret == K_OOM ==> Available(frames.View()) == 0
      ensures ret == K_SUCCESS && !old(Present(Pde(cpu.mem, cpu.cr3, t))) ==>
                var e := Pde(cpu.mem, cpu.cr3, t);
                e % PAGE_SIZE == pd_flags && TookFrame(old(frames.View()), frames.View(), FrameOf(e))
    {
      var present;
      present, pd_virt := FindTable(t);
      ret := K_SUCCESS;
      if !present {
        ghost var m := cpu.mem;
        var pt_phys;
        ret, pt_phys := AllocatePageTable();
        if ret != K_SUCCESS {
          return;
        }
        ghost var m1 := cpu.mem;
        pd_virt := EnterTable(t, pt_phys, pd_flags);
        KeptTwice(old(cpu.mem), m, m1, cpu.cr3, {pt_phys / PAGE_SIZE});
        KeptTwice(old(cpu.mem), m1, cpu.mem, cpu.cr3, {pt_phys / PAGE_SIZE});
        KeptAll(old(cpu.mem), cpu.mem, cpu.cr3, pt_phys / PAGE_SIZE);
      }
    }

    /** The window must be moved back to the directory before the new table is entered. */
    method EnterTable(t: nat, pt_phys: Word, pd_flags: nat) returns (pd_virt: Word)
      requires Ready() && cpu.Coherent({}) && t < ENTRIES && pd_flags < PAGE_SIZE && pd_flags % 2 == PRESENT
      requires !Present(Pde(cpu.mem, cpu.cr3, t)) && pt_phys % PAGE_SIZE == 0
      requires Unused(cpu.mem, cpu.cr3, pt_phys / PAGE_SIZE) && EmptyTable(cpu.mem, pt_phys / PAGE_SIZE)
      modifies cpu
      ensures Ready() == old(Ready()) && cpu.Coherent({}) && |cpu.mem| == old(|cpu.mem|)
      ensures pd_virt == WINDOW_PAGE && cpu.Reaches(WINDOW_PAGE / PAGE_SIZE, cpu.cr3)
      ensures SameWalks(old(cpu.mem), cpu.mem, cpu.cr3, {WINDOW_PAGE / PAGE_SIZE})
      ensures Kept(old(cpu.mem), cpu.mem, cpu.cr3, {})
      ensures forall u :: 0 <= u < ENTRIES && u != t ==> Pde(cpu.mem, cpu.cr3, u) == old(Pde(cpu.mem, cpu.cr3, u))
      ensures pt_phys / PAGE_SIZE < PAGES && Pde(cpu.mem, cpu.cr3, t) == Entry(pt_phys / PAGE_SIZE, pd_flags)
      ensures Present(Pde(cpu.mem, cpu.cr3, t))
    {
      ghost var frame := pt_phys / PAGE_SIZE;
      assert frame != View().WindowTable();
      pd_virt := GetVirtPtr(page_directory);
      ghost var s := View();
      EntryIsOr(pt_phys, pd_flags);
      assert EmptyTable(s.mem, frame) && Unused(s.mem, s.dir, frame);
      InstallTable(s.mem, s.dir, t, frame, Or(pt_phys, pd_flags));
      cpu.Store(pd_virt / PAGE_SIZE, t, Or(pt_phys, pd_flags), s.dir);
      StaysAddressable(s, View());
      KeptTwice(old(cpu.mem), s.mem, cpu.mem, s.dir, {});
    }

    /** `get_virt_ptr(TABLE_IN_DIR(t, pd_virt))`: move the window from the directory to table `t`. */
    method OpenTable(t: nat, pd_virt: Word) returns (pt_virt: Word)
      requires Ready() && cpu.Coherent({}) && t < ENTRIES && Present(Pde(cpu.mem, cpu.cr3, t))
      requires cpu.Reaches(pd_virt / PAGE_SIZE, cpu.cr3)
      modifies cpu
      ensures Ready() == old(Ready()) && cpu.Coherent({}) && pt_virt == WINDOW_PAGE && |cpu.mem| == old(|cpu.mem|)
      ensures SamePdes(old(cpu.mem), cpu.mem, cpu.cr3)
      ensures SameWalks(old(cpu.mem), cpu.mem, cpu.cr3, {WINDOW_PAGE / PAGE_SIZE})
      ensures Kept(old(cpu.mem), cpu.mem, cpu.cr3, {})
      ensures cpu.Reaches(pt_virt / PAGE_SIZE, FrameOf(Pde(cpu.mem, cpu.cr3, t)))
    {
      var d := cpu.Load(pd_virt / PAGE_SIZE, t, cpu.cr3);
      EntryMasks(d);
      pt_virt := GetVirtPtr(And(d, 0xFFFF_F000));
    }

    /** Read the entry of a page whose table is present; the table stays in the window. */
    method ReadEntry(page: nat, pd_virt: Word) returns (pt_virt: Word, e: Word)
      requires Ready() && cpu.Coherent({}) && page < PAGES && Present(Pde(cpu.mem, cpu.cr3, page / ENTRIES))
      requires cpu.Reaches(pd_virt / PAGE_SIZE, cpu.cr3)
      modifies cpu
      ensures Ready() == old(Ready()) && cpu.Coherent({}) && pt_virt == WINDOW_PAGE && |cpu.mem| == old(|cpu.mem|)
      ensures SamePdes(old(cpu.mem), cpu.mem, cpu.cr3)
      ensures SameWalks(old(cpu.mem), cpu.mem, cpu.cr3, {WINDOW_PAGE / PAGE_SIZE})
      ensures Kept(old(cpu.mem), cpu.mem, cpu.cr3, {})
      ensures cpu.Reaches(pt_virt / PAGE_SIZE, FrameOf(Pde(cpu.mem, cpu.cr3, page / ENTRIES)))
      ensures Plain(e) && Walk(cpu.mem, cpu.cr3, page) == if Present(e) then Some(e) else None
    {
      pt_virt := OpenTable(page / ENTRIES, pd_virt);
      e := cpu.Load(pt_virt / PAGE_SIZE, page % ENTRIES, FrameOf(Pde(cpu.mem, cpu.cr3, page / ENTRIES)));
    }

    /** Store an entry in the table that the window shows. */
    method PutEntry(page: nat, e: Word, pt_virt: Word)
      requires Ready() && cpu.Coherent({}) && page < PAGES && Plain(e)
      requires page != WINDOW_PAGE / PAGE_SIZE && RESERVED_PAGES <= page
      requires Present(Pde(cpu.mem, cpu.cr3, page / ENTRIES))
      requires cpu.Reaches(pt_virt / PAGE_SIZE, FrameOf(Pde(cpu.mem, cpu.cr3, page / ENTRIES)))
      modifies cpu
      ensures Ready() == old(Ready()) && cpu.Coherent({page}) && |cpu.mem| == old(|cpu.mem|)
      ensures old(Walk(cpu.mem, cpu.cr3, page)) == None ==> cpu.Coherent({})
      ensures SamePdes(old(cpu.mem), cpu.mem, cpu.cr3) && SameWalks(old(cpu.mem), cpu.mem, cpu.cr3, {page})
      ensures Kept(old(cpu.mem), cpu.mem, cpu.cr3, {})
      ensures Walk(cpu.mem, cpu.cr3, page) == if Present(e) then Some(e) else None
    {
      ghost var s := View();
      StorePte(s.mem, s.dir, page, e);
      cpu.Store(pt_virt / PAGE_SIZE, page % ENTRIES, e, FrameOf(Pde(s.mem, s.dir, page / ENTRIES)));
      EntryKeepsAddressable(s, View(), page);
    }

    /** The last part of i386_allocate_page, once the table exists. */
    method MapInTable(page_index: nat, frame: nat, pt_flags: nat, pd_virt: Word) returns (out: Word)
      requires Ready() && cpu.Coherent({}) && RESERVED_PAGES <= page_index < PAGES && frame < PAGES
      requires page_index != WINDOW_PAGE / PAGE_SIZE && Present(Pde(cpu.mem, cpu.cr3, page_index / ENTRIES))
      requires cpu.Reaches(pd_virt / PAGE_SIZE, cpu.cr3) && pt_flags < PAGE_SIZE && pt_flags % 2 == PRESENT
      modifies cpu
      ensures Ready() == old(Ready()) && cpu.Coherent({page_index}) && |cpu.mem| == old(|cpu.mem|)
      ensures old(Walk(cpu.mem, cpu.cr3, page_index)) == None ==> cpu.Coherent({})
      ensures SamePdes(old(cpu.mem), cpu.mem, cpu.cr3)
      ensures SameWalks(old(cpu.mem), cpu.mem, cpu.cr3, {WINDOW_PAGE / PAGE_SIZE, page_index})
      ensures Kept(old(cpu.mem), cpu.mem, cpu.cr3, {})
      ensures Walk(cpu.mem, cpu.cr3, page_index) == Some(Entry(frame, pt_flags))
      ensures out % PAGE_SIZE == 0 && out / PAGE_SIZE == frame
    {
      var pt_virt := OpenTable(page_index / ENTRIES, pd_virt);
      var phys := frame * PAGE_SIZE;
      EntryIsOr(phys, pt_flags);
      var page := Or(phys, pt_flags);
      ghost var m := cpu.mem;
      PutEntry(page_index, page, pt_virt);
      KeptTwice(old(cpu.mem), m, cpu.mem, cpu.cr3, {});
      EntryMasks(page);
      out := And(page, 0xFFFF_F000);
    }

    /** i386_allocate_page from the point where `frame` has been taken; `s` is the state before that. */
    method MapFrame(ghost s: Space, page_index: nat, frame: nat, pt_flags: nat, pd_flags: nat)
        returns (ret: KResult, out: Word)
      requires Ready() && cpu.Coherent({}) && FreeFramesUnused()
      requires s.Valid() && LeastFree(s.bits, frame) && View() == s.(bits := s.bits[frame := true])
      requires RESERVED_PAGES <= page_index < PAGES && page_index != s.window
      requires pt_flags < PAGE_SIZE && pd_flags < PAGE_SIZE && pt_flags % 2 == PRESENT && pd_flags % 2 == PRESENT
      modifies cpu, frames.bits.start
      ensures Ready() == old(Ready()) && cpu.Coherent({page_index})
      ensures ret == K_SUCCESS || ret == K_OOM
      ensures ret == K_OOM ==>
                && View().Flat() == s.Flat() && View().Tables() == s.Tables() && frames.View() == s.bits
      ensures ret == K_SUCCESS ==>
                && out % PAGE_SIZE == 0 && out / PAGE_SIZE == frame
                && PageAllocated(s, View(), page_index, frame, pt_flags, pd_flags)
      ensures ret == K_OOM || page_index !in s.Flat() ==> cpu.Coherent({})
      ensures DataKept(s, View())
      ensures View().Valid() <==> ret == K_OOM || page_index !in s.Flat()
      ensures ret == K_SUCCESS <==> HasTable(s, page_index) || Available(s.bits[frame := true]) > 0
      ensures ret == K_SUCCESS ==>
                Available(frames.View()) == Available(s.bits[frame := true]) - if HasTable(s, page_index) then 0 else 1
    {
      var pd_virt;
      ret, pd_virt := EnsureTable(page_index / ENTRIES, pd_flags);
      if ret != K_SUCCESS {
        GiveBack(s, frame);
        return ret, 0;
      }
      out := MapHere(s, page_index, frame, pt_flags, pd_flags, pd_virt);
    }

    /** No frame was left for a page table: `frame` is given back. */
    method GiveBack(ghost s: Space, frame: nat)
      requires Ready() && cpu.Coherent({}) && |cpu.mem| == |s.mem| && frame < |s.bits| && s.Valid() && !s.bits[frame]
      requires View() == s.(mem := cpu.mem, bits := s.bits[frame := true])
      requires SamePdes(s.mem, cpu.mem, s.dir) && SameWalks(s.mem, cpu.mem, s.dir, {s.window})
      requires Kept(s.mem, cpu.mem, s.dir, {})
      modifies frames.bits.start
      ensures Ready() == old(Ready()) && cpu.Coherent({}) && View().Valid() && DataKept(s, View())
      ensures View().Flat() == s.Flat() && View().Tables() == s.Tables() && frames.View() == s.bits
    {
      frames.FreeFrame(frame);
      AllocationUndone(s, View());
    }

    /** The table of page `page_index` exists and the directory is in the window. */
    method MapHere(ghost s: Space, page_index: nat, frame: nat, pt_flags: nat, ghost pd_flags: nat, pd_virt: Word)
        returns (out: Word)
      requires Ready() && cpu.Coherent({}) && |cpu.mem| == |s.mem| && View() == s.(mem := cpu.mem, bits := frames.View())
      requires s.Valid() && LeastFree(s.bits, frame)
      requires RESERVED_PAGES <= page_index < PAGES && page_index != s.window
      requires pt_flags < PAGE_SIZE && pd_flags < PAGE_SIZE && pt_flags % 2 == PRESENT && pd_flags % 2 == PRESENT
      requires SameWalks(s.mem, cpu.mem, s.dir, {s.window}) && Kept(s.mem, cpu.mem, s.dir, {})
      requires cpu.Reaches(pd_virt / PAGE_SIZE, cpu.cr3) && TableEnsured(s, View(), page_index, frame, pd_flags)
      modifies cpu
      ensures Ready() == old(Ready()) && cpu.Coherent({page_index})
      ensures out % PAGE_SIZE == 0 && out / PAGE_SIZE == frame
      ensures PageAllocated(s, View(), page_index, frame, pt_flags, pd_flags)
      ensures page_index !in s.Flat() ==> cpu.Coherent({})
      ensures DataKept(s, View())
      ensures View().Valid() <==> page_index !in s.Flat()
    {
      ghost var m := cpu.mem;
      out := MapInTable(page_index, frame, pt_flags, pd_virt);
      KeptTwice(s.mem, m, cpu.mem, s.dir, {});
      AllocationSteps(s, View(), page_index, frame, pt_flags, pd_flags);
    }

    /** i386_mem_allocate_frame with paging on: the frame taken is searched for among frames that nothing uses. */
    method TakeFrame() returns (frame: nat)
      requires Valid()
      modifies frames.bits.start
      ensures Ready() && cpu.Coherent({}) && old(View()).Valid()
      ensures frame == 0 <==> old(Available(frames.View())) == 0
      ensures frame == 0 ==> View() == old(View())
      ensures frame != 0 ==>
                && FreeFramesUnused() && TookFrame(old(frames.View()), frames.View(), frame)
                && View() == old(View()).(bits := old(frames.View())[frame := true])
    {
      ValidParts();
      ghost var s := View();
      frame := frames.AllocateFrame();
      ZeroMeansExhausted(s.bits, frame);
      FreeFramesAreUnused(s);
    }

    /** i386_allocate_page; on success `out` is the frame's address. */
    method AllocatePage(address: Word, pt_flags: nat, pd_flags: nat) returns (ret: KResult, out: Word)
      requires Valid() && address % PAGE_SIZE == 0
      requires RESERVED_PAGES <= address / PAGE_SIZE && address / PAGE_SIZE != View().window
      requires pt_flags < PAGE_SIZE && pd_flags < PAGE_SIZE && pt_flags % 2 == PRESENT && pd_flags % 2 == PRESENT
      modifies cpu, frames.bits.start
      ensures InRam(View().mem, View().dir) && Ready() && cpu.Coherent({address / PAGE_SIZE})
      ensures ret == K_SUCCESS || ret == K_OOM
      ensures ret == K_OOM ==>
                && View().Flat() == old(View().Flat()) && View().Tables() == old(View().Tables())
                && frames.View() == old(frames.View())
      ensures ret == K_SUCCESS ==>
                && out % PAGE_SIZE == 0
                && PageAllocated(old(View()), View(), address / PAGE_SIZE, out / PAGE_SIZE, pt_flags, pd_flags)
      ensures DataKept(old(View()), View())
      ensures ret == K_OOM || address / PAGE_SIZE !in old(View().Flat()) ==> cpu.Coherent({})
      ensures View().Valid() <==> ret == K_OOM || address / PAGE_SIZE !in old(View().Flat())
      ensures ret == K_SUCCESS <==>
              old(Available(frames.View())) >= if old(HasTable(View(), address / PAGE_SIZE)) then 1 else 2
      ensures ret == K_SUCCESS ==>
                Available(frames.View()) ==
                old(Available(frames.View())) - if old(HasTable(View(), address / PAGE_SIZE)) then 1 else 2
    {
      var page_index := address / PAGE_SIZE;
      ghost var s := View();
      var frame := TakeFrame();
      if frame == 0 {
        return K_OOM, 0;
      }
      ret, out := MapFrame(s, page_index, frame, pt_flags, pd_flags);
    }

    /** Read an entry and replace it by PT_RW, "not present". */
    method TakeEntry(page: nat, pd_virt: Word) returns (e: Word)
      requires Ready() && cpu.Coherent({}) && RESERVED_PAGES <= page < PAGES && page != WINDOW_PAGE / PAGE_SIZE
      requires cpu.Reaches(pd_virt / PAGE_SIZE, cpu.cr3) && Present(Pde(cpu.mem, cpu.cr3, page / ENTRIES))
      modifies cpu
      ensures Ready() == old(Ready()) && cpu.Coherent({page}) && |cpu.mem| == old(|cpu.mem|)
      ensures SamePdes(old(cpu.mem), cpu.mem, cpu.cr3)
      ensures SameWalks(old(cpu.mem), cpu.mem, cpu.cr3, {WINDOW_PAGE / PAGE_SIZE, page})
      ensures Kept(old(cpu.mem), cpu.mem, cpu.cr3, {})
      ensures Plain(e) && old(Walk(cpu.mem, cpu.cr3, page)) == if Present(e) then Some(e) else None
      ensures Walk(cpu.mem, cpu.cr3, page) == None
    {
      var pt_virt;
      pt_virt, e := ReadEntry(page, pd_virt);
      ghost var m := cpu.mem;
      PutEntry(page, RW, pt_virt);
      KeptTwice(old(cpu.mem), m, cpu.mem, cpu.cr3, {});
    }

    /** i386_free_page from the point where the page's table has been found; `s` is the state before the call. */
    method RemovePage(ghost s: Space, page: nat, pd_virt: Word)
      requires Ready() && cpu.Coherent({}) && s.Valid() && View() == s.(mem := cpu.mem) && |cpu.mem| == |s.mem|
      requires RESERVED_PAGES <= page < PAGES && page != s.window && HasTable(s, page)
      requires SamePdes(s.mem, cpu.mem, cpu.cr3) && SameWalks(s.mem, cpu.mem, cpu.cr3, {s.window})
      requires Kept(s.mem, cpu.mem, cpu.cr3, {}) && cpu.Reaches(pd_virt / PAGE_SIZE, cpu.cr3)
      modifies cpu, frames.bits.start
      ensures Ready() == old(Ready()) && cpu.Coherent({})
      ensures PageFreed(s, View(), page) && (View().Valid() <==> page in s.Flat()) && DataKept(s, View())
    {
      ghost var m := cpu.mem;
      var e := TakeEntry(page, pd_virt);
      KeptTwice(s.mem, m, cpu.mem, s.dir, {});
      FreedFrameIsMarked(s, page, e);
      var phys_addr_index := e / PAGE_SIZE;
      frames.bits.ClearBit(phys_addr_index);
      cpu.Invlpg(page);
      FreeingSteps(s, View(), page, e);
    }

    /**
     i386_free_page. A page that is absent although its table exists is "freed" too: the code then clears frame 0,
     the allocator's out-of-memory sentinel.
     */
    method FreePage(address: Word) returns (ret: KResult)
      requires Valid() && address % PAGE_SIZE == 0
      requires RESERVED_PAGES <= address / PAGE_SIZE && address / PAGE_SIZE != View().window
      modifies cpu, frames.bits.start
      ensures InRam(View().mem, View().dir) && Ready() && cpu.Coherent({})
      ensures PageFreed(old(View()), View(), address / PAGE_SIZE) && DataKept(old(View()), View())
      ensures ret == if old(HasTable(View(), address / PAGE_SIZE)) then K_SUCCESS else K_INVALOP
      ensures View().Valid() <==> address / PAGE_SIZE in old(View().Flat()) || ret == K_INVALOP
    {
      ValidParts();
      var page_index := address / PAGE_SIZE;
      ghost var s := View();
      var present, pd_virt := FindTable(page_index / ENTRIES);
      if !present {
        NothingFreed(s, View(), page_index);
        return K_INVALOP;
      }
      RemovePage(s, page_index, pd_virt);
      ret := K_SUCCESS;
    }

    /** i386_page_get_phys, for every page: what the flat map holds. The window itself ends up showing its own table. */
    method PageGetPhys(address: Word) returns (phys: Word)
      requires Valid()
      modifies cpu
      ensures Valid() == old(Valid()) && View().Flat() == old(View().Flat()) && View().Tables() == old(View().Tables())
      ensures phys == PhysOf(old(View()), address / PAGE_SIZE) && DataKept(old(View()), View())
    {
      ValidParts();
      var page_index := address / PAGE_SIZE;
      ghost var s := View();
      var present, pd_virt := FindTable(page_index / ENTRIES);
      if !present {
        LookupSteps(s, View(), page_index, None);
        ValidParts();
        return 0;
      }
      var page := LookUp(s, page_index);
      ValidParts();
      EntryMasks(page);
      if And(page, PRESENT) == 0 {
        return 0;
      }
      phys := And(page, 0xFFFF_F000);
    }

    /** The entry of a page whose table is present; `s` is the state before the directory was read. */
    method LookUp(ghost s: Space, page: nat) returns (e: Word)
      requires Ready() && cpu.Coherent({}) && s.Valid() && |cpu.mem| == |s.mem| && View() == s.(mem := cpu.mem)
      requires SamePdes(s.mem, cpu.mem, s.dir) && SameWalks(s.mem, cpu.mem, s.dir, {s.window})
      requires Kept(s.mem, cpu.mem, s.dir, {}) && page < PAGES && HasTable(s, page)
      requires cpu.Reaches(page_directory / PAGE_SIZE, cpu.cr3)
      modifies cpu
      ensures Ready() == old(Ready()) && cpu.Coherent({}) && View() == s.(mem := cpu.mem)
      ensures View().Valid() && View().Flat() == s.Flat() && View().Tables() == s.Tables() && DataKept(s, View())
      ensures Plain(e) && PhysOf(s, page) == if Present(e) then FrameOf(e) * PAGE_SIZE else 0
    {
      ghost var m := cpu.mem;
      var pt_virt;
      pt_virt, e := ReadEntry(page, page_directory);
      KeptTwice(s.mem, m, cpu.mem, s.dir, {});
      LookupSteps(s, View(), page, Some(e));
    }

    // ----- Ordinary memory accesses

    /** A store by the kernel to one of its own pages. */
    method WriteWord(addr: Word, w: Word)
      requires Valid() && addr % 4 == 0 && Usable(View(), addr)
      modifies cpu
      ensures Valid() == old(Valid()) && InRam(View().mem, View().dir) && View() == old(View()).(mem := cpu.mem)
      ensures View().Flat() == old(View().Flat()) && View().Tables() == old(View().Tables())
      ensures KeptBut(old(View()), View(), addr, addr + 4) && WordAt(View(), addr) == w
    {
      ValidParts();
      ghost var s, frame := View(), FrameOf(View().Flat()[addr / PAGE_SIZE]);
      StoreWord(s, addr, w);
      StoreKeepsWalks(s, addr / PAGE_SIZE, addr % PAGE_SIZE / 4, w);
      cpu.Store(addr / PAGE_SIZE, addr % PAGE_SIZE / 4, w, frame);
      assert View() == s.(mem := cpu.mem);
      ValidParts();
    }

    /** Stores to consecutive words. */
    method WriteWords(addr: Word, words: seq<Word>)
      requires Valid() && Storable(View(), addr, |words|)
      modifies cpu
      ensures Valid() == old(Valid()) && InRam(View().mem, View().dir) && View() == old(View()).(mem := cpu.mem)
      ensures View().Flat() == old(View().Flat()) && View().Tables() == old(View().Tables())
      ensures KeptBut(old(View()), View(), addr, addr + 4 * |words|) && Holds(View(), addr, words)
    {
      ghost var s := View();
      for i := 0 to |words|
        invariant Valid() && View() == s.(mem := cpu.mem)
        invariant View().Flat() == s.Flat() && View().Tables() == s.Tables()
        invariant KeptBut(s, View(), addr, addr + 4 * |words|) && Holds(View(), addr, words[..i])
      {
        ghost var s1 := View();
        WriteWord(addr + 4 * i, words[i]);
        WordsAdded(s, s1, View(), addr, words, i);
      }
      assert words[..|words|] == words;
    }

    /** __i386_kpage_allocate */
    method KpageAllocate(addr: Word, flags: nat) returns (ret: KResult, ghost frame: nat)
      requires Valid() && addr % PAGE_SIZE == 0 && RESERVED_PAGES <= addr / PAGE_SIZE && addr / PAGE_SIZE != View().window
      requires flags < PAGE_SIZE && flags % 2 == PRESENT
      modifies cpu, frames.bits.start
      ensures ret == K_SUCCESS || ret == K_OOM
      ensures Valid() <==> ret == K_OOM || addr / PAGE_SIZE !in old(View().Flat())
      ensures InRam(View().mem, View().dir) && DataKept(old(View()), View())
      ensures addr / PAGE_SIZE !in old(View().Flat()) ==> MemoryKept(old(View()), View())
      ensures ret == K_OOM ==>
                && View().Flat() == old(View().Flat()) && View().Tables() == old(View().Tables())
                && frames.View() == old(frames.View())
      ensures ret == K_SUCCESS ==>
                frame < PAGES && PageAllocated(old(View()), View(), addr / PAGE_SIZE, frame, flags, flags)
      ensures ret == K_SUCCESS <==>
              old(Available(frames.View())) >= if old(HasTable(View(), addr / PAGE_SIZE)) then 1 else 2
      ensures ret == K_SUCCESS ==>
                Available(frames.View()) ==
                old(Available(frames.View())) - if old(HasTable(View(), addr / PAGE_SIZE)) then 1 else 2
    {
      ValidParts();
      ghost var s := View();
      var out;
      ret, out := AllocatePage(addr, flags, flags);
      if addr / PAGE_SIZE !in s.Flat() {
        AddedOnly(s, View());
      }
      frame := out / PAGE_SIZE;
      ValidParts();
    }

    /** __i386_kpage_free */
    method KpageFree(addr: Word) returns (ret: KResult)
      requires Valid() && addr % PAGE_SIZE == 0 && RESERVED_PAGES <= addr / PAGE_SIZE && addr / PAGE_SIZE != View().window
      modifies cpu, frames.bits.start
      ensures InRam(View().mem, View().dir) && DataKept(old(View()), View())
      ensures PageFreed(old(View()), View(), addr / PAGE_SIZE)
      ensures ret == if old(HasTable(View(), addr / PAGE_SIZE)) then K_SUCCESS else K_INVALOP
      ensures Valid() <==> addr / PAGE_SIZE in old(View().Flat()) || ret == K_INVALOP
    {
      ValidParts();
      ret := FreePage(addr);
      ValidParts();
    }
  }

  /** `phys | PT_PRESENT | PT_RW` */
  lemma {:induction false} EntryFlags(phys: Word)
    requires phys % PAGE_SIZE == 0
    ensures phys / PAGE_SIZE < PAGES && Or(Or(phys, PRESENT), RW) == Entry(phys / PAGE_SIZE, PRESENT + RW)
  {
    assert phys % 4 == 0;
    OrOneTwo(phys);
  }

  lemma IdentityMapped(s: Space, p: nat)
    requires s.Addressable() && p < RESERVED_PAGES && p != s.window
    ensures InRam(s.mem, p) && Walk(s.mem, s.dir, p).Some? && FrameOf(Walk(s.mem, s.dir, p).value) == p
  {
  }

  /** The frame number that i386_free_page reads from an entry has a bit in the bit vector. */
  lemma FreedFrameIsMarked(s: Space, page: nat, e: Word)
    requires s.Valid() && RESERVED_PAGES <= page < PAGES && page != s.window && Plain(e)
    requires Walk(s.mem, s.dir, page) == if Present(e) then Some(e) else None
    ensures FrameOf(e) < |s.bits|
  {
    if Present(e) {
      assert s.Flat()[page] == e;
    }
  }
}
