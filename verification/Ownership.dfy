/**
 Frame ownership: which frame backs a page, which holds a page table, and which was reserved at boot.

 A `Space` is everything the paging code's correctness depends on, as one value: memory, the frame of the page
 directory, the window page, the frame bit vector, and the frames that were marked when paging was switched on.
 */
module Ownership {
  import opened Words
  import opened Layout
  import opened FrameAllocator
  import opened PageTables

  datatype Space = Space(mem: Mem, dir: nat, window: nat, bits: seq<bool>, base: seq<bool>) {

    /**
     What reaching a paging structure through the window relies on: the directory and the window's own table are
     identity-mapped, and the window maps over neither of them.
     */
    ghost predicate Addressable() {
      && |mem| <= PAGES
      && WellFormed(mem, dir)
      && dir < RESERVED_PAGES <= |mem| && window <= RESERVED_PAGES
      && Present(Pde(mem, dir, 0)) && WindowTable() < RESERVED_PAGES
      && window != dir && window != WindowTable()
      && forall p :: 0 <= p < RESERVED_PAGES && p != window ==>
           Walk(mem, dir, p).Some? && FrameOf(Walk(mem, dir, p).value) == p
    }

    function WindowTable(): nat
      requires InRam(mem, dir)
    {
      FrameOf(Pde(mem, dir, 0))
    }

    /** The flat map that the page tables implement: every present page but the window, with its entry. */
    ghost function Flat(): map<nat, Word>
      requires InRam(mem, dir)
    {
      map p | 0 <= p < PAGES && p != window && Walk(mem, dir, p).Some? :: Walk(mem, dir, p).value
    }

    /** The page tables created after boot; table 0 lies in the reserved area. */
    ghost function Tables(): map<nat, Word>
      requires InRam(mem, dir)
    {
      map t | 1 <= t < ENTRIES && Present(Pde(mem, dir, t)) :: Pde(mem, dir, t)
    }

    ghost predicate Valid() {
      && Addressable()
      && |mem| == |bits|
      && Accounts(Flat(), Tables(), bits, base)
    }
  }

  /** Some page above the reserved area, or some table, uses frame `f`. */
  ghost predicate Owned(flat: map<nat, Word>, tables: map<nat, Word>, f: nat) {
    || (exists p :: p in flat && RESERVED_PAGES <= p && FrameOf(flat[p]) == f)
    || (exists t :: t in tables && FrameOf(tables[t]) == f)
  }

  /**
   Exact accounting of frames: a frame is marked when it was reserved at boot or has an owner, never both, and no
   frame has two owners.
   */
  ghost predicate Accounts(flat: map<nat, Word>, tables: map<nat, Word>, bits: seq<bool>, base: seq<bool>) {
    && RESERVED_PAGES <= |bits| == |base|
    && (forall f :: 0 <= f < RESERVED_PAGES ==> base[f])
    && (forall f :: 0 <= f < |bits| ==> (bits[f] <==> base[f] || Owned(flat, tables, f)))
    && (forall f :: 0 <= f < |bits| ==> !(base[f] && Owned(flat, tables, f)))
    && (forall p :: p in flat && RESERVED_PAGES <= p ==> FrameOf(flat[p]) < |bits|)
    && (forall t :: t in tables ==> FrameOf(tables[t]) < |bits|)
    && (forall p, q :: p in flat && q in flat && RESERVED_PAGES <= p < q ==> FrameOf(flat[p]) != FrameOf(flat[q]))
    && (forall t, u :: t in tables && u in tables && t < u ==> FrameOf(tables[t]) != FrameOf(tables[u]))
    && (forall p, t :: p in flat && RESERVED_PAGES <= p && t in tables ==> FrameOf(flat[p]) != FrameOf(tables[t]))
  }

  /** Mapping an absent page to a free frame and marking the frame keeps the accounts. */
  lemma AccountMap(flat: map<nat, Word>, tables: map<nat, Word>, bits: seq<bool>, base: seq<bool>,
                   page: nat, e: Word)
    requires Accounts(flat, tables, bits, base)
    requires RESERVED_PAGES <= page && page !in flat && FrameOf(e) < |bits| && !bits[FrameOf(e)]
    ensures Accounts(flat[page := e], tables, bits[FrameOf(e) := true], base)
  {
    var flat', frame := flat[page := e], FrameOf(e);
    forall f: nat
      ensures Owned(flat', tables, f) <==> Owned(flat, tables, f) || f == frame
    {
      if Owned(flat, tables, f) {
        assert forall p :: p in flat ==> p in flat' && flat'[p] == flat[p];
      }
      assert page in flat';
    }
    NotOwned(flat, tables, frame);
  }

  lemma NotOwned(flat: map<nat, Word>, tables: map<nat, Word>, f: nat)
    requires !Owned(flat, tables, f)
    ensures forall p :: p in flat && RESERVED_PAGES <= p ==> FrameOf(flat[p]) != f
    ensures forall t :: t in tables ==> FrameOf(tables[t]) != f
  {
  }

  /** Unmapping a page and clearing its frame keeps the accounts. */
  lemma AccountUnmap(flat: map<nat, Word>, tables: map<nat, Word>, bits: seq<bool>, base: seq<bool>,
                     page: nat)
    requires Accounts(flat, tables, bits, base) && RESERVED_PAGES <= page && page in flat
    ensures FrameOf(flat[page]) < |bits|
    ensures Accounts(flat - {page}, tables, bits[FrameOf(flat[page]) := false], base)
  {
    var flat', frame := flat - {page}, FrameOf(flat[page]);
    assert Owned(flat, tables, frame);
    forall f: nat
      ensures Owned(flat', tables, f) <==> Owned(flat, tables, f) && f != frame
    {
      if Owned(flat, tables, f) && f != frame {
        assert forall p :: p in flat && p != page ==> p in flat' && flat'[p] == flat[p];
      }
    }
  }

  /** A new table in a free frame keeps the accounts once the frame is marked. */
  lemma AccountTable(flat: map<nat, Word>, tables: map<nat, Word>, bits: seq<bool>, base: seq<bool>,
                     t: nat, e: Word)
    requires Accounts(flat, tables, bits, base) && t !in tables && FrameOf(e) < |bits| && !bits[FrameOf(e)]
    ensures Accounts(flat, tables[t := e], bits[FrameOf(e) := true], base)
  {
    var tables', frame := tables[t := e], FrameOf(e);
    forall f: nat
      ensures Owned(flat, tables', f) <==> Owned(flat, tables, f) || f == frame
    {
      if Owned(flat, tables, f) {
        assert forall u :: u in tables ==> u in tables' && tables'[u] == tables[u];
      }
      assert t in tables';
    }
    NotOwned(flat, tables, frame);
  }

  /**
   Nothing is owned twice. Frames behind pages and tables are marked, lie above the identity-mapped frames and were
   free at boot; frame 0 stays marked, so the allocator's 0 result always means "none".
   */
  lemma OwnersAreMarked(s: Space)
    requires s.Valid()
    ensures s.bits[0]
    ensures forall p :: p in s.Flat() && RESERVED_PAGES <= p ==>
              var f := FrameOf(s.Flat()[p]); RESERVED_PAGES <= f < |s.bits| && s.bits[f] && !s.base[f]
    ensures forall t :: t in s.Tables() ==>
              var f := FrameOf(s.Tables()[t]); RESERVED_PAGES <= f < |s.bits| && s.bits[f] && !s.base[f]
  {
    var flat, tables := s.Flat(), s.Tables();
    forall p | p in flat && RESERVED_PAGES <= p
      ensures Owned(flat, tables, FrameOf(flat[p]))
    {
    }
    forall t | t in tables
      ensures Owned(flat, tables, FrameOf(tables[t]))
    {
    }
  }

  /** When paging is switched on over the identity map of the reserved area, every invariant holds. */
  lemma IdentityIsValid(s: Space)
    requires InRam(s.mem, s.dir) && RESERVED_PAGES <= |s.mem| == |s.bits| <= PAGES
    requires s.dir < s.WindowTable() < s.window <= RESERVED_PAGES && s.base == s.bits && WellFormed(s.mem, s.dir)
    requires IdentityBelow(s.mem, s.dir, RESERVED_PAGES) && Present(Pde(s.mem, s.dir, 0))
    requires forall f :: 0 <= f < RESERVED_PAGES ==> s.bits[f]
    ensures s.Valid() && s.Tables() == map[]
    ensures forall p :: p in s.Flat() <==> 0 <= p < RESERVED_PAGES && p != s.window
  {
    assert s.Tables() == map[];
    assert forall p :: p in s.Flat() ==> p < RESERVED_PAGES;
  }

  // ----- Steps of the paging code on memory

  /** Reachability through the window depends on directory entries and on translations other than the window's. */
  lemma StaysAddressable(s: Space, s': Space)
    requires s.Addressable() && s'.dir == s.dir && s'.window == s.window && |s'.mem| == |s.mem|
    requires WellFormed(s'.mem, s.dir) && Pde(s'.mem, s.dir, 0) == Pde(s.mem, s.dir, 0)
    requires SameWalks(s.mem, s'.mem, s.dir, {s.window})
    ensures s'.Addressable()
  {
  }

  /** Re-targeting the window changes no other translation. */
  lemma WindowMoves(s: Space, frame: nat)
    requires s.Addressable() && InRam(s.mem, frame)
    ensures frame < PAGES
    ensures var m := Put(s.mem, s.WindowTable(), s.window, Entry(frame, PRESENT + RW));
            && s.(mem := m).Addressable() && SamePdes(s.mem, m, s.dir) && SameWalks(s.mem, m, s.dir, {s.window})
            && Walk(m, s.dir, s.window) == Some(Entry(frame, PRESENT + RW)) && Kept(s.mem, m, s.dir, {})
  {
    var e := Entry(frame, PRESENT + RW);
    assert Present(e);
    StorePte(s.mem, s.dir, s.window, e);
    StaysAddressable(s, s.(mem := Put(s.mem, s.WindowTable(), s.window, e)));
  }

  /** What does not change in translations and directory does not change in the flat map and the tables. */
  lemma FlatSame(s: Space, s': Space)
    requires InRam(s.mem, s.dir) && s'.dir == s.dir && s'.window == s.window && |s'.mem| == |s.mem|
    requires SamePdes(s.mem, s'.mem, s.dir) && SameWalks(s.mem, s'.mem, s.dir, {s.window})
    ensures s'.Flat() == s.Flat() && s'.Tables() == s.Tables()
  {
  }

  /** When only the window moved, everything is as before. */
  lemma WindowOnly(s: Space, s': Space)
    requires s.Valid() && s'.Addressable() == s.Addressable() && s'.(mem := s.mem) == s && |s'.mem| == |s.mem|
    requires SamePdes(s.mem, s'.mem, s.dir) && SameWalks(s.mem, s'.mem, s.dir, {s.window})
    ensures s'.Valid() && s'.Flat() == s.Flat() && s'.Tables() == s.Tables()
  {
    FlatSame(s, s');
  }

  /** One page's translation changed: one entry of the flat map changed. */
  lemma FlatUpdate(s: Space, s': Space, page: nat)
    requires InRam(s.mem, s.dir) && s'.dir == s.dir && s'.window == s.window && |s'.mem| == |s.mem|
    requires page < PAGES && page != s.window && SameWalks(s.mem, s'.mem, s.dir, {s.window, page})
    ensures var e := Walk(s'.mem, s.dir, page);
            s'.Flat() == if e.Some? then s.Flat()[page := e.value] else s.Flat() - {page}
  {
  }

  lemma TablesSame(s: Space, s': Space)
    requires InRam(s.mem, s.dir) && s'.dir == s.dir && |s'.mem| == |s.mem| && SamePdes(s.mem, s'.mem, s.dir)
    ensures s'.Tables() == s.Tables()
  {
  }

  /** A page above the reserved area plays no part in reaching the tables. */
  lemma EntryKeepsAddressable(s: Space, s': Space, page: nat)
    requires s.Addressable() && s'.dir == s.dir && s'.window == s.window && |s'.mem| == |s.mem|
    requires WellFormed(s'.mem, s.dir) && SamePdes(s.mem, s'.mem, s.dir)
    requires RESERVED_PAGES <= page && SameWalks(s.mem, s'.mem, s.dir, {page})
    ensures s'.Addressable()
  {
  }

  /** One directory entry became present: one table was added. */
  lemma TablesUpdate(s: Space, s': Space, t: nat)
    requires InRam(s.mem, s.dir) && s'.dir == s.dir && |s'.mem| == |s.mem|
    requires 1 <= t < ENTRIES && Present(Pde(s'.mem, s.dir, t))
    requires forall u :: 0 <= u < ENTRIES && u != t ==> Pde(s'.mem, s.dir, u) == Pde(s.mem, s.dir, u)
    ensures s'.Tables() == s.Tables()[t := Pde(s'.mem, s.dir, t)]
  {
  }

  /** `page` has its table. */
  ghost predicate HasTable(s: Space, page: nat)
    requires InRam(s.mem, s.dir) && page < PAGES
  {
    Present(Pde(s.mem, s.dir, page / ENTRIES))
  }

  /** The same, from the tables created after boot. */
  ghost predicate TableExists(tables: map<nat, Word>, page: nat) {
    page / ENTRIES == 0 || page / ENTRIES in tables
  }

  lemma HasTableIff(s: Space, page: nat)
    requires s.Addressable() && page < PAGES
    ensures HasTable(s, page) <==> TableExists(s.Tables(), page)
  {
  }

  /**
   What a successful i386_allocate_page does: exactly one page is (re)mapped, to the lowest free frame; at most one table
   is added, in the lowest frame that is then free; exactly those frames become marked.
   */
  ghost predicate PageAllocated(s: Space, s': Space, page: nat, frame: nat, pt_flags: nat, pd_flags: nat)
    requires InRam(s.mem, s.dir) && InRam(s'.mem, s'.dir) && page < PAGES && frame < PAGES && pt_flags < PAGE_SIZE
  {
    && s'.Flat() == s.Flat()[page := Entry(frame, pt_flags)]
    && LeastFree(s.bits, frame)
    && if HasTable(s, page) then s'.Tables() == s.Tables() && s'.bits == s.bits[frame := true]
       else
         var t := page / ENTRIES;
         && t in s'.Tables() && s'.Tables() == s.Tables()[t := s'.Tables()[t]]
         && s'.Tables()[t] % PAGE_SIZE == pd_flags
         && var f := FrameOf(s'.Tables()[t]);
            LeastFree(s.bits[frame := true], f) && s'.bits == s.bits[frame := true][f := true]
  }

  /** `frame` has been taken and the table of `page` exists, in a frame of its own where it was missing. */
  ghost predicate TableEnsured(s: Space, s': Space, page: nat, frame: nat, pd_flags: nat)
    requires InRam(s.mem, s.dir) && InRam(s'.mem, s.dir) && s'.dir == s.dir && page < PAGES && frame < |s.bits|
  {
    var t := page / ENTRIES;
    && (forall u :: 0 <= u < ENTRIES && u != t ==> Pde(s'.mem, s.dir, u) == Pde(s.mem, s.dir, u))
    && HasTable(s', page)
    && if HasTable(s, page) then
         s'.bits == s.bits[frame := true] && Pde(s'.mem, s.dir, t) == Pde(s.mem, s.dir, t)
       else
         var e := Pde(s'.mem, s.dir, t);
         && e % PAGE_SIZE == pd_flags && LeastFree(s.bits[frame := true], FrameOf(e))
         && s'.bits == s.bits[frame := true][FrameOf(e) := true]
  }

  /** The same, from what the code's steps do to translations, directory entries and the bit vector. */
  lemma AllocationSteps(s: Space, s': Space, page: nat, frame: nat, pt_flags: nat, pd_flags: nat)
    requires s.Valid() && s'.Addressable() == s.Addressable()
    requires s'.(mem := s.mem, bits := s.bits) == s && |s'.mem| == |s.mem|
    requires RESERVED_PAGES <= page < PAGES && page != s.window
    requires LeastFree(s.bits, frame) && pt_flags < PAGE_SIZE
    requires SameWalks(s.mem, s'.mem, s.dir, {s.window, page})
    requires Kept(s.mem, s'.mem, s.dir, {})
    requires Walk(s'.mem, s.dir, page) == Some(Entry(frame, pt_flags))
    requires TableEnsured(s, s', page, frame, pd_flags)
    ensures PageAllocated(s, s', page, frame, pt_flags, pd_flags)
    ensures s'.Valid() <==> page !in s.Flat()
    ensures DataKept(s, s')
  {
    FlatUpdate(s, s', page);
    if HasTable(s, page) {
      TablesSame(s, s');
    } else {
      TablesUpdate(s, s', page / ENTRIES);
    }
    KeptIsDataKept(s, s');
    if page !in s.Flat() {
      AllocatingKeepsValid(s, s', page, frame, pt_flags, pd_flags);
    } else {
      OverwritingLeaks(s, s', page, frame, pt_flags, pd_flags);
    }
  }

  /** Mapping over a present page loses its frame: still marked, no longer owned. */
  lemma OverwritingLeaks(s: Space, s': Space, page: nat, frame: nat, pt_flags: nat, pd_flags: nat)
    requires s.Valid() && s'.Addressable() == s.Addressable() && s'.dir == s.dir && s'.base == s.base
    requires RESERVED_PAGES <= page < PAGES && frame < PAGES && pt_flags < PAGE_SIZE && page in s.Flat()
    requires PageAllocated(s, s', page, frame, pt_flags, pd_flags)
    ensures var lost := FrameOf(s.Flat()[page]);
            && lost < |s'.bits| && s'.bits[lost] && !s'.base[lost] && !Owned(s'.Flat(), s'.Tables(), lost)
    ensures !s'.Valid()
  {
    var flat, tables := s.Flat(), s.Tables();
    var lost := FrameOf(flat[page]);
    assert Owned(flat, tables, lost);
    assert lost != frame;
    forall p | p in s'.Flat() && RESERVED_PAGES <= p
      ensures FrameOf(s'.Flat()[p]) != lost
    {
      assert p != page ==> p in flat && s'.Flat()[p] == flat[p];
    }
    assert HasTable(s, page) && s'.Tables() == tables;
  }

  /**
   What i386_free_page does: the page becomes absent and its frame free. An absent page that has a table is "freed"
   too, and then frame 0 becomes free.
   */
  ghost predicate PageFreed(s: Space, s': Space, page: nat)
    requires InRam(s.mem, s.dir) && InRam(s'.mem, s'.dir) && page < PAGES
  {
    && s'.Flat() == s.Flat() - {page} && s'.Tables() == s.Tables()
    && if page in s.Flat() then
         FrameOf(s.Flat()[page]) < |s.bits| && s'.bits == s.bits[FrameOf(s.Flat()[page]) := false]
       else if HasTable(s, page) then |s.bits| > 0 && s'.bits == s.bits[0 := false]
       else s'.bits == s.bits
  }

  /**
   i386_free_page where the page has a table: the page becomes absent, and the frame number found in its entry, which
   is 0 for an absent page, becomes free.
   */
  lemma FreeingSteps(s: Space, s': Space, page: nat, e: Word)
    requires s.Valid() && s'.Addressable() == s.Addressable()
    requires s'.(mem := s.mem, bits := s.bits) == s && |s'.mem| == |s.mem|
    requires RESERVED_PAGES <= page < PAGES && page != s.window && HasTable(s, page)
    requires SamePdes(s.mem, s'.mem, s.dir) && SameWalks(s.mem, s'.mem, s.dir, {s.window, page})
    requires Kept(s.mem, s'.mem, s.dir, {})
    requires Walk(s'.mem, s.dir, page) == None && Plain(e)
    requires Walk(s.mem, s.dir, page) == if Present(e) then Some(e) else None
    requires FrameOf(e) < |s.bits| ==> s'.bits == s.bits[FrameOf(e) := false]
    ensures FrameOf(e) < |s.bits| && PageFreed(s, s', page)
    ensures s'.Valid() <==> page in s.Flat()
    ensures DataKept(s, s')
  {
    FlatUpdate(s, s', page);
    TablesSame(s, s');
    KeptIsDataKept(s, s');
    if page in s.Flat() {
      AccountUnmap(s.Flat(), s.Tables(), s.bits, s.base, page);
    } else {
      assert !s'.bits[0];
    }
  }

  /**
   The physical address of a page: what the flat map holds, 0 when the page is absent. The window, asked about itself,
   shows its own table by then.
   */
  ghost function PhysOf(s: Space, page: nat): nat
    requires InRam(s.mem, s.dir)
  {
    if page == s.window then s.WindowTable() * PAGE_SIZE
    else if page in s.Flat() then FrameOf(s.Flat()[page]) * PAGE_SIZE else 0
  }

  /** The address reported, from the entry that was read through the window. */
  lemma LookupSteps(s: Space, s': Space, page: nat, e: Option<Word>)
    requires s.Valid() && s'.Addressable() == s.Addressable() && s'.(mem := s.mem) == s && |s'.mem| == |s.mem|
    requires SamePdes(s.mem, s'.mem, s.dir) && SameWalks(s.mem, s'.mem, s.dir, {s.window})
    requires Kept(s.mem, s'.mem, s.dir, {})
    requires page < PAGES
    requires if e == None then !HasTable(s, page)
             else
               && Walk(s'.mem, s.dir, page) == (if Present(e.value) then e else None)
               && Walk(s'.mem, s.dir, s.window).Some?
               && FrameOf(Walk(s'.mem, s.dir, s.window).value) == FrameOf(Pde(s'.mem, s.dir, page / ENTRIES))
    ensures s'.Valid() && s'.Flat() == s.Flat() && s'.Tables() == s.Tables() && DataKept(s, s')
    ensures PhysOf(s, page) == if e.Some? && Present(e.value) then FrameOf(e.value) * PAGE_SIZE else 0
  {
    WindowOnly(s, s');
    KeptIsDataKept(s, s');
  }

  /** i386_free_page where the page has no table. */
  lemma NothingFreed(s: Space, s': Space, page: nat)
    requires s.Valid() && s'.Addressable() == s.Addressable() && s'.(mem := s.mem) == s && |s'.mem| == |s.mem|
    requires SamePdes(s.mem, s'.mem, s.dir) && SameWalks(s.mem, s'.mem, s.dir, {s.window})
    requires Kept(s.mem, s'.mem, s.dir, {})
    requires page < PAGES && !HasTable(s, page)
    ensures page !in s.Flat() && PageFreed(s, s', page) && s'.Valid() && DataKept(s, s')
  {
    WindowOnly(s, s');
    KeptIsDataKept(s, s');
  }

  /** Mapping a page that was absent keeps every invariant. */
  lemma AllocatingKeepsValid(s: Space, s': Space, page: nat, frame: nat, pt_flags: nat, pd_flags: nat)
    requires s.Valid() && s'.Addressable() == s.Addressable() && s'.dir == s.dir && s'.base == s.base && |s'.mem| == |s.mem|
    requires RESERVED_PAGES <= page < PAGES && frame < PAGES && pt_flags < PAGE_SIZE && page !in s.Flat()
    requires PageAllocated(s, s', page, frame, pt_flags, pd_flags)
    ensures s'.Valid()
  {
    var flat, tables, t := s.Flat(), s.Tables(), page / ENTRIES;
    if HasTable(s, page) {
      AccountMap(flat, tables, s.bits, s.base, page, Entry(frame, pt_flags));
    } else {
      var e := s'.Tables()[t];
      AccountTable(flat, tables, s.bits, s.base, t, e);
      AccountMap(flat, tables[t := e], s.bits[FrameOf(e) := true], s.base, page, Entry(frame, pt_flags));
      assert s.bits[frame := true][FrameOf(e) := true] == s.bits[FrameOf(e) := true][frame := true];
    }
  }

  /** A frame that is not marked holds no paging structure, so it can be filled as a new table. */
  lemma FreeFramesAreUnused(s: Space)
    requires s.Valid()
    ensures forall f :: 0 <= f < |s.bits| && !s.bits[f] ==> Unused(s.mem, s.dir, f)
  {
    forall f, t | 0 <= f < |s.bits| && !s.bits[f] && 0 <= t < ENTRIES && Present(Pde(s.mem, s.dir, t))
      ensures FrameOf(Pde(s.mem, s.dir, t)) != f
    {
      if t > 0 {
        assert s.Tables()[t] == Pde(s.mem, s.dir, t);
        NotOwned(s.Flat(), s.Tables(), f);
      }
    }
  }

  /** A frame taken and given back leaves everything as before. */
  lemma AllocationUndone(s: Space, s': Space)
    requires s.Valid() && s'.Addressable() == s.Addressable() && s'.(mem := s.mem, bits := s.bits) == s
    requires |s'.mem| == |s.mem| && |s'.bits| == |s.bits| && forall i :: 0 <= i < |s.bits| ==> s'.bits[i] == s.bits[i]
    requires SamePdes(s.mem, s'.mem, s.dir) && SameWalks(s.mem, s'.mem, s.dir, {s.window})
    requires Kept(s.mem, s'.mem, s.dir, {})
    ensures s'.Valid() && s'.Flat() == s.Flat() && s'.Tables() == s.Tables() && s'.bits == s.bits
    ensures DataKept(s, s')
  {
    assert s'.bits == s.bits;
    WindowOnly(s, s');
    KeptIsDataKept(s, s');
  }

  // ----- Ordinary memory accesses

  /** The frame behind a page above the reserved area holds no paging structure. */
  lemma DataFrameIsUnused(s: Space, page: nat)
    requires s.Valid() && page in s.Flat() && RESERVED_PAGES <= page
    ensures Unused(s.mem, s.dir, FrameOf(s.Flat()[page]))
  {
    OwnersAreMarked(s);
    var f := FrameOf(s.Flat()[page]);
    forall t | 0 <= t < ENTRIES && Present(Pde(s.mem, s.dir, t))
      ensures FrameOf(Pde(s.mem, s.dir, t)) != f
    {
      if t > 0 {
        assert s.Tables()[t] == Pde(s.mem, s.dir, t);
      }
    }
  }

  lemma FramesDiffer(s: Space, p: nat, q: nat)
    requires s.Valid() && p in s.Flat() && q in s.Flat() && RESERVED_PAGES <= p && RESERVED_PAGES <= q && p != q
    ensures FrameOf(s.Flat()[p]) != FrameOf(s.Flat()[q])
  {
    if p < q {
      assert FrameOf(s.Flat()[p]) != FrameOf(s.Flat()[q]);
    } else {
      assert FrameOf(s.Flat()[q]) != FrameOf(s.Flat()[p]);
    }
  }

  /** What a page above the reserved area holds. */
  ghost function Contents(s: Space, page: nat): Page
    requires InRam(s.mem, s.dir) && page in s.Flat()
  {
    if InRam(s.mem, FrameOf(s.Flat()[page])) then s.mem[FrameOf(s.Flat()[page])] else seq(ENTRIES, _ => 0)
  }

  /** Pages above the reserved area that stay mapped where they were hold what they held. */
  ghost predicate DataKept(s: Space, s': Space)
    requires InRam(s.mem, s.dir) && InRam(s'.mem, s'.dir)
  {
    forall p :: p in s.Flat() && p in s'.Flat() && RESERVED_PAGES <= p && s'.Flat()[p] == s.Flat()[p] ==>
      Contents(s', p) == Contents(s, p)
  }

  /** The frames behind such pages are kept by whatever writes to paging structures and to free frames only. */
  lemma KeptIsDataKept(s: Space, s': Space)
    requires s.Valid() && s'.dir == s.dir && |s'.mem| == |s.mem| && Kept(s.mem, s'.mem, s.dir, {})
    requires forall t :: t in s'.Tables() ==>
               || (t in s.Tables() && s'.Tables()[t] == s.Tables()[t])
               || (FrameOf(s'.Tables()[t]) < |s.bits| && !s.bits[FrameOf(s'.Tables()[t])])
    requires Pde(s'.mem, s.dir, 0) == Pde(s.mem, s.dir, 0)
    ensures DataKept(s, s')
  {
    OwnersAreMarked(s);
    forall p | p in s.Flat() && p in s'.Flat() && RESERVED_PAGES <= p && s'.Flat()[p] == s.Flat()[p]
      ensures Contents(s', p) == Contents(s, p)
    {
      var f := FrameOf(s.Flat()[p]);
      DataFrameIsUnused(s, p);
      forall t | 0 <= t < ENTRIES && Present(Pde(s'.mem, s.dir, t))
        ensures FrameOf(Pde(s'.mem, s.dir, t)) != f
      {
        if t > 0 {
          assert s'.Tables()[t] == Pde(s'.mem, s.dir, t);
        }
      }
      assert Unused(s'.mem, s.dir, f);
    }
  }

  /**
   Paging is transparent to the program: a store to a mapped page changes one word of that page, no other page, and no
   paging structure.
   */
  lemma StoreIsLocal(s: Space, page: nat, i: nat, w: Word)
    requires s.Valid() && page in s.Flat() && RESERVED_PAGES <= page && i < ENTRIES
    ensures InRam(s.mem, FrameOf(s.Flat()[page]))
    ensures var s' := s.(mem := Put(s.mem, FrameOf(s.Flat()[page]), i, w));
            && s'.Valid() && s'.Flat() == s.Flat() && s'.Tables() == s.Tables()
            && Contents(s', page) == Contents(s, page)[i := w]
            && forall q :: q in s.Flat() && RESERVED_PAGES <= q && q != page ==> Contents(s', q) == Contents(s, q)
  {
    var f := FrameOf(s.Flat()[page]);
    DataFrameIsUnused(s, page);
    var s' := s.(mem := Put(s.mem, f, i, w));
    StoreElsewhere(s.mem, s.dir, f, s.mem[f][i := w]);
    FlatSame(s, s');
    StaysAddressable(s, s');
    forall q | q in s.Flat() && RESERVED_PAGES <= q && q != page
      ensures Contents(s', q) == Contents(s, q)
    {
      FramesDiffer(s, page, q);
    }
  }

  /** If `p` is a mapped page above the reserved area it is mapped where it was and holds what it held. */
  ghost predicate PageKept(s: Space, s': Space, p: nat)
    requires InRam(s.mem, s.dir) && InRam(s'.mem, s'.dir)
  {
    p in s.Flat() && RESERVED_PAGES <= p ==>
      p in s'.Flat() && s'.Flat()[p] == s.Flat()[p] && Contents(s', p) == Contents(s, p)
  }

  /** The memory that programs use is as before: pages may have been added. */
  ghost predicate MemoryKept(s: Space, s': Space)
    requires InRam(s.mem, s.dir) && InRam(s'.mem, s'.dir)
  {
    forall p :: PageKept(s, s', p)
  }

  lemma MemoryKeptTwice(s: Space, s1: Space, s2: Space)
    requires InRam(s.mem, s.dir) && InRam(s1.mem, s1.dir) && InRam(s2.mem, s2.dir)
    requires MemoryKept(s, s1) && MemoryKept(s1, s2)
    ensures MemoryKept(s, s2)
  {
    forall p
      ensures PageKept(s, s2, p)
    {
      assert PageKept(s, s1, p) && PageKept(s1, s2, p);
    }
  }

  /** Nothing that was mapped has been unmapped or remapped. */
  lemma AddedOnly(s: Space, s': Space)
    requires InRam(s.mem, s.dir) && InRam(s'.mem, s'.dir) && DataKept(s, s')
    requires forall p :: p in s.Flat() ==> p in s'.Flat() && s'.Flat()[p] == s.Flat()[p]
    ensures MemoryKept(s, s')
  {
  }

  /** When pages are only taken away, the others are kept throughout. */
  lemma DataKeptTwice(s: Space, s1: Space, s2: Space)
    requires InRam(s.mem, s.dir) && InRam(s1.mem, s1.dir) && InRam(s2.mem, s2.dir)
    requires DataKept(s, s1) && DataKept(s1, s2)
    requires forall p :: p in s2.Flat() ==> p in s1.Flat() && s1.Flat()[p] == s2.Flat()[p]
    ensures DataKept(s, s2)
  {
  }

  /** Pages were added and taken away again, and all others stayed as they were throughout. */
  lemma AddedAndTakenAway(s: Space, s1: Space, s2: Space)
    requires InRam(s.mem, s.dir) && InRam(s1.mem, s1.dir) && InRam(s2.mem, s2.dir)
    requires MemoryKept(s, s1) && DataKept(s1, s2) && s2.Flat() == s.Flat()
    ensures MemoryKept(s, s2)
  {
    forall p
      ensures PageKept(s, s2, p)
    {
      assert PageKept(s, s1, p);
    }
  }
}
