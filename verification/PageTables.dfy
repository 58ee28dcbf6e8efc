/**
 Two-level 32-bit page tables stored in physical memory, and who owns which frame.

 Translation is a function of the contents of memory (section 4.3 of the Intel SDM, Volume 3A). A page is named by its
 virtual address divided by 4096, a frame by its physical address divided by 4096.
 */
module PageTables {
  import opened Words
  import opened Layout

  type Page = s: seq<Word> | |s| == ENTRIES witness seq(ENTRIES, _ => 0)

  /** Physical memory, frame by frame. */
  type Mem = seq<Page>

  /** Virtual pages and physical frames in a 32-bit address space. */
  const PAGES: nat := 0x10_0000

  /** A page-table or page-directory entry: `phys | flags`. */
  function Entry(frame: nat, flags: nat): (e: Word)
    requires frame < PAGES && flags < PAGE_SIZE
    ensures FrameOf(e) == frame && e % PAGE_SIZE == flags
  {
    Pow2Of32();
    OrLow(frame, flags, 12);
    Or(frame * PAGE_SIZE, flags)
  }

  lemma {:induction false} EntryIsOr(phys: Word, flags: nat)
    requires phys % PAGE_SIZE == 0 && flags < PAGE_SIZE
    ensures phys / PAGE_SIZE < PAGES && Or(phys, flags) == Entry(phys / PAGE_SIZE, flags)
    ensures Present(Or(phys, flags)) <==> flags % 2 == PRESENT
  {
    LowBit(Entry(phys / PAGE_SIZE, flags));
  }

  lemma LowBit(e: nat)
    ensures e % PAGE_SIZE % 2 == e % 2
  {
  }

  function FrameOf(e: Word): nat {
    e / PAGE_SIZE
  }

  predicate Present(e: Word) {
    e % 2 == 1
  }

  lemma WritableIsPresent(e: Word)
    ensures Writable(e) ==> Present(e)
    ensures Writable(e) <==> e % PAGE_SIZE == PRESENT + RW
  {
    LowBit(e);
  }

  /** The entry's flags are "present" and "writable", and no others. */
  predicate Writable(e: Word) {
    e % 4096 == 3
  }

  /** `e & PRESENT` is what the code tests, and `e & 0xFFFFF000` is how it drops the flags. */
  lemma {:induction false} EntryMasks(e: Word)
    ensures And(e, PRESENT) != 0 <==> Present(e)
    ensures And(e, 0xFFFF_F000) == FrameOf(e) * PAGE_SIZE
  {
    TestBit(e, 0);
    AndHigh32(e);
  }

  predicate InRam(m: Mem, frame: nat) {
    frame < |m|
  }

  /** Memory after storing `w` in word `i` of `frame`. */
  function Put(m: Mem, frame: nat, i: nat, w: Word): (m': Mem)
    requires InRam(m, frame) && i < ENTRIES
    ensures |m'| == |m|
  {
    m[frame := m[frame][i := w]]
  }

  /** Entry `t` of the page directory in frame `dir`. */
  function Pde(m: Mem, dir: nat, t: nat): Word
    requires InRam(m, dir) && t < ENTRIES
  {
    m[dir][t]
  }

  /** The entry that translates `page`, if the page is present. */
  function Walk(m: Mem, dir: nat, page: nat): Option<Word>
    requires InRam(m, dir) && page < PAGES
  {
    var d := Pde(m, dir, page / ENTRIES);
    if !Present(d) || !InRam(m, FrameOf(d)) then None
    else
      var e := m[FrameOf(d)][page % ENTRIES];
      if Present(e) then Some(e) else None
  }

  /** A page-table entry as the kernel writes it: present, or the "not present" filler PT_RW. */
  predicate Plain(e: Word) {
    Present(e) || e == RW
  }

  /** Every present table lies in memory and is plain; tables and directory occupy different frames. */
  ghost predicate WellFormed(m: Mem, dir: nat) {
    && InRam(m, dir)
    && (forall t | 0 <= t < ENTRIES && Present(Pde(m, dir, t)) ::
          && InRam(m, FrameOf(Pde(m, dir, t))) && FrameOf(Pde(m, dir, t)) != dir
          && forall i :: 0 <= i < ENTRIES ==> Plain(m[FrameOf(Pde(m, dir, t))][i]))
    && (forall t, u | 0 <= t < u < ENTRIES && Present(Pde(m, dir, t)) && Present(Pde(m, dir, u)) ::
          FrameOf(Pde(m, dir, t)) != FrameOf(Pde(m, dir, u)))
  }

  ghost predicate SamePdes(m: Mem, m': Mem, dir: nat)
    requires InRam(m, dir) && |m'| == |m|
  {
    forall t :: 0 <= t < ENTRIES ==> Pde(m', dir, t) == Pde(m, dir, t)
  }

  /** The translations of all pages outside `except` are the same in `m` and `m'`. */
  ghost predicate SameWalks(m: Mem, m': Mem, dir: nat, except: set<nat>)
    requires InRam(m, dir) && |m'| == |m|
  {
    forall p :: 0 <= p < PAGES && p !in except ==> Walk(m', dir, p) == Walk(m, dir, p)
  }

  /** Frames that hold no paging structure in `m'`, apart from `except`, have kept their contents. */
  ghost predicate Kept(m: Mem, m': Mem, dir: nat, except: set<nat>)
    requires InRam(m, dir) && |m'| == |m|
  {
    forall f {:trigger Unused(m', dir, f)} :: 0 <= f < |m| && Unused(m', dir, f) && f !in except ==> m'[f] == m[f]
  }

  /** No directory entry has been changed that was present. */
  ghost predicate PdesStay(m: Mem, m': Mem, dir: nat)
    requires InRam(m, dir) && |m'| == |m|
  {
    forall t :: 0 <= t < ENTRIES && Present(Pde(m, dir, t)) ==> Pde(m', dir, t) == Pde(m, dir, t)
  }

  lemma KeptTwice(m: Mem, m1: Mem, m2: Mem, dir: nat, e: set<nat>)
    requires InRam(m, dir) && |m1| == |m2| == |m| && PdesStay(m1, m2, dir)
    requires Kept(m, m1, dir, e) || Kept(m, m1, dir, {})
    requires Kept(m1, m2, dir, e) || Kept(m1, m2, dir, {})
    ensures Kept(m, m2, dir, e)
  {
    forall f | 0 <= f < |m| && Unused(m2, dir, f)
      ensures Unused(m1, dir, f)
    {
    }
  }

  lemma KeptAll(m: Mem, m': Mem, dir: nat, frame: nat)
    requires InRam(m, dir) && |m'| == |m| && Kept(m, m', dir, {frame}) && !Unused(m', dir, frame)
    ensures Kept(m, m', dir, {})
  {
  }

  /** Storing one page-table entry changes the translation of exactly that page. */
  lemma StorePte(m: Mem, dir: nat, page: nat, e: Word)
    requires WellFormed(m, dir) && page < PAGES && Present(Pde(m, dir, page / ENTRIES)) && Plain(e)
    ensures var m' := Put(m, FrameOf(Pde(m, dir, page / ENTRIES)), page % ENTRIES, e);
            && WellFormed(m', dir) && SamePdes(m, m', dir) && SameWalks(m, m', dir, {page})
            && Walk(m', dir, page) == (if Present(e) then Some(e) else None) && Kept(m, m', dir, {})
  {
    var table := FrameOf(Pde(m, dir, page / ENTRIES));
    var m' := Put(m, table, page % ENTRIES, e);
    assert SamePdes(m, m', dir);
    assert !Unused(m', dir, table);
    forall p | 0 <= p < PAGES && p != page
      ensures Walk(m', dir, p) == Walk(m, dir, p)
    {
      assert p / ENTRIES == page / ENTRIES ==> p % ENTRIES != page % ENTRIES;
    }
  }

  /** `frame` holds neither the directory nor a present table. */
  ghost predicate Unused(m: Mem, dir: nat, frame: nat)
    requires InRam(m, dir)
  {
    InRam(m, frame) && frame != dir
    && forall t :: 0 <= t < ENTRIES && Present(Pde(m, dir, t)) ==> FrameOf(Pde(m, dir, t)) != frame
  }

  /** Writing to a frame that holds no paging structure changes no translation. */
  lemma StoreElsewhere(m: Mem, dir: nat, frame: nat, contents: Page)
    requires WellFormed(m, dir) && Unused(m, dir, frame)
    ensures var m' := m[frame := contents];
            && WellFormed(m', dir) && SamePdes(m, m', dir) && SameWalks(m, m', dir, {}) && Unused(m', dir, frame)
            && Kept(m, m', dir, {frame})
  {
    assert SamePdes(m, m[frame := contents], dir);
  }

  /** A frame whose 1024 entries are all PT_RW, which is "not present". */
  ghost predicate EmptyTable(m: Mem, frame: nat)
    requires InRam(m, frame)
  {
    forall i :: 0 <= i < ENTRIES ==> m[frame][i] == RW
  }

  /** A directory without tables. */
  lemma EmptyDirectory(m: Mem, dir: nat)
    requires InRam(m, dir) && EmptyTable(m, dir)
    ensures WellFormed(m, dir) && IdentityBelow(m, dir, 0) && forall t :: 0 <= t < ENTRIES ==> !Present(Pde(m, dir, t))
  {
  }

  /** The first `n` pages are mapped to the frames of the same number, by table 0; nothing else is mapped. */
  ghost predicate IdentityBelow(m: Mem, dir: nat, n: nat)
    requires InRam(m, dir) && n <= ENTRIES
  {
    && (forall p :: 0 <= p < n ==> Walk(m, dir, p) == Some(Entry(p, PRESENT + RW)))
    && (forall p :: n <= p < PAGES ==> Walk(m, dir, p) == None)
    && (forall t :: 1 <= t < ENTRIES ==> !Present(Pde(m, dir, t)))
  }

  lemma IdentityGrows(m: Mem, m': Mem, dir: nat, n: nat)
    requires InRam(m, dir) && |m'| == |m| && n < ENTRIES && IdentityBelow(m, dir, n)
    requires forall t :: 1 <= t < ENTRIES ==> Pde(m', dir, t) == Pde(m, dir, t)
    requires SameWalks(m, m', dir, {n}) && Walk(m', dir, n) == Some(Entry(n, PRESENT + RW))
    ensures IdentityBelow(m', dir, n + 1)
  {
  }

  /** Entering an empty table into the directory changes no translation. */
  lemma InstallTable(m: Mem, dir: nat, t: nat, frame: nat, e: Word)
    requires WellFormed(m, dir) && t < ENTRIES && !Present(Pde(m, dir, t))
    requires Unused(m, dir, frame) && EmptyTable(m, frame) && Present(e) && FrameOf(e) == frame
    ensures var m' := Put(m, dir, t, e);
            && WellFormed(m', dir) && SameWalks(m, m', dir, {}) && Pde(m', dir, t) == e
            && Kept(m, m', dir, {})
            && forall u :: 0 <= u < ENTRIES && u != t ==> Pde(m', dir, u) == Pde(m, dir, u)
  {
    var m' := Put(m, dir, t, e);
    assert forall u :: 0 <= u < ENTRIES && u != t ==> Pde(m', dir, u) == Pde(m, dir, u);
  }
}
