/**
 Memory as a program sees it: words at virtual addresses, behind the page tables.
 */
module Memory {
  import opened Words
  import opened Layout
  import opened PageTables
  import opened Ownership

  /** Byte `x` lies on a mapped page above the reserved area. */
  ghost predicate Usable(s: Space, x: nat)
    requires InRam(s.mem, s.dir)
  {
    x / PAGE_SIZE in s.Flat() && RESERVED_PAGES <= x / PAGE_SIZE
  }

  /** The word that contains byte `x`. */
  ghost function WordAt(s: Space, x: nat): Word
    requires InRam(s.mem, s.dir) && x / PAGE_SIZE in s.Flat()
  {
    Contents(s, x / PAGE_SIZE)[x % PAGE_SIZE / 4]
  }

  /** Byte `x` keeps its physical address, and its word is unchanged. */
  ghost predicate ByteKept(s: Space, s': Space, x: nat)
    requires InRam(s.mem, s.dir) && InRam(s'.mem, s'.dir)
  {
    && Usable(s, x) && x / PAGE_SIZE in s'.Flat()
    && s'.Flat()[x / PAGE_SIZE] == s.Flat()[x / PAGE_SIZE] && WordAt(s', x) == WordAt(s, x)
  }

  /** All usable bytes are kept except those in `[lo, hi)`. */
  ghost predicate KeptBut(s: Space, s': Space, lo: nat, hi: nat)
    requires InRam(s.mem, s.dir) && InRam(s'.mem, s'.dir)
  {
    forall x: nat {:trigger ByteKept(s, s', x)} :: Usable(s, x) && !(lo <= x < hi) ==> ByteKept(s, s', x)
  }

  /** All usable bytes are kept. */
  ghost predicate AllKept(s: Space, s': Space)
    requires InRam(s.mem, s.dir) && InRam(s'.mem, s'.dir)
  {
    KeptBut(s, s', 0, 0)
  }

  /** `n` words from `addr` on can be stored to. */
  ghost predicate Storable(s: Space, addr: nat, n: nat)
    requires InRam(s.mem, s.dir)
  {
    addr % 4 == 0 && addr + 4 * n <= TWO_32 && forall i :: 0 <= i < n ==> Usable(s, addr + 4 * i)
  }

  /** The words from `addr` on are `words`. */
  ghost predicate Holds(s: Space, addr: nat, words: seq<Word>)
    requires InRam(s.mem, s.dir)
  {
    forall i :: 0 <= i < |words| ==> Usable(s, addr + 4 * i) && WordAt(s, addr + 4 * i) == words[i]
  }

  /** A store changes the four bytes of its word. */
  lemma StoreWord(s: Space, addr: nat, w: Word)
    requires s.Valid() && addr % 4 == 0 && Usable(s, addr)
    ensures InRam(s.mem, FrameOf(s.Flat()[addr / PAGE_SIZE]))
    ensures var s' := s.(mem := Put(s.mem, FrameOf(s.Flat()[addr / PAGE_SIZE]), addr % PAGE_SIZE / 4, w));
            && s'.Valid() && s'.Flat() == s.Flat() && s'.Tables() == s.Tables()
            && KeptBut(s, s', addr, addr + 4) && WordAt(s', addr) == w
  {
    var page, i := addr / PAGE_SIZE, addr % PAGE_SIZE / 4;
    StoreIsLocal(s, page, i, w);
    var s' := s.(mem := Put(s.mem, FrameOf(s.Flat()[page]), i, w));
    forall x: nat | Usable(s, x) && !(addr <= x < addr + 4)
      ensures ByteKept(s, s', x)
    {
      if x / PAGE_SIZE == page {
        OtherWord(addr, x);
      }
    }
  }

  lemma OtherWord(addr: nat, x: nat)
    requires addr % 4 == 0 && x / PAGE_SIZE == addr / PAGE_SIZE && !(addr <= x < addr + 4)
    ensures x % PAGE_SIZE / 4 != addr % PAGE_SIZE / 4
  {
    var p, a, b := addr / PAGE_SIZE, addr % PAGE_SIZE, x % PAGE_SIZE;
    assert addr == p * PAGE_SIZE + a && x == p * PAGE_SIZE + b;
    assert a == a / 4 * 4;
  }

  lemma KeptButTwice(s: Space, s1: Space, s2: Space, lo: nat, hi: nat)
    requires InRam(s.mem, s.dir) && InRam(s1.mem, s1.dir) && InRam(s2.mem, s2.dir)
    requires KeptBut(s, s1, lo, hi) && KeptBut(s1, s2, lo, hi)
    ensures KeptBut(s, s2, lo, hi)
  {
    forall x: nat | Usable(s, x) && !(lo <= x < hi)
      ensures ByteKept(s, s2, x)
    {
      assert ByteKept(s, s1, x) && ByteKept(s1, s2, x);
    }
  }

  lemma KeptButLess(s: Space, s': Space, lo: nat, hi: nat, lo': nat, hi': nat)
    requires InRam(s.mem, s.dir) && InRam(s'.mem, s'.dir)
    requires KeptBut(s, s', lo, hi) && lo' <= lo && hi <= hi'
    ensures KeptBut(s, s', lo', hi')
  {
    forall x: nat | Usable(s, x) && !(lo' <= x < hi')
      ensures ByteKept(s, s', x)
    {
    }
  }

  /** What lies elsewhere stays. */
  lemma HoldsStill(s: Space, s': Space, lo: nat, hi: nat, addr: nat, words: seq<Word>)
    requires InRam(s.mem, s.dir) && InRam(s'.mem, s'.dir) && KeptBut(s, s', lo, hi) && Holds(s, addr, words)
    requires addr + 4 * |words| <= lo || hi <= addr
    ensures Holds(s', addr, words)
  {
    forall i | 0 <= i < |words|
      ensures Usable(s', addr + 4 * i) && WordAt(s', addr + 4 * i) == words[i]
    {
      assert ByteKept(s, s', addr + 4 * i);
    }
  }

  lemma KeptSame(s: Space)
    requires InRam(s.mem, s.dir)
    ensures AllKept(s, s)
  {
  }

  lemma MemoryKeptIs(s: Space, s': Space)
    requires InRam(s.mem, s.dir) && InRam(s'.mem, s'.dir) && MemoryKept(s, s')
    ensures AllKept(s, s')
  {
    forall x: nat | Usable(s, x)
      ensures ByteKept(s, s', x)
    {
      assert PageKept(s, s', x / PAGE_SIZE);
    }
  }

  /** One more word after those that are there. */
  lemma HoldsMore(s: Space, s': Space, addr: nat, words: seq<Word>, w: Word)
    requires InRam(s.mem, s.dir) && InRam(s'.mem, s'.dir) && Holds(s, addr, words)
    requires KeptBut(s, s', addr + 4 * |words|, addr + 4 * |words| + 4)
    requires Usable(s', addr + 4 * |words|) && WordAt(s', addr + 4 * |words|) == w
    ensures Holds(s', addr, words + [w])
  {
    HoldsStill(s, s', addr + 4 * |words|, addr + 4 * |words| + 4, addr, words);
    var all := words + [w];
    forall i | 0 <= i < |all|
      ensures Usable(s', addr + 4 * i) && WordAt(s', addr + 4 * i) == all[i]
    {
      assert i < |words| ==> all[i] == words[i];
    }
  }

  /** One word of `words` has been stored after the `i` before it. */
  lemma WordsAdded(s: Space, s1: Space, s2: Space, addr: nat, words: seq<Word>, i: nat)
    requires InRam(s.mem, s.dir) && InRam(s1.mem, s1.dir) && InRam(s2.mem, s2.dir) && i < |words|
    requires KeptBut(s, s1, addr, addr + 4 * |words|) && Holds(s1, addr, words[..i])
    requires KeptBut(s1, s2, addr + 4 * i, addr + 4 * i + 4)
    requires Usable(s2, addr + 4 * i) && WordAt(s2, addr + 4 * i) == words[i]
    ensures KeptBut(s, s2, addr, addr + 4 * |words|) && Holds(s2, addr, words[..i + 1])
  {
    KeptButLess(s1, s2, addr + 4 * i, addr + 4 * i + 4, addr, addr + 4 * |words|);
    KeptButTwice(s, s1, s2, addr, addr + 4 * |words|);
    HoldsMore(s1, s2, addr, words[..i], words[i]);
    assert words[..i + 1] == words[..i] + [words[i]];
  }

  /** A store to a page above the reserved area changes no translation. */
  lemma StoreKeepsWalks(s: Space, page: nat, i: nat, w: Word)
    requires s.Valid() && page in s.Flat() && RESERVED_PAGES <= page && i < ENTRIES
    ensures InRam(s.mem, FrameOf(s.Flat()[page])) && page < PAGES && Walk(s.mem, s.dir, page) == Some(s.Flat()[page])
    ensures SameWalks(s.mem, Put(s.mem, FrameOf(s.Flat()[page]), i, w), s.dir, {})
  {
    DataFrameIsUnused(s, page);
    var f := FrameOf(s.Flat()[page]);
    StoreElsewhere(s.mem, s.dir, f, s.mem[f][i := w]);
  }

  /** Nothing changed, and then only bytes that were not mapped before were written. */
  lemma NewPagesWritten(s: Space, s1: Space, s2: Space, page: nat, pages: nat)
    requires InRam(s.mem, s.dir) && InRam(s1.mem, s1.dir) && InRam(s2.mem, s2.dir)
    requires AllKept(s, s1) && KeptBut(s1, s2, page * PAGE_SIZE, (page + pages) * PAGE_SIZE)
    requires forall p :: page <= p < page + pages ==> p !in s.Flat()
    ensures AllKept(s, s2)
  {
    forall x: nat | Usable(s, x)
      ensures ByteKept(s, s2, x)
    {
      assert !(page * PAGE_SIZE <= x < (page + pages) * PAGE_SIZE);
      assert ByteKept(s, s1, x) && ByteKept(s1, s2, x);
    }
  }
}
