/**
 The kernel heap of `kernel/mm/heap.c` as values: what a block contains, who owns each of its sections, and what one
 allocation or release does to it.
 */
module HeapModel {
  import opened Words
  import opened Runs
  import opened Layout

  /** sizeof(kheap_block_t) on i386 */
  const HEADER: nat := 40

  const SECTION_SIZE_DEFAULT: nat := 16
  const MIN_BLOCK_SIZE_DEFAULT: nat := 0x10_0000

  // ----- Geometry of a block

  /** Bytes of a block that one word of a bit vector stands for; the product can wrap. */
  function BytesPerInt(section: Word): Word {
    Wrap(section * 32)
  }

  /** kheap_add_block divides by `BytesPerInt`. */
  predicate Divides(section: Word)
    ensures Divides(section) ==> section > 0
  {
    BytesPerInt(section) > 0
  }

  /** Bytes of one bit vector for a block of `size` bytes. */
  function BitsetBytes(size: Word, section: Word): nat
    requires Divides(section)
  {
    DivRoundUp(size, BytesPerInt(section)) * 4
  }

  /** Bytes at the front of a block: header, used bits, delimiter bits. */
  function Metadata(size: Word, section: Word): nat
    requires Divides(section)
  {
    HEADER + BitsetBytes(size, section) * 2
  }

  /** Sections that the metadata occupies. */
  function Reserved(size: Word, section: Word): nat
    requires Divides(section)
  {
    DivRoundUp(Wrap(Metadata(size, section)), section)
  }

  /** The division is by zero exactly for multiples of 2^27. */
  lemma DividesIff(section: Word)
    ensures Divides(section) <==> section % 0x0800_0000 != 0
    ensures Divides(section) ==> BytesPerInt(section) >= 32
  {
    var q, r := section / 0x0800_0000, section % 0x0800_0000;
    assert section * 32 == q * TWO_32 + r * 32;
  }

  // ----- State of a block

  /**
   A live allocation: sections `[head, end)` belong to it, and the caller holds `addr`, from which it may use `bytes`
   bytes. Alignment can put `addr` past the first section.
   */
  datatype Alloc = Alloc(head: nat, addr: nat, bytes: nat, end: nat)

  /** `leaked` holds the sections that an aligned allocation left behind when it was freed. */
  datatype Block = Block(start: nat, size: Word, section: Word, cursor: nat, used: seq<bool>, delims: seq<bool>,
                         live: set<Alloc>, leaked: set<nat>)
  {
    /** The metadata fits in the block, which is page-aligned and inside the address space. */
    ghost predicate Geometry() {
      && start % PAGE_SIZE == 0 && start + size <= TWO_32
      && section >= 4 && Divides(section) && size > Metadata(size, section)
      && |used| == |delims| == DivRoundUp(size, section)
    }

    function Length(): nat {
      |used|
    }

    function Meta(): nat
      requires Divides(section)
    {
      Reserved(size, section)
    }

    /** The section of an address in the block. */
    function SectionOf(addr: nat): nat
      requires section > 0 && start <= addr
    {
      (addr - start) / section
    }

    function SectionAddr(i: nat): nat {
      start + i * section
    }

    /** Allocation `a` lies behind the metadata and inside the block, and its bytes lie in its sections. */
    ghost predicate Placed(a: Alloc)
      requires Divides(section)
    {
      && Meta() <= a.head < a.end <= Length()
      && SectionAddr(a.head) <= a.addr < SectionAddr(a.end)
      && a.addr + a.bytes <= SectionAddr(a.end)
    }

    ghost predicate Covered(i: nat) {
      exists a :: a in live && a.head <= i < a.end
    }

    /**
     Ownership: a section is marked used exactly when it is metadata, part of a live allocation, or leaked, and never
     two of these; a section is a delimiter exactly when it is the last of a live allocation.
     */
    ghost predicate Owned()
      requires Divides(section) && |used| == |delims|
    {
      && (forall a :: a in live ==> Placed(a))
      && (forall a, b :: a in live && b in live && a != b ==> a.end <= b.head || b.end <= a.head)
      && (forall i :: i in leaked ==> Meta() <= i < Length() && !Covered(i))
      && (forall i :: 0 <= i < Length() ==> (used[i] <==> i < Meta() || i in leaked || Covered(i)))
      && (forall i :: 0 <= i < Length() ==> (delims[i] <==> exists a :: a in live && a.end == i + 1))
    }

    ghost predicate Inv() {
      Geometry() && Meta() <= Length() && cursor <= Length() && Owned()
    }
  }

  // ----- Next-fit search

  ghost predicate NoneFree(v: seq<bool>, lo: nat, hi: nat) {
    forall i :: lo <= i < hi && i < |v| ==> v[i]
  }

  /**
   What the circular scan from `c` finds. It never accepts a run that wraps past the end, and it considers the part
   before `c` only when the part from `c` on has no free section at all.
   */
  ghost predicate NextFit(v: seq<bool>, c: nat, n: nat, found: Option<nat>) {
    match found
    case Some(s) => LowestRun(v, c, |v|, n, s) || (NoneFree(v, c, |v|) && LowestRun(v, 0, c, n, s))
    case None => NoRun(v, c, |v|, n) && (NoneFree(v, c, |v|) ==> NoRun(v, 0, c, n))
  }

  /** The scan succeeds exactly under this condition on the bits. */
  lemma NextFitSucceedsIff(v: seq<bool>, c: nat, n: nat, found: Option<nat>)
    requires c <= |v| && n > 0 && NextFit(v, c, n, found)
    ensures found.Some? <==>
              || (exists s: nat :: c <= s && FreeRun(v, s, n))
              || (NoneFree(v, c, |v|) && exists s: nat :: s + n <= c && FreeRun(v, s, n))
    ensures found.Some? ==> FreeRun(v, found.value, n)
    ensures found.Some? && c <= found.value ==> forall s: nat :: c <= s && FreeRun(v, s, n) ==> found.value <= s
    ensures found.Some? && found.value < c ==> forall s: nat :: FreeRun(v, s, n) ==> found.value <= s
  {
    match found
    case Some(s) =>
      if s < c {
        assert NoneFree(v, c, |v|) && s + n <= c;
        forall t: nat | FreeRun(v, t, n)
          ensures s <= t
        {
        }
      }
    case None =>
      forall s: nat | FreeRun(v, s, n)
        ensures !(c <= s) && !(NoneFree(v, c, |v|) && s + n <= c)
      {
        assert s + n <= |v|;
      }
  }

  /**
   The state of the circular scan from `c` after `k` sections, as the code keeps it in `first_free` and
   `continuous_pages`. Once a free section has been seen before the end, the part before `c` only resets the count.
   */
  ghost predicate Probed(v: seq<bool>, c: nat, n: nat, k: nat, first: nat, cont: nat) {
    && c < |v| && k <= |v| && n > 0
    && if c + k <= |v| then
         && Scanned(v, c, c + k, n, cont) && (cont > 0 ==> first == c + k - cont)
         && if NoneFree(v, c, c + k) then first == 0 && cont == 0 else c <= first < c + k
       else if NoneFree(v, c, |v|) then
         var pos := c + k - |v|;
         Scanned(v, 0, pos, n, cont) && (cont > 0 ==> first == pos - cont) && first <= pos
       else NoRun(v, c, |v|, n) && c <= first && cont < n && n >= 2
  }

  /** One more section is probed: what the code does to its two variables, and what follows. */
  lemma SearchStep(v: seq<bool>, c: nat, n: nat, k: nat, first: nat, cont: nat)
    requires Probed(v, c, n, k, first, cont) && k < |v|
    ensures var i := if c + k < |v| then c + k else c + k - |v|;
            if v[i] then Probed(v, c, n, k + 1, first, 0)
            else
              var cont' := (if i < first then 0 else cont) + 1;
              var first' := if i >= first && cont == 0 then i else first;
              if cont' == n then NextFit(v, c, n, Some(first')) && FreeRun(v, first', n)
              else Probed(v, c, n, k + 1, first', cont')
  {
    if c + k < |v| {
      SearchFirstPart(v, c, n, k, first, cont);
    } else if NoneFree(v, c, |v|) {
      SearchSecondPart(v, c, n, k, first, cont);
    } else {
      SearchLostPart(v, c, n, k, first, cont);
    }
  }

  /** A scan that has been all the way round without stopping found nothing to accept. */
  lemma SearchEnds(v: seq<bool>, c: nat, n: nat, first: nat, cont: nat)
    requires Probed(v, c, n, |v|, first, cont)
    ensures NextFit(v, c, n, None)
  {
    forall t: nat | c <= t && t + n <= |v| && NoneFree(v, c, |v|)
      ensures !FreeRun(v, t, n)
    {
      assert v[t];
    }
  }

  lemma SearchLostPart(v: seq<bool>, c: nat, n: nat, k: nat, first: nat, cont: nat)
    requires Probed(v, c, n, k, first, cont) && k < |v| <= c + k && !NoneFree(v, c, |v|)
    ensures c + k - |v| < first && n >= 2
    ensures Probed(v, c, n, k + 1, first, 0) && Probed(v, c, n, k + 1, first, 1)
  {
    if n == 1 {
      var i :| c <= i < |v| && !v[i];
      assert FreeRun(v, i, 1);
    }
  }

  lemma SearchFirstPart(v: seq<bool>, c: nat, n: nat, k: nat, first: nat, cont: nat)
    requires Probed(v, c, n, k, first, cont) && c + k < |v|
    ensures var i := c + k;
            && first <= i
            && if v[i] then Probed(v, c, n, k + 1, first, 0)
               else
                 var first' := if cont == 0 then i else first;
                 if cont + 1 == n then NextFit(v, c, n, Some(first')) && FreeRun(v, first', n)
                 else Probed(v, c, n, k + 1, first', cont + 1)
  {
    ScanStep(v, c, c + k, n, cont);
  }

  lemma SearchSecondPart(v: seq<bool>, c: nat, n: nat, k: nat, first: nat, cont: nat)
    requires Probed(v, c, n, k, first, cont) && k < |v| <= c + k && NoneFree(v, c, |v|)
    ensures var i := c + k - |v|;
            && first <= i
            && if v[i] then Probed(v, c, n, k + 1, first, 0)
               else
                 var first' := if cont == 0 then i else first;
                 if cont + 1 == n then NextFit(v, c, n, Some(first')) && FreeRun(v, first', n)
                 else Probed(v, c, n, k + 1, first', cont + 1)
  {
    var i := c + k - |v|;
    assert Scanned(v, 0, i, n, cont);
    ScanStep(v, 0, i, n, cont);
  }

  // ----- One allocation and one release in a block

  /** The block after sections `[head, head + n)` have been given out, with `addr` returned for `bytes` bytes. */
  ghost function Allocate(b: Block, head: nat, n: nat, addr: nat, bytes: nat): Block
    requires n > 0 && head + n <= |b.delims|
  {
    b.(used := Fill(b.used, head, head + n, true), delims := b.delims[head + n - 1 := true], cursor := head + n,
       live := b.live + {Alloc(head, addr, bytes, head + n)})
  }

  ghost function Span(lo: nat, hi: nat): (s: set<nat>)
    ensures forall i: nat :: i in s <==> lo <= i < hi
    decreases hi - lo
  {
    if lo < hi then {lo} + Span(lo + 1, hi) else {}
  }

  /** The block after live allocation `a` has been freed through its address. */
  ghost function Release(b: Block, a: Alloc): Block
    requires b.section > 0 && b.start <= a.addr && 0 < a.end <= |b.delims|
  {
    var sect := b.SectionOf(a.addr);
    b.(used := Fill(b.used, sect, a.end, false), delims := b.delims[a.end - 1 := false], cursor := sect,
       live := b.live - {a}, leaked := b.leaked + Span(a.head, sect))
  }

  lemma LiveIsUsed(b: Block, a: Alloc)
    requires b.Inv() && a in b.live
    ensures forall i :: a.head <= i < a.end ==> b.used[i]
  {
    forall i: nat | a.head <= i < a.end
      ensures b.Covered(i)
    {
    }
  }

  lemma FreeRunIsApart(b: Block, head: nat, n: nat)
    requires b.Inv() && n > 0 && FreeRun(b.used, head, n)
    ensures b.Meta() <= head
    ensures forall c :: c in b.live ==> c.end <= head || head + n <= c.head
    ensures forall i :: i in b.leaked ==> !(head <= i < head + n)
  {
    assert !b.used[head];
    forall c | c in b.live
      ensures c.end <= head || head + n <= c.head
    {
      LiveIsUsed(b, c);
      assert b.used[c.head];
    }
  }

  /** Adding an allocation covers its sections and delimits its last one. */
  lemma CoverAfterAllocate(live: set<Alloc>, a: Alloc, i: nat)
    ensures (exists c :: c in live + {a} && c.head <= i < c.end) <==>
            (exists c :: c in live && c.head <= i < c.end) || a.head <= i < a.end
    ensures (exists c :: c in live + {a} && c.end == i + 1) <==>
            (exists c :: c in live && c.end == i + 1) || a.end == i + 1
  {
    assert a in live + {a};
    if c :| c in live && c.head <= i < c.end {
      assert c in live + {a};
    }
    if c :| c in live && c.end == i + 1 {
      assert c in live + {a};
    }
  }

  lemma AllocateKeepsInv(b: Block, head: nat, n: nat, addr: nat, bytes: nat)
    requires b.Inv() && n > 0 && FreeRun(b.used, head, n) && b.Placed(Alloc(head, addr, bytes, head + n))
    ensures Allocate(b, head, n, addr, bytes).Inv()
  {
    var a := Alloc(head, addr, bytes, head + n);
    var b' := Allocate(b, head, n, addr, bytes);
    FreeRunIsApart(b, head, n);
    forall i: nat
      ensures b'.Covered(i) <==> b.Covered(i) || head <= i < head + n
      ensures (exists c :: c in b'.live && c.end == i + 1) <==> (exists c :: c in b.live && c.end == i + 1) || a.end == i + 1
    {
      CoverAfterAllocate(b.live, a, i);
    }
    assert forall c :: c in b'.live ==> c == a || c in b.live;
  }

  /** The address of a live allocation lies in one of its own sections. */
  lemma SectionOfLive(b: Block, a: Alloc)
    requires Divides(b.section) && b.Placed(a)
    ensures b.start <= a.addr && a.head <= b.SectionOf(a.addr) < a.end
  {
    var d := a.addr - b.start;
    assert 0 <= a.head * b.section;
    assert a.head * b.section <= d < a.end * b.section;
    QuotientBounds(d, b.section, a.head, a.end);
  }

  lemma QuotientBounds(d: nat, s: nat, lo: nat, hi: nat)
    requires s > 0 && lo * s <= d < hi * s
    ensures lo <= d / s < hi
  {
    var q := d / s;
    assert d == q * s + d % s;
    if q < lo {
      MulLe(q + 1, lo, s);
    }
    if hi <= q {
      MulLe(hi, q, s);
    }
  }

  lemma ReleaseKeepsInv(b: Block, a: Alloc)
    requires b.Inv() && a in b.live
    ensures b.start <= a.addr && Release(b, a).Inv()
  {
    SectionOfLive(b, a);
    var sect := b.SectionOf(a.addr);
    var b' := Release(b, a);
    forall i: nat
      ensures b'.Covered(i) <==> b.Covered(i) && !(a.head <= i < a.end)
    {
      if b.Covered(i) && !(a.head <= i < a.end) {
        var c :| c in b.live && c.head <= i < c.end;
        assert c in b'.live;
      }
    }
    forall i: nat | a.head <= i < a.end
      ensures b.Covered(i)
    {
      assert a in b.live;
    }
    forall i | 0 <= i < b.Length()
      ensures b'.delims[i] <==> exists c :: c in b'.live && c.end == i + 1
    {
      if i != a.end - 1 && b.delims[i] {
        var c :| c in b.live && c.end == i + 1;
        assert c in b'.live;
      }
    }
  }

  /** What the forward scan over the delimiter bits finds: the first one at or after `sect`, or 0 for none. */
  ghost predicate FirstDelimiter(d: seq<bool>, sect: nat, last: nat) {
    || (sect <= last < |d| && d[last] && forall i :: sect <= i < last ==> !d[i])
    || (last == 0 && forall i :: sect <= i < |d| ==> !d[i])
  }

  /**
   From the section of a live allocation's address the scan stops at that allocation's last section, whatever else is
   allocated, freed or leaked in the block. That section is not 0, so 0 can stand for "not found".
   */
  lemma ScanFindsTheEnd(b: Block, a: Alloc)
    requires b.Inv() && a in b.live
    ensures b.start <= a.addr
    ensures var sect := b.SectionOf(a.addr);
            && 0 < sect < a.end <= b.Length()
            && (forall last: nat :: FirstDelimiter(b.delims, sect, last) <==> last == a.end - 1)
            && b.delims[a.end - 1] && (forall i :: sect <= i < a.end - 1 ==> !b.delims[i])
            && (forall i :: sect <= i < a.end ==> b.used[i])
  {
    SectionOfLive(b, a);
    var sect := b.SectionOf(a.addr);
    LiveIsUsed(b, a);
    MetaPositive(b);
    assert b.delims[a.end - 1];
  }

  /** The section of `addr` is marked, and the scan from there reaches the delimiter `last` first. */
  ghost predicate DelimitedAt(b: Block, addr: nat, last: nat) {
    && b.section > 0 && b.start <= addr && |b.used| == |b.delims|
    && var sect := b.SectionOf(addr);
       && 0 < sect <= last < |b.delims|
       && b.delims[last] && (forall i :: sect <= i < last ==> !b.delims[i])
       && (forall i :: sect <= i <= last ==> b.used[i])
  }

  /** What the loops of kheap_free do to a block's own fields. */
  ghost function ClearedBlock(b: Block, sect: nat, last: nat): Block
    requires last < |b.delims|
  {
    b.(used := Fill(b.used, sect, last + 1, false), delims := b.delims[last := false], cursor := sect)
  }

  /** What kheap_malloc does to a block's own fields. */
  ghost function TakenBlock(b: Block, first: nat, n: nat): Block
    requires 0 < first + n <= |b.delims|
  {
    b.(used := Fill(b.used, first, first + n, true), delims := b.delims[first + n - 1 := true], cursor := first + n)
  }

  lemma MetaPositive(b: Block)
    requires b.Geometry()
    ensures b.Meta() > 0 && Wrap(Metadata(b.size, b.section)) == Metadata(b.size, b.section)
    ensures (b.Meta() - 1) * b.section < Metadata(b.size, b.section) <= b.Meta() * b.section
  {
    var m := Metadata(b.size, b.section);
    assert Wrap(m) == m;
    RoundedUp(m, b.section);
  }

  // ----- Conservation

  /** An allocation takes exactly `n` sections out of the free count. */
  lemma AllocateCount(b: Block, head: nat, n: nat, addr: nat, bytes: nat)
    requires |b.used| == |b.delims| && n > 0 && FreeRun(b.used, head, n)
    ensures Clear(Allocate(b, head, n, addr, bytes).used) == Clear(b.used) - n
  {
    ClearFill(b.used, head, head + n, true);
  }

  /** A release adds the sections from the address on; those before it stay marked. */
  lemma ReleaseCount(b: Block, a: Alloc)
    requires b.Inv() && a in b.live
    ensures b.start <= a.addr && b.SectionOf(a.addr) < a.end
    ensures Clear(Release(b, a).used) == Clear(b.used) + (a.end - b.SectionOf(a.addr))
  {
    ScanFindsTheEnd(b, a);
    ClearFill(b.used, b.SectionOf(a.addr), a.end, false);
  }

  // ----- Where the next search starts

  /** After an allocation the search goes on right behind it: whatever is free there is taken first. */
  lemma NextIsBehind(b: Block, head: nat, n: nat, addr: nat, bytes: nat, m: nat)
    requires n > 0 && m > 0 && |b.delims| == |b.used| && FreeRun(b.used, head, n) && FreeRun(b.used, head + n, m)
    ensures var b' := Allocate(b, head, n, addr, bytes);
            |b'.used| > 0 && NextFit(b'.used, b'.cursor % |b'.used|, m, Some(head + n))
  {
    var b' := Allocate(b, head, n, addr, bytes);
    ModUnique(b'.cursor, |b'.used|, 0, head + n);
    assert LowestRun(b'.used, head + n, |b'.used|, m, head + n);
  }

  /** An allocation at the end of the block sends the next search to the front. */
  lemma NextIsAtFront(b: Block, head: nat, n: nat, addr: nat, bytes: nat, m: nat, found: Option<nat>)
    requires n > 0 && m > 0 && |b.delims| == |b.used| == head + n && FreeRun(b.used, head, n)
    requires var v := Allocate(b, head, n, addr, bytes).used;
             if found.Some? then LowestRun(v, 0, |v|, m, found.value) else NoRun(v, 0, |v|, m)
    ensures var b' := Allocate(b, head, n, addr, bytes); NextFit(b'.used, b'.cursor % |b'.used|, m, found)
  {
    ModUnique(head + n, head + n, 1, 0);
  }

  /** After a free the sections from the address on, which have just become free, are the first to be taken again. */
  lemma FreedIsNext(b: Block, a: Alloc, m: nat)
    requires b.Inv() && a in b.live
    ensures b.start <= a.addr
    ensures var b', s := Release(b, a), b.SectionOf(a.addr);
            0 < m <= a.end - s ==> |b'.used| > 0 && NextFit(b'.used, b'.cursor % |b'.used|, m, Some(s))
  {
    ReleaseCount(b, a);
    assert b.Placed(a);
    var b', s := Release(b, a), b.SectionOf(a.addr);
    if 0 < m <= a.end - s {
      ModUnique(b'.cursor, |b'.used|, 0, s);
      assert LowestRun(b'.used, s, |b'.used|, m, s);
    }
  }

  lemma NoDelimiterInRun(b: Block, head: nat, n: nat)
    requires b.Inv() && n > 0 && FreeRun(b.used, head, n)
    ensures !b.delims[head + n - 1]
  {
    forall c | c in b.live
      ensures c.end != head + n
    {
      LiveIsUsed(b, c);
      assert b.used[c.end - 1] && !b.used[head + n - 1];
    }
  }

  /**
   Freeing right after allocating puts both bit vectors back, except that the sections in front of the returned
   address stay marked and become leaked. An unaligned allocation leaks nothing.
   */
  lemma {:induction false} ReleaseUndoesAllocate(b: Block, head: nat, n: nat, addr: nat, bytes: nat)
    requires b.Inv() && n > 0 && FreeRun(b.used, head, n)
    requires b.Placed(Alloc(head, addr, bytes, head + n)) && Alloc(head, addr, bytes, head + n) !in b.live
    ensures var a, b1 := Alloc(head, addr, bytes, head + n), Allocate(b, head, n, addr, bytes);
            && b1.start <= addr
            && var b2, sect := Release(b1, a), b.SectionOf(addr);
               && b2.used == Fill(b.used, head, sect, true) && b2.delims == b.delims
               && b2.live == b.live && b2.leaked == b.leaked + Span(head, sect)
               && (addr == b.SectionAddr(head) ==> b2.used == b.used && b2.leaked == b.leaked)
  {
    var a, b1 := Alloc(head, addr, bytes, head + n), Allocate(b, head, n, addr, bytes);
    SectionOfLive(b, a);
    NoDelimiterInRun(b, head, n);
    var b2, sect := Release(b1, a), b.SectionOf(addr);
    assert b2.delims == b.delims;
    assert b2.used == Fill(b.used, head, sect, true);
    assert b2.live == b.live;
    if addr == b.SectionAddr(head) {
      assert addr - b.start == head * b.section;
      ModUnique(addr - b.start, b.section, head, 0);
      assert b2.used == b.used;
      assert Span(head, sect) == {};
    }
  }

  // ----- Sizes, alignment and the guard

  /** The address returned for a run that starts at `base`. */
  function Aligned(base: nat, align: nat, manual: bool): nat {
    if manual && align > 0 && base % align > 0 then base + (align - base % align) else base
  }

  /**
   The returned region is usable: aligned when alignment was paid for, and inside the sections that were marked. It
   leaks `pad / section` sections when it is freed, where `pad < align`.
   */
  lemma RegionIsUsable(b: Block, head: nat, n: nat, size: Word, align: Word, manual: bool)
    requires Divides(b.section) && n > 0 && b.Meta() <= head && head + n <= b.Length()
    requires (manual ==> align > 0) && size + (if manual then align else 0) <= n * b.section
    ensures var addr := Aligned(b.SectionAddr(head), align, manual);
            && b.Placed(Alloc(head, addr, size, head + n))
            && (manual ==> addr % align == 0)
            && var pad := addr - b.SectionAddr(head);
               (if manual then pad < align else pad == 0) && b.start <= addr
               && b.SectionOf(addr) - head == pad / b.section
  {
    var base := b.SectionAddr(head);
    var addr := Aligned(base, align, manual);
    var pad := addr - base;
    assert b.SectionAddr(head + n) == base + n * b.section;
    assert n * b.section > 0;
    if manual {
      AlignUp(base, align);
    }
    assert addr - b.start == head * b.section + pad;
    AddQuotient(head, b.section, pad);
  }

  lemma AlignUp(base: nat, align: nat)
    requires align > 0
    ensures var addr := Aligned(base, align, true); addr % align == 0 && base <= addr < base + align
  {
    if base % align > 0 {
      var q := base / align;
      assert base == q * align + base % align;
      assert base + (align - base % align) == (q + 1) * align;
      ModUnique(base + (align - base % align), align, q + 1, 0);
    }
  }

  lemma AddQuotient(k: nat, s: nat, pad: nat)
    requires s > 0
    ensures (k * s + pad) / s == k + pad / s
  {
    assert pad == pad / s * s + pad % s;
    assert k * s + pad == (k + pad / s) * s + pad % s;
    ModUnique(k * s + pad, s, k + pad / s, pad % s);
  }

  /** Alignment equal to the section size is not paid for: it holds exactly when the block starts on such a boundary. */
  lemma SectionAlignedIff(b: Block, head: nat)
    requires b.section > 0
    ensures b.SectionAddr(head) % b.section == 0 <==> b.start % b.section == 0
  {
    var q, r := b.start / b.section, b.start % b.section;
    assert b.start == q * b.section + r;
    assert b.SectionAddr(head) == (q + head) * b.section + r;
    ModUnique(b.SectionAddr(head), b.section, q + head, r);
  }

  /** The padded size fits 32 bits exactly when the wrapped one still covers the request: the code does not check. */
  lemma PaddingCoversIff(size: Word, align: Word)
    requires align > 0
    ensures Wrap(size + align) >= size + align <==> size + align < TWO_32
    ensures size + align >= TWO_32 ==> Wrap(size + align) < size
  {
  }

  function MaxFreeSpace(b: Block): Word {
    Wrap(b.size - HEADER - |b.delims| / 32 * 4 - |b.used| / 32 * 4)
  }

  /** The guard of kheap_malloc: this block is skipped without being searched. */
  ghost predicate Skipped(b: Block, size: Word)
    requires b.section > 0
  {
    size > MaxFreeSpace(b) || DivRoundUp(size, b.section) > Clear(b.used)
  }

  /** The block is a whole number of sections. */
  predicate WholeSections(b: Block) {
    b.section > 0 && b.size % b.section == 0
  }

  /** The last section lies inside the block exactly when the sections fill the block. */
  lemma LastSectionInsideIff(b: Block)
    requires b.Geometry()
    ensures b.Length() * b.section <= b.size <==> WholeSections(b)
  {
    RoundedUp(b.size, b.section);
    if b.size % b.section == 0 {
      WholeLength(b);
    } else if b.Length() * b.section == b.size {
      ModUnique(b.size, b.section, b.Length(), 0);
    }
  }

  /** Allocations can reach past the end of a block exactly when its sections do not fill it and some are not metadata. */
  lemma AllocationsStayInsideIff(b: Block)
    requires b.Geometry() && b.Meta() <= b.Length()
    ensures (forall a :: b.Placed(a) ==> a.addr + a.bytes <= b.start + b.size) <==>
            WholeSections(b) || b.Meta() == b.Length()
  {
    LastSectionInsideIff(b);
    forall a | b.Placed(a) && WholeSections(b)
      ensures a.addr + a.bytes <= b.start + b.size
    {
      MulLe(a.end, b.Length(), b.section);
    }
    if !WholeSections(b) && b.Meta() < b.Length() {
      var last := b.Length() - 1;
      assert b.SectionAddr(last + 1) == b.SectionAddr(last) + b.section;
      assert b.Placed(Alloc(last, b.SectionAddr(last), b.section, last + 1));
    }
  }

  /** In a block of whole sections the guard never skips a run that would fit. */
  lemma GuardIsSound(b: Block, size: Word, s: nat)
    requires b.Inv() && WholeSections(b) && size > 0 && FreeRun(b.used, s, DivRoundUp(size, b.section))
    ensures !Skipped(b, size)
  {
    var n := DivRoundUp(size, b.section);
    RoundedUp(size, b.section);
    RunWithinClear(b.used, s, n);
    FreeIsBehindMetadata(b);
    MulLe(n, b.Length() - b.Meta(), b.section);
    FreeSpaceIsEnough(b);
  }

  /** The sections behind the metadata hold no more bytes than the guard allows for. */
  lemma FreeSpaceIsEnough(b: Block)
    requires b.Inv() && WholeSections(b)
    ensures (b.Length() - b.Meta()) * b.section <= MaxFreeSpace(b)
  {
    MetaPositive(b);
    WholeLength(b);
    NoWrapInGuard(b);
    Distribute(b.Length(), b.Meta(), b.section);
  }

  lemma Distribute(x: nat, y: nat, s: nat)
    ensures (x - y) * s == x * s - y * s
  {
  }

  lemma NoWrapInGuard(b: Block)
    requires b.Geometry()
    ensures b.size - Metadata(b.size, b.section) <= MaxFreeSpace(b) <= b.size
    ensures MaxFreeSpace(b) == b.size - 40 - 8 * (b.Length() / 32)
  {
    BitsetCovers(b);
    var room := b.size - HEADER - |b.delims| / 32 * 4 - |b.used| / 32 * 4;
    assert b.size - Metadata(b.size, b.section) <= room < TWO_32;
  }

  lemma WholeLength(b: Block)
    requires b.Geometry() && WholeSections(b)
    ensures b.Length() * b.section == b.size
  {
    var q := b.size / b.section;
    assert b.size == q * b.section;
    var L := b.Length();
    RoundedUp(b.size, b.section);
    assert (L - 1) * b.section < b.size <= L * b.section;
    if L < q { MulLe(L + 1, q, b.section); }
    if q < L { MulLe(q, L - 1, b.section); }
  }

  /** Each bit vector has a word for every 32 sections. */
  lemma BitsetCovers(b: Block)
    requires b.Geometry()
    ensures b.Length() / 32 * 4 <= BitsetBytes(b.size, b.section)
    ensures b.Length() <= 32 * DivRoundUp(b.size, BytesPerInt(b.section))
  {
    var w, L := DivRoundUp(b.size, BytesPerInt(b.section)), b.Length();
    RoundedUp(b.size, b.section);
    WordsCover(b.size, b.section);
    WordsBound(b.size, b.section, L, w);
  }

  /** When the product wraps there are more words than needed. */
  lemma WordsCover(size: Word, section: Word)
    requires size > 0 && Divides(section)
    ensures size <= DivRoundUp(size, BytesPerInt(section)) * (section * 32)
  {
    var w := DivRoundUp(size, BytesPerInt(section));
    RoundedUp(size, BytesPerInt(section));
    MulLe(BytesPerInt(section), section * 32, w);
    assert w * (section * 32) == section * 32 * w && w * BytesPerInt(section) == BytesPerInt(section) * w;
  }

  /** Words of 32 sections that cover a block have a bit for each section. */
  lemma WordsBound(size: nat, section: Word, length: nat, words: nat)
    requires (length - 1) * section < size <= words * (section * 32)
    ensures length <= 32 * words
  {
    assert words * (section * 32) == (32 * words) * section;
    if length > 32 * words {
      MulLe(32 * words, length - 1, section);
    }
  }

  /** A request of 0 bytes asks for more sections than any block has. */
  lemma EmptyRequestIsSkipped(b: Block)
    requires b.Inv()
    ensures Skipped(b, 0)
  {
    var n := DivRoundUp(0, b.section);
    FreeIsBehindMetadata(b);
    MetaPositive(b);
    RoundedUp(0, b.section);
    RoundedUp(b.size, b.section);
    if n < b.Length() {
      MulLe(n, b.Length() - 1, b.section);
    }
  }

  lemma FreeIsBehindMetadata(b: Block)
    requires b.Inv()
    ensures Clear(b.used) <= b.Length() - b.Meta()
  {
    ClearSplit(b.used, b.Meta());
    ClearAll(b.used[..b.Meta()], true);
  }

  /** kheap_malloc passes this block by: it skips it, or searches it in vain. */
  ghost predicate NotHere(b: Block, size: Word)
    requires b.section > 0 && |b.used| > 0
  {
    Skipped(b, size) || NextFit(b.used, b.cursor % |b.used|, DivRoundUp(size, b.section), None)
  }

  /** kheap_malloc takes a run in this block. */
  ghost predicate Here(b: Block, size: Word, first: nat)
    requires b.section > 0 && |b.used| > 0
  {
    && !Skipped(b, size) && FreeRun(b.used, first, DivRoundUp(size, b.section))
    && NextFit(b.used, b.cursor % |b.used|, DivRoundUp(size, b.section), Some(first))
  }

  lemma HereOrNot(b: Block, size: Word, first: nat)
    requires b.section > 0 && |b.used| > 0 && Here(b, size, first)
    ensures !NotHere(b, size)
  {
    assert FreeRun(b.used, first, DivRoundUp(size, b.section));
  }
}
