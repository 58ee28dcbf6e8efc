/**
 How many pages kheap_expand asks for, in 32-bit arithmetic, and what fits the block that it adds.
 */
module Sizing {
  import opened Words
  import opened Guards
  import opened Runs
  import opened Layout
  import opened HeapModel
  import opened HeapRuns

  /** The largest request for which the sizing loop ends (`SizingEndsIff`). */
  const MAX_REQUEST: nat := 0xFC00_0FD8

  const PAGES_IN_4G: nat := 0x10_0000

  // ----- The loop

  /** What is left of `pages` pages for sections; `bitset` is the last size computed for one bit vector. */
  function Room(pages: nat, bitset: nat): Word {
    Wrap(pages * PAGE_SIZE - HEADER - bitset * 2)
  }

  /** The loop condition. */
  predicate NeedsMore(pages: nat, bitset: nat, size: Word) {
    Room(pages, bitset) < size
  }

  /** Bytes of one bit vector for `pages` pages of default-sized sections; the size in bytes can wrap. */
  function BitsetOf(pages: nat): nat {
    DivRoundUp(Wrap(pages * PAGE_SIZE), SECTION_SIZE_DEFAULT * 32) * 4
  }

  /** Pages asked for before the loop. */
  function Start(size: Word): nat {
    DivRoundUp(size, PAGE_SIZE)
  }

  /** Pages asked for after `k` rounds of the loop. */
  function PagesAt(size: Word, k: nat): Word {
    Wrap(Start(size) + k)
  }

  /** The size of one bit vector that the loop allows for after `k` rounds: that of the pages one round earlier. */
  function BitsetAt(size: Word, k: nat): nat {
    BitsetOf(PagesAt(size, if k == 0 then 0 else k - 1))
  }

  predicate Stops(size: Word, k: nat) {
    !NeedsMore(PagesAt(size, k), BitsetAt(size, k), size)
  }

  lemma BitsetOfPages(pages: nat)
    ensures BitsetOf(pages) == 32 * (if pages % PAGES_IN_4G == 0 then PAGES_IN_4G else pages % PAGES_IN_4G)
  {
    var q, r := pages / PAGES_IN_4G, pages % PAGES_IN_4G;
    assert pages * PAGE_SIZE == q * TWO_32 + r * PAGE_SIZE;
    assert Wrap(pages * PAGE_SIZE) == r * PAGE_SIZE;
  }

  lemma WrapShift(m: int, y: int)
    ensures Wrap(m * TWO_32 + y) == Wrap(y)
  {
  }

  /** What the loop compares with the request once its body has run: `q` pages before the last increment. */
  lemma StaleRoom(q: Word)
    ensures var r, room := q % PAGES_IN_4G, Room(Wrap(q + 1), BitsetOf(q));
            && room == (if r == 0 then MAX_REQUEST else if r == PAGES_IN_4G - 1 then 0xFC00_0018 else 4032 * (r + 1) + 24)
            && room <= MAX_REQUEST
  {
    BitsetOfPages(q);
    var r := q % PAGES_IN_4G;
    var t := (r + 1) % PAGES_IN_4G;
    var m := Wrap(q + 1) / PAGES_IN_4G;
    NextPage(q);
    assert Wrap(q + 1) * PAGE_SIZE == m * TWO_32 + t * PAGE_SIZE;
    WrapShift(m, t * PAGE_SIZE - HEADER - BitsetOf(q) * 2);
    StaleForm(r, t, BitsetOf(q));
  }

  lemma StaleForm(r: nat, t: nat, bitset: nat)
    requires r < PAGES_IN_4G && t == (r + 1) % PAGES_IN_4G
    requires bitset == 32 * if r == 0 then PAGES_IN_4G else r
    ensures var room := Wrap(t * PAGE_SIZE - HEADER - bitset * 2);
            && room == (if r == 0 then MAX_REQUEST else if r == PAGES_IN_4G - 1 then 0xFC00_0018 else 4032 * (r + 1) + 24)
            && room <= MAX_REQUEST
  {
    if r == PAGES_IN_4G - 1 {
      assert t == 0;
    } else {
      assert t == r + 1;
    }
  }

  lemma NextPage(q: Word)
    ensures Wrap(q + 1) % PAGES_IN_4G == (q % PAGES_IN_4G + 1) % PAGES_IN_4G
    ensures Wrap(q + 1) == Wrap(q + 1) / PAGES_IN_4G * PAGES_IN_4G + (q % PAGES_IN_4G + 1) % PAGES_IN_4G
  {
  }

  lemma PagesAfter(size: Word, k: nat)
    requires k > 0
    ensures PagesAt(size, k) == Wrap(PagesAt(size, k - 1) + 1)
  {
  }

  /** What the loop compares with the request before its body has run. */
  lemma FirstRoom(start: nat)
    requires 0 < start <= PAGES_IN_4G
    ensures Room(start, BitsetOf(start)) == if start == PAGES_IN_4G then 0xFBFF_FFD8 else 4032 * start - HEADER
  {
    BitsetOfPages(start);
  }

  /** The sizing loop ends exactly for requests up to 0xFC000FD8 bytes. */
  lemma SizingEndsIff(size: Word)
    ensures (exists k: nat :: Stops(size, k)) <==> size <= MAX_REQUEST
  {
    if size <= MAX_REQUEST {
      StopsAtLast(size);
    } else {
      forall k: nat
        ensures !Stops(size, k)
      {
        NeverStops(size, k);
      }
    }
  }

  lemma NeverStops(size: Word, k: nat)
    requires size > MAX_REQUEST
    ensures !Stops(size, k)
  {
    if k == 0 {
      StartPages(size);
      FirstRoom(Start(size));
    } else {
      PagesAfter(size, k);
      StaleRoom(PagesAt(size, k - 1));
    }
  }

  lemma StartPages(size: Word)
    ensures 0 < Start(size) <= PAGES_IN_4G && PagesAt(size, 0) == Start(size)
    ensures size > 0 ==> (Start(size) - 1) * PAGE_SIZE < size <= Start(size) * PAGE_SIZE
    ensures size == 0 ==> Start(size) == PAGES_IN_4G
  {
  }

  /** At the latest the loop ends with one page more than 2^32 bytes. */
  lemma StopsAtLast(size: Word)
    requires size <= MAX_REQUEST
    ensures 0 < Start(size) <= PAGES_IN_4G
    ensures size == 0 ==> Stops(size, 0)
    ensures size > 0 ==> Stops(size, PAGES_IN_4G + 1 - Start(size))
  {
    if size > 0 {
      StartPages(size);
      var k := PAGES_IN_4G + 1 - Start(size);
      PagesAfter(size, k);
      assert PagesAt(size, k - 1) == PAGES_IN_4G;
      StaleRoom(PAGES_IN_4G);
    }
  }

  /** The number of pages the loop leaves with. */
  ghost predicate SizedTo(size: Word, pages: nat) {
    forall key {:trigger Open(key)} :: Open(key) && key == SIZING ==> FirstStop(size, pages)
  }

  ghost predicate FirstStop(size: Word, pages: nat) {
    && Start(size) <= pages && Stops(size, pages - Start(size))
    && forall k :: 0 <= k < pages - Start(size) ==> !Stops(size, k)
  }

  /** There is only one such number. */
  lemma SizedOnce(size: Word, p: nat, q: nat)
    requires SizedTo(size, p) && SizedTo(size, q)
    ensures p == q
  {
    assert Open(SIZING);
    var i, j := p - Start(size), q - Start(size);
    assert Stops(size, i) && Stops(size, j);
  }

  /** The state of the loop after `k` rounds, none of which stopped it. */
  ghost predicate RoundsDone(size: Word, k: nat, pages: nat, bitset: nat) {
    && pages == Start(size) + k == PagesAt(size, k) && bitset == BitsetAt(size, k)
    && forall j :: 0 <= j < k ==> !Stops(size, j)
  }

  lemma OneMoreRound(size: Word, k: nat, pages: nat, bitset: nat)
    requires size <= MAX_REQUEST && RoundsDone(size, k, pages, bitset) && NeedsMore(pages, bitset, size)
    requires pages <= PAGES_IN_4G + 1
    ensures pages <= PAGES_IN_4G && RoundsDone(size, k + 1, pages + 1, BitsetOf(pages))
  {
    NotTheLastRound(size, k, pages);
    NextRound(size, k, pages);
  }

  lemma NotTheLastRound(size: Word, k: nat, pages: nat)
    requires size <= MAX_REQUEST && pages == Start(size) + k <= PAGES_IN_4G + 1
    requires forall j :: 0 <= j <= k ==> !Stops(size, j)
    ensures pages <= PAGES_IN_4G
  {
    StopsAtLast(size);
  }

  lemma NextRound(size: Word, k: nat, pages: nat)
    requires pages == Start(size) + k == PagesAt(size, k) && pages <= PAGES_IN_4G
    ensures pages + 1 == PagesAt(size, k + 1) && BitsetOf(pages) == BitsetAt(size, k + 1)
  {
  }

  lemma RoundsEnd(size: Word, k: nat, pages: nat, bitset: nat)
    requires size <= MAX_REQUEST && RoundsDone(size, k, pages, bitset) && !NeedsMore(pages, bitset, size)
    ensures SizedTo(size, pages)
  {
    assert Stops(size, k);
  }

  /**
   The same in closed form. When the loop's body has run, the bit vectors it allowed for belong to one page less than the
   final number.
   */
  ghost predicate SizedForm(size: Word, pages: nat) {
    if size == 0 || 4032 * Start(size) - HEADER >= size then pages == Start(size)
    else pages > Start(size) && !StillShort(pages, size) && forall q :: Start(size) < q < pages ==> StillShort(q, size)
  }

  /** The loop condition at `pages` pages, with the bit vectors of one page less. */
  predicate StillShort(pages: nat, size: nat) {
    4032 * pages + 24 < size
  }

  lemma RoomForm(q: nat)
    requires 0 < q <= PAGES_IN_4G
    ensures Room(q + 1, BitsetOf(q)) == 4032 * (q + 1) + 24
  {
    StaleRoom(q);
  }

  lemma StopsForm(size: Word, k: nat)
    requires 0 < size <= MAX_REQUEST && Start(size) + k <= PAGES_IN_4G + 1
    ensures k == 0 ==> (Stops(size, k) <==> 4032 * Start(size) - HEADER >= size)
    ensures k > 0 ==> (Stops(size, k) <==> !StillShort(Start(size) + k, size))
  {
    StartPages(size);
    if k == 0 {
      FirstRoom(Start(size));
    } else {
      var q := Start(size) + k - 1;
      assert PagesAt(size, k - 1) == q && PagesAt(size, k) == q + 1;
      RoomForm(q);
    }
  }

  lemma SizedMeans(size: Word, pages: nat)
    requires size <= MAX_REQUEST && SizedTo(size, pages)
    ensures SizedForm(size, pages) && 0 < pages <= PAGES_IN_4G + 1
  {
    assert Open(SIZING);
    StopsAtLast(size);
    if size > 0 {
      assert pages <= PAGES_IN_4G + 1;
      StopsForm(size, pages - Start(size));
      StopsForm(size, 0);
      forall q | Start(size) < q < pages
        ensures StillShort(q, size)
      {
        StopsForm(size, q - Start(size));
      }
    }
  }

  // ----- What fits a fresh block

  /** `b` is a fresh block of whole pages. */
  ghost predicate FreshAt(b: Block, start: nat, pages: nat, section: Word) {
    forall key {:trigger Open(key)} :: Open(key) && key == SIZING ==>
      && 0 < pages <= KERNEL_PAGES && section >= 4 && Divides(section)
      && start % PAGE_SIZE == 0 && start + pages * PAGE_SIZE <= TWO_32
      && b == NewBlock(start, pages * PAGE_SIZE, section)
  }

  lemma FreshMeans(b: Block, start: nat, pages: nat, section: Word)
    requires FreshAt(b, start, pages, section)
    ensures 0 < pages <= KERNEL_PAGES && section >= 4 && Divides(section)
    ensures start % PAGE_SIZE == 0 && start + pages * PAGE_SIZE <= TWO_32 && b == NewBlock(start, pages * PAGE_SIZE, section)
  {
    assert Open(SIZING);
  }

  /** Whole pages always have room for the metadata, also when the divisor has wrapped. */
  lemma PagesHoldMetadata(pages: nat, section: Word)
    requires 0 < pages <= KERNEL_PAGES && section >= 4 && Divides(section)
    ensures Metadata(pages * PAGE_SIZE, section) < pages * PAGE_SIZE
  {
    var size, w, d := pages * PAGE_SIZE, DivRoundUp(pages * PAGE_SIZE, BytesPerInt(section)), BytesPerInt(section);
    DividesIff(section);
    RoundedUp(size, d);
    MulLe(32, d, w - 1);
    assert (w - 1) * d == d * (w - 1);
  }

  lemma WholePagesHold(page: nat, pages: nat, section: Word)
    requires 0 < pages && page + pages <= KERNEL_PAGES && section >= 4 && Divides(section)
    ensures HoldsMetadata(pages * PAGE_SIZE, section)
    ensures page * PAGE_SIZE % PAGE_SIZE == 0 && pages * PAGE_SIZE % PAGE_SIZE == 0
    ensures page * PAGE_SIZE + pages * PAGE_SIZE <= TWO_32
  {
    PagesHoldMetadata(pages, section);
  }

  lemma NewIsFresh(b: Block, page: nat, pages: nat, section: Word)
    requires 0 < pages && page + pages <= KERNEL_PAGES && section >= 4 && Divides(section)
    requires IsNew(b, page * PAGE_SIZE, pages * PAGE_SIZE, section)
    ensures FreshAt(b, page * PAGE_SIZE, pages, section)
  {
    PageStart(page, pages);
    assert Open(RUNS);
  }

  lemma PageStart(page: nat, pages: nat)
    requires page + pages <= KERNEL_PAGES
    ensures page * PAGE_SIZE % PAGE_SIZE == 0 && page * PAGE_SIZE + pages * PAGE_SIZE <= TWO_32
  {
  }

  /** A fresh block of `pages` pages with 16-byte sections has exactly 252 * pages - 3 free sections. */
  lemma FreshBlockCapacity(start: nat, pages: nat)
    requires 0 < pages <= KERNEL_PAGES && start % PAGE_SIZE == 0 && start + pages * PAGE_SIZE <= TWO_32
    ensures var b := NewBlock(start, pages * PAGE_SIZE, SECTION_SIZE_DEFAULT);
            && b.Inv() && WholeSections(b) && b.Meta() == 4 * pages + 3 && b.Length() == 256 * pages
            && Clear(b.used) == 252 * pages - 3
  {
    PagesHoldMetadata(pages, SECTION_SIZE_DEFAULT);
    NewBlockInv(start, pages * PAGE_SIZE, SECTION_SIZE_DEFAULT);
    FreshCounts(NewBlock(start, pages * PAGE_SIZE, SECTION_SIZE_DEFAULT), pages);
  }

  lemma FreshCounts(b: Block, pages: nat)
    requires 0 < pages <= KERNEL_PAGES && b.Inv() && b.size == pages * PAGE_SIZE && b.section == SECTION_SIZE_DEFAULT
    requires Clear(b.used) == b.Length() - b.Meta()
    ensures WholeSections(b) && b.Meta() == 4 * pages + 3 && b.Length() == 256 * pages && Clear(b.used) == 252 * pages - 3
  {
    FreshGeometry(pages);
    WholeInPages(pages);
  }

  lemma WholeInPages(pages: nat)
    ensures pages * PAGE_SIZE % SECTION_SIZE_DEFAULT == 0
  {
  }

  lemma FreshGeometry(pages: nat)
    requires 0 < pages <= KERNEL_PAGES
    ensures Metadata(pages * PAGE_SIZE, SECTION_SIZE_DEFAULT) == 64 * pages + 40
    ensures Reserved(pages * PAGE_SIZE, SECTION_SIZE_DEFAULT) == 4 * pages + 3
    ensures DivRoundUp(pages * PAGE_SIZE, SECTION_SIZE_DEFAULT) == 256 * pages
  {
    FreshBits(pages);
    FreshCount(pages);
    FreshReserved(pages);
    assert BytesPerInt(SECTION_SIZE_DEFAULT) == 512;
  }

  lemma FreshBits(pages: nat)
    requires 0 < pages <= KERNEL_PAGES
    ensures DivRoundUp(pages * PAGE_SIZE, 512) == 8 * pages
  {
  }

  lemma FreshCount(pages: nat)
    requires 0 < pages <= KERNEL_PAGES
    ensures DivRoundUp(pages * PAGE_SIZE, SECTION_SIZE_DEFAULT) == 256 * pages
  {
  }

  lemma FreshReserved(pages: nat)
    requires 0 < pages <= KERNEL_PAGES
    ensures DivRoundUp(Wrap(64 * pages + 40), SECTION_SIZE_DEFAULT) == 4 * pages + 3
  {
  }

  lemma FreshRoom(pages: nat)
    requires 0 < pages <= KERNEL_PAGES
    ensures Wrap(pages * PAGE_SIZE - HEADER - 256 * pages / 32 * 4 - 256 * pages / 32 * 4) == 4032 * pages - 40
  {
    EightWords(pages);
    var room := pages * PAGE_SIZE - HEADER - 8 * pages * 4 - 8 * pages * 4;
    assert 0 <= room < TWO_32;
  }

  lemma EightWords(pages: nat)
    ensures 256 * pages / 32 == 8 * pages
  {
  }

  /** Free sections of a fresh block of `size` bytes. */
  function FreshSections(size: Word, section: Word): int
    requires Divides(section)
  {
    DivRoundUp(size, section) - Reserved(size, section)
  }

  /** The guard's estimate of the space in a fresh block. */
  function FreshSpace(size: Word, section: Word): Word
    requires Divides(section)
  {
    Wrap(size - HEADER - DivRoundUp(size, section) / 32 * 4 - DivRoundUp(size, section) / 32 * 4)
  }

  /** `size` bytes fit the free sections of a fresh block of `pages` pages, and the guard sees that they do. */
  predicate FitsFresh(size: Word, pages: nat, section: Word) {
    && Divides(section) && 0 < pages <= KERNEL_PAGES && 0 < size
    && size <= FreshSections(pages * PAGE_SIZE, section) * section && size <= FreshSpace(pages * PAGE_SIZE, section)
  }

  /**
   kheap_malloc finds a run in a fresh block, of any section size that can be used, exactly when the request fits it, and
   then at its first free section. Otherwise, and for a request of 0 bytes, it does not even search the block.
   */
  lemma FitsFreshIff(start: nat, pages: nat, section: Word, size: Word)
    requires 0 < pages <= KERNEL_PAGES && section >= 4 && Divides(section)
    requires start % PAGE_SIZE == 0 && start + pages * PAGE_SIZE <= TWO_32
    ensures var b := NewBlock(start, pages * PAGE_SIZE, section);
            && |b.used| > 0
            && (FitsFresh(size, pages, section) ==> Here(b, size, b.cursor))
            && (!FitsFresh(size, pages, section) ==> Skipped(b, size))
  {
    var b := NewBlock(start, pages * PAGE_SIZE, section);
    FreshTerms(start, pages, section);
    FreshCountIff(b, size);
    if FitsFresh(size, pages, section) {
      FreshHere(b, size);
    }
  }

  /** What the search sees of a fresh block. */
  lemma FreshTerms(start: nat, pages: nat, section: Word)
    requires 0 < pages <= KERNEL_PAGES && section >= 4 && Divides(section)
    requires start % PAGE_SIZE == 0 && start + pages * PAGE_SIZE <= TWO_32
    ensures var b := NewBlock(start, pages * PAGE_SIZE, section);
            && b.Inv() && b.Meta() > 0 && b.cursor == b.Meta() && b.section == section
            && b.Length() - b.Meta() == FreshSections(pages * PAGE_SIZE, section) == Clear(b.used)
            && MaxFreeSpace(b) == FreshSpace(pages * PAGE_SIZE, section)
            && forall i :: b.Meta() <= i < b.Length() ==> !b.used[i]
  {
    PagesHoldMetadata(pages, section);
    NewTerms(start, pages * PAGE_SIZE, section);
  }

  lemma NewTerms(start: nat, size: Word, section: Word)
    requires section >= 4 && Divides(section) && size > Metadata(size, section)
    requires start % PAGE_SIZE == 0 && start + size <= TWO_32
    ensures var b := NewBlock(start, size, section);
            && b.Inv() && b.Meta() > 0 && b.cursor == b.Meta() && b.section == section
            && b.Length() - b.Meta() == FreshSections(size, section) == Clear(b.used)
            && MaxFreeSpace(b) == FreshSpace(size, section)
            && forall i :: b.Meta() <= i < b.Length() ==> !b.used[i]
  {
    NewBlockInv(start, size, section);
    MetaPositive(NewBlock(start, size, section));
  }

  /** The guard's count of sections, in bytes. */
  lemma FreshCountIff(b: Block, size: Word)
    requires b.Inv() && b.Meta() > 0
    ensures DivRoundUp(size, b.section) <= b.Length() - b.Meta() <==> 0 < size <= (b.Length() - b.Meta()) * b.section
  {
    var n, free := DivRoundUp(size, b.section), b.Length() - b.Meta();
    RoundedUp(size, b.section);
    RoundedUp(b.size, b.section);
    MulLe(free, b.Length() - 1, b.section);
    if n <= free {
      MulLe(n, free, b.section);
    } else {
      MulLe(free, n - 1, b.section);
    }
  }

  lemma FreshHere(b: Block, size: Word)
    requires b.Inv() && size > 0 && b.cursor == b.Meta() && !Skipped(b, size)
    requires Clear(b.used) == b.Length() - b.Meta() && forall i :: b.Meta() <= i < b.Length() ==> !b.used[i]
    ensures |b.used| > 0 && Here(b, size, b.cursor)
  {
    var n := DivRoundUp(size, b.section);
    assert FreeRun(b.used, b.cursor, n);
    ModUnique(b.cursor, |b.used|, 0, b.cursor);
    assert LowestRun(b.used, b.cursor, |b.used|, n, b.cursor);
  }

  /** With 16-byte sections: up to 4032 bytes a page, less 48. */
  lemma FitsDefaultIff(size: Word, pages: nat)
    requires 0 < pages <= KERNEL_PAGES
    ensures FitsFresh(size, pages, SECTION_SIZE_DEFAULT) <==> 0 < size <= 4032 * pages - 48
  {
    FreshGeometry(pages);
    FreshRoom(pages);
  }

  /**
   The sizing falls short: with 16-byte sections the block that kheap_expand adds for a request can be too small for it,
   by up to 8 bytes when the loop body never ran and by up to 72 bytes otherwise.
   */
  lemma SizingShortfall(size: Word, pages: nat)
    requires 0 < size <= MAX_REQUEST && SizedTo(size, pages)
    ensures && (pages == Start(size) ==> size <= 4032 * pages - 48 + 8)
            && (pages > Start(size) ==> size <= 4032 * pages - 48 + 72)
            && pages >= Start(size)
  {
    SizedMeans(size, pages);
  }

  /** A request of 1209624 bytes gets 300 pages, which hold 1209552: the bound of 72 is reached. */
  lemma ShortfallWitness(pages: nat)
    requires SizedTo(1209624, pages)
    ensures pages == 300 && forall size: Word :: FitsFresh(size, 300, SECTION_SIZE_DEFAULT) ==> size <= 1209624 - 72
  {
    SizedMeans(1209624, pages);
    assert !StillShort(300, 1209624);
    forall size: Word
      ensures FitsFresh(size, 300, SECTION_SIZE_DEFAULT) ==> size <= 1209624 - 72
    {
      FitsDefaultIff(size, 300);
    }
  }

  /** With the default minimum every request of up to 0x100000 bytes fits the block that is added for it. */
  lemma DefaultBlockFits(size: Word, pages: nat)
    requires 0 < size <= MIN_BLOCK_SIZE_DEFAULT && SizedTo(MIN_BLOCK_SIZE_DEFAULT, pages)
    ensures pages == 261 && FitsFresh(size, pages, SECTION_SIZE_DEFAULT)
  {
    SizedMeans(MIN_BLOCK_SIZE_DEFAULT, pages);
    assert !StillShort(261, MIN_BLOCK_SIZE_DEFAULT);
    FitsDefaultIff(size, 261);
  }

  function Max(a: Word, b: Word): Word {
    if a > b then a else b
  }

  /** Every block that an expansion for this request can add has room for it. */
  ghost predicate FreshAlwaysFits(section: Word, min: Word, size: Word) {
    forall p :: SizedTo(Max(min, size), p) ==> FitsFresh(size, p, section)
  }

  /** No block that an expansion for this request can add has room for it. */
  ghost predicate FreshNeverFits(section: Word, min: Word, size: Word) {
    forall p :: SizedTo(Max(min, size), p) ==> !FitsFresh(size, p, section)
  }

  /** The default heap: requests of up to 0x100000 bytes after padding. */
  lemma DefaultHeapFits(size: Word)
    requires 0 < size <= MIN_BLOCK_SIZE_DEFAULT
    ensures FreshAlwaysFits(SECTION_SIZE_DEFAULT, MIN_BLOCK_SIZE_DEFAULT, size)
  {
    forall p: nat | SizedTo(MIN_BLOCK_SIZE_DEFAULT, p)
      ensures FitsFresh(size, p, SECTION_SIZE_DEFAULT)
    {
      DefaultBlockFits(size, p);
    }
  }

  /** A request of 0 bytes fits no block. */
  lemma NothingFitsNowhere(section: Word, min: Word, size: Word)
    requires size == 0
    ensures FreshNeverFits(section, min, size)
  {
  }
}
