/**
 What a call of kheap_malloc comes to: which blocks were passed by, when the heap was expanded and why that failed, and
 where the request was served.
 */
module HeapSearches {
  import opened Words
  import opened Guards
  import opened Runs
  import opened Layout
  import opened AddressSpace
  import opened HeapModel
  import opened HeapRuns
  import opened Sizing
  import opened KernelPages

  /** A request, with the heap's section size and minimum block size. */
  datatype Demand = Demand(size: Word, align: Word, section: Word, min: Word) {

    /** Alignment other than the section size is paid for by asking for more. */
    predicate Manual() {
      align > 0 && section != align
    }

    /** Bytes looked for; the sum can wrap. */
    function Padded(): Word {
      if Manual() then Wrap(size + align) else size
    }

    /** Bytes needed to serve the request at an aligned address. */
    function Needed(): nat {
      if Manual() then size + align else size
    }

    /** Whether the sum wraps. */
    predicate Wraps() {
      Needed() >= TWO_32
    }

    /** Bytes that the caller can use, and where, in a run that starts at `base`: none when the sum wraps. */
    function Usable(): Word {
      if Wraps() then 0 else size
    }

    function Address(base: nat): nat {
      if Wraps() then base else Aligned(base, align, Manual())
    }

    /** The size passed to kheap_expand. */
    function Wanted(): Word {
      Max(min, Padded())
    }
  }

  /**
   In numbers: what an allocation takes, what is looked for, in 32 bits, and what an expansion is asked for. Alignment to
   sections costs nothing.
   */
  lemma DemandMeans(c: Demand)
    ensures var need := c.size + (if c.align > 0 && c.align != c.section then c.align else 0);
            c.Needed() == need && c.Padded() == need % 0x1_0000_0000 && (c.Wraps() <==> need >= 0x1_0000_0000)
    ensures c.Wanted() >= c.min && c.Wanted() >= c.Padded() && (c.Wanted() == c.min || c.Wanted() == c.Padded())
  {
  }

  // ----- Expansions

  /** What kheap_expand asks for: a number of pages, and the run that the address space allocator has for it. */
  ghost predicate Asked(e: Env, size: Word, pages: nat, at: Option<nat>) {
    0 < pages && SizedTo(size, pages) && FoundRun(e.pages, pages, at)
  }

  ghost predicate Enough(e: Env, pages: nat, at: Option<nat>) {
    at.Some? && e.Free() >= FramesNeeded(e.tables, at.value, pages)
  }

  /** An expansion for `size` bytes cannot succeed: no run of pages, or too few frames. */
  ghost predicate Refused(e: Env, size: Word) {
    exists pages: nat, at: Option<nat> :: Asked(e, size, pages, at) && !Enough(e, pages, at)
  }

  /**
   `pages` pages from `at` on have been reserved and mapped, and the frames taken are those of the pages and of the
   tables that were missing for them. (`Open` delays the unfolding.)
   */
  ghost predicate Provided(e: Env, pages: nat, at: nat, e': Env) {
    forall key {:trigger Open(key)} :: Open(key) && key == GROWTH ==>
      && e'.pages == Fill(e.pages, at, at + pages, true)
      && RangeMapped(e.flat, e'.flat, at, pages) && (forall p :: at <= p < at + pages ==> p !in e.flat)
      && TablesUpTo(e.tables, e'.tables, at, pages) && FramesTaken(e, e')
      && e'.Free() == e.Free() - FramesNeeded(e.tables, at, pages)
  }

  lemma {:induction false} ProvidedMeans(e: Env, pages: nat, at: nat, e': Env)
    ensures Provided(e, pages, at, e') <==>
            && e'.pages == Fill(e.pages, at, at + pages, true)
            && RangeMapped(e.flat, e'.flat, at, pages) && (forall p :: at <= p < at + pages ==> p !in e.flat)
            && TablesUpTo(e.tables, e'.tables, at, pages) && FramesTaken(e, e')
            && e'.Free() == e.Free() - FramesNeeded(e.tables, at, pages)
  {
    assert Open(GROWTH);
  }

  /** The block list and the environment after a successful expansion. */
  ghost predicate Grows(e: Env, h: seq<Block>, section: Word, pages: nat, at: nat, e': Env, h': seq<Block>) {
    h' != [] && h'[1..] == h && FreshAt(h'[0], at * PAGE_SIZE, pages, section) && Provided(e, pages, at, e')
  }

  /** A successful expansion for `size` bytes. */
  ghost predicate Expanded(e: Env, h: seq<Block>, size: Word, section: Word, e': Env, h': seq<Block>) {
    exists pages: nat, at: nat ::
      Asked(e, size, pages, Some(at)) && Enough(e, pages, Some(at)) && Grows(e, h, section, pages, at, e', h')
  }

  /** There were frames for `i` pages of the run and their tables, but not for one page more. */
  ghost predicate Stuck(e: Env, pages: nat, first: nat, e': Env, i: nat) {
    && i < pages && FramesNeeded(e.tables, first, i) <= e.Free() < FramesNeeded(e.tables, first, i + 1)
    && TablesUpTo(e.tables, e'.tables, first, i)
  }

  /**
   After a refused expansion: nothing has changed when no run was found. Otherwise the run has been reserved and passed
   to asa_free, its pages are unmapped again, and the only frames taken are those of the tables of as many of its pages
   as there were frames for. (`Open` delays the unfolding.)
   */
  ghost predicate RolledBack(e: Env, pages: nat, at: Option<nat>, e': Env) {
    forall key {:trigger Open(key)} :: Open(key) && key == GROWTH ==>
      match at
      case None => e' == e
      case Some(first) =>
        && e'.pages == Released(Fill(e.pages, first, first + pages, true), first, pages) && e'.flat == e.flat
        && FramesTaken(e, e') && exists i: nat :: Stuck(e, pages, first, e', i)
  }

  lemma {:induction false} RolledBackMeans(e: Env, pages: nat, first: nat, e': Env)
    ensures RolledBack(e, pages, Some(first), e') <==>
            && e'.pages == Released(Fill(e.pages, first, first + pages, true), first, pages) && e'.flat == e.flat
            && FramesTaken(e, e') && exists i: nat :: Stuck(e, pages, first, e', i)
    ensures RolledBack(e, pages, None, e') <==> e' == e
  {
    assert Open(GROWTH);
  }

  /** An expansion for `size` bytes has been refused and undone. */
  ghost predicate GaveUp(e: Env, size: Word, e': Env) {
    exists pages: nat, at: Option<nat> ::
      Asked(e, size, pages, at) && !Enough(e, pages, at) && RolledBack(e, pages, at, e')
  }

  /** The address space allocator's answer and the page count are determined, so an expansion succeeds or is refused. */
  lemma RefusedMeans(e: Env, size: Word, pages: nat, at: Option<nat>)
    requires Asked(e, size, pages, at)
    ensures Refused(e, size) <==> !Enough(e, pages, at)
  {
    if Refused(e, size) {
      var pages', at' :| Asked(e, size, pages', at') && !Enough(e, pages', at');
      SizedOnce(size, pages, pages');
      FoundOnce(e.pages, pages, at, at');
    }
  }

  lemma FoundOnce(v: seq<bool>, n: nat, at: Option<nat>, at': Option<nat>)
    requires n > 0 && FoundRun(v, n, at) && FoundRun(v, n, at')
    ensures at == at'
  {
    assert forall s: nat :: at == Some(s) || at' == Some(s) ==> FreeRun(v, s, n);
  }

  // ----- The search

  ghost predicate Searchable(h: seq<Block>) {
    forall i :: 0 <= i < |h| ==> h[i].section > 0 && |h[i].used| > 0
  }

  lemma SoundIsSearchable(h: seq<Block>)
    requires Sound(h)
    ensures Searchable(h)
  {
    SoundIsInv(h);
    forall i | 0 <= i < |h|
      ensures |h[i].used| > 0
    {
      MetaPositive(h[i]);
    }
  }

  /** The first `k` blocks have nothing to offer. */
  ghost predicate NoneBefore(h: seq<Block>, k: nat, size: Word)
    requires Searchable(h)
  {
    forall i :: 0 <= i < k && i < |h| ==> NotHere(h[i], size)
  }

  /** In blocks of whole sections the guard plays no part: a block passed by is one in which the scan finds nothing. */
  lemma PassedByIff(h: seq<Block>, k: nat, size: Word)
    requires Searchable(h) && size > 0 && forall i :: 0 <= i < |h| ==> h[i].Inv() && WholeSections(h[i])
    ensures NoneBefore(h, k, size) <==>
            forall i :: 0 <= i < k && i < |h| ==>
              NextFit(h[i].used, h[i].cursor % |h[i].used|, DivRoundUp(size, h[i].section), None)
  {
    forall i | 0 <= i < k && i < |h| && Skipped(h[i], size)
      ensures NextFit(h[i].used, h[i].cursor % |h[i].used|, DivRoundUp(size, h[i].section), None)
    {
      var n := DivRoundUp(size, h[i].section);
      forall s: nat
        ensures !FreeRun(h[i].used, s, n)
      {
        if FreeRun(h[i].used, s, n) {
          GuardIsSound(h[i], size, s);
        }
      }
    }
  }

  /**
   From `h` in environment `e0`, kheap_malloc has come to `mid` in `e`: by expansions only, each of them after every
   block listed at the time had been passed by. (`Open` delays the unfolding.)
   */
  ghost predicate Reached(e0: Env, h: seq<Block>, e: Env, mid: seq<Block>, c: Demand)
    decreases |mid|
  {
    forall key {:trigger Open(key)} :: Open(key) && key == GROWTH ==>
      || (mid == h && e == e0)
      || (&& mid != [] && Searchable(mid[1..]) && NoneBefore(mid[1..], |mid| - 1, c.Padded())
          && exists e1 :: Expanded(e1, mid[1..], c.Wanted(), c.section, e, mid) && Reached(e0, h, e1, mid[1..], c))
  }

  lemma {:induction false} ReachedStart(e: Env, h: seq<Block>, c: Demand)
    ensures Reached(e, h, e, h, c)
  {
  }

  /** One more expansion. */
  lemma {:induction false} ReachedMore(e0: Env, h: seq<Block>, e: Env, mid: seq<Block>, c: Demand, e': Env, mid': seq<Block>)
    requires Reached(e0, h, e, mid, c) && Searchable(mid) && NoneBefore(mid, |mid|, c.Padded())
    requires Expanded(e, mid, c.Wanted(), c.section, e', mid')
    ensures Reached(e0, h, e', mid', c)
  {
    assert mid'[1..] == mid;
  }

  /** The last expansion. */
  lemma ReachedFrom(e0: Env, h: seq<Block>, e: Env, mid: seq<Block>, c: Demand) returns (e1: Env)
    requires Reached(e0, h, e, mid, c) && !(mid == h && e == e0)
    ensures mid != [] && Expanded(e1, mid[1..], c.Wanted(), c.section, e, mid) && Reached(e0, h, e1, mid[1..], c)
  {
    assert Open(GROWTH);
    e1 :| Expanded(e1, mid[1..], c.Wanted(), c.section, e, mid) && Reached(e0, h, e1, mid[1..], c);
  }

  /** It came after all other blocks had been passed by. */
  lemma {:induction false} ReachedAfterAll(e0: Env, h: seq<Block>, e: Env, mid: seq<Block>, c: Demand)
    requires Reached(e0, h, e, mid, c) && !(mid == h && e == e0)
    ensures mid != [] && Searchable(mid[1..]) && NoneBefore(mid[1..], |mid| - 1, c.Padded())
  {
    assert Open(GROWTH);
  }

  /** The blocks in front are fresh ones, sized for the request. */
  ghost predicate FreshOne(b: Block, c: Demand) {
    exists start: nat, pages: nat :: SizedTo(c.Wanted(), pages) && FreshAt(b, start, pages, c.section)
  }

  lemma {:induction false} ReachedMeans(e0: Env, h: seq<Block>, e: Env, mid: seq<Block>, c: Demand)
    requires Reached(e0, h, e, mid, c)
    ensures |h| <= |mid| && mid[|mid| - |h|..] == h && (|mid| == |h| ==> e == e0)
    ensures forall i :: 0 <= i < |mid| - |h| ==> FreshOne(mid[i], c)
    decreases |mid|
  {
    if mid == h && e == e0 {
      assert mid[0..] == h;
    } else {
      var e1 := ReachedFrom(e0, h, e, mid, c);
      var rest := mid[1..];
      ReachedMeans(e0, h, e1, rest, c);
      ExpandedMeans(e1, rest, c, e, mid);
      InFront(h, mid);
      forall i | 0 <= i < |mid| - |h|
        ensures FreshOne(mid[i], c)
      {
        assert i > 0 ==> mid[i] == rest[i - 1];
      }
    }
  }

  lemma ExpandedMeans(e: Env, h: seq<Block>, c: Demand, e': Env, h': seq<Block>)
    requires Expanded(e, h, c.Wanted(), c.section, e', h')
    ensures h' != [] && FreshOne(h'[0], c)
  {
    var pages: nat, at: nat :|
      Asked(e, c.Wanted(), pages, Some(at)) && Enough(e, pages, Some(at)) && Grows(e, h, c.section, pages, at, e', h');
  }

  lemma InFront(h: seq<Block>, mid: seq<Block>)
    requires mid != [] && |h| < |mid| && mid[1..][|mid| - 1 - |h|..] == h
    ensures mid[|mid| - |h|..] == h
  {
  }

  lemma FreshOneFits(b: Block, c: Demand)
    requires FreshOne(b, c)
    ensures b.section > 0 && |b.used| > 0
    ensures FreshAlwaysFits(c.section, c.min, c.Padded()) ==> !NotHere(b, c.Padded())
    ensures FreshNeverFits(c.section, c.min, c.Padded()) ==> NotHere(b, c.Padded()) && forall s :: !Here(b, c.Padded(), s)
  {
    assert Open(SIZING);
    var start: nat, pages: nat :| SizedTo(c.Wanted(), pages) && FreshAt(b, start, pages, c.section);
    FitsFreshIff(start, pages, c.section, c.Padded());
    if FitsFresh(c.Padded(), pages, c.section) {
      HereOrNot(b, c.Padded(), b.cursor);
    }
  }

  /** A request that every fresh block has room for is served after at most one expansion. */
  lemma {:induction false} AtMostOneExpansion(e0: Env, h: seq<Block>, e: Env, mid: seq<Block>, c: Demand)
    requires Reached(e0, h, e, mid, c) && FreshAlwaysFits(c.section, c.min, c.Padded())
    ensures |mid| <= |h| + 1
    ensures Searchable(mid) && NoneBefore(mid, |mid|, c.Padded()) ==> mid == h && e == e0
  {
    ReachedMeans(e0, h, e, mid, c);
    if |mid| > |h| {
      FreshOneFits(mid[0], c);
      if |mid| > |h| + 1 {
        ReachedAfterAll(e0, h, e, mid, c);
        assert NotHere(mid[1..][0], c.Padded());
        FreshOneFits(mid[1], c);
      }
    } else {
      assert mid[0..] == mid;
    }
  }

  /** What looking at one block says, for proofs that only pass it on. */
  ghost predicate Verdict(b: Block, size: Word, found: bool, first: nat) {
    forall key {:trigger Open(key)} :: Open(key) && key == SEARCH ==>
      b.section > 0 && |b.used| > 0 && if found then Here(b, size, first) else NotHere(b, size)
  }

  /** The loop of kheap_malloc, before block `k` of `mid` is looked at. */
  ghost predicate Looking(e0: Env, h: seq<Block>, e: Env, mid: seq<Block>, k: nat, c: Demand) {
    forall key {:trigger Open(key)} :: Open(key) && key == SEARCH ==>
      Searchable(mid) && k <= |mid| && Reached(e0, h, e, mid, c) && NoneBefore(mid, k, c.Padded())
  }

  lemma LookStart(e: Env, h: seq<Block>, c: Demand)
    requires Sound(h)
    ensures Looking(e, h, e, h, 0, c)
  {
    SoundIsSearchable(h);
    ReachedStart(e, h, c);
  }

  lemma LookOn(e0: Env, h: seq<Block>, e: Env, mid: seq<Block>, k: nat, c: Demand)
    requires Looking(e0, h, e, mid, k, c) && k < |mid| && Verdict(mid[k], c.Padded(), false, 0)
    ensures Looking(e0, h, e, mid, k + 1, c)
  {
    assert Open(SEARCH);
  }

  /** All blocks have been passed by and one is added: the search starts over. */
  lemma LookAgain(e0: Env, h: seq<Block>, e: Env, mid: seq<Block>, c: Demand, e': Env, mid': seq<Block>)
    requires Looking(e0, h, e, mid, |mid|, c) && Expanded(e, mid, c.Wanted(), c.section, e', mid') && Sound(mid')
    ensures Looking(e0, h, e', mid', 0, c) && mid' != []
  {
    assert Open(SEARCH);
    SoundIsSearchable(mid');
    ReachedMore(e0, h, e, mid, c, e', mid');
  }

  // ----- The result

  /**
   How a request was served: in the first block of the list that has a run for it, at the run that next-fit finds. When
   the padded size does not wrap, the caller gets `size` bytes at an aligned address inside that run; when it does, the
   run is too short, and nothing is promised about the address.
   */
  ghost predicate Served(h: seq<Block>, op: Op, c: Demand, out: nat)
    requires Searchable(h)
  {
    && op.Malloc? && op.i < |h| && h[op.i].section == c.section
    && NoneBefore(h, op.i, c.Padded()) && Here(h[op.i], c.Padded(), op.head)
    && op.n == DivRoundUp(c.Padded(), c.section)
    && out == Wrap(Aligned(h[op.i].SectionAddr(op.head), c.align, c.Manual()))
    && (op.n * c.section >= c.Needed() <==> !c.Wraps())
    && (c.Wraps() ==> op.addr == h[op.i].SectionAddr(op.head) && op.bytes == 0)
    && (!c.Wraps() ==> op.addr == out && op.bytes == c.size && (c.Manual() ==> out % c.align == 0))
    && (!c.Wraps() ==> 0 <= out - h[op.i].SectionAddr(op.head) < if c.Manual() then c.align else 1)
    && (c.align > 0 && !c.Manual() ==> (out % c.align == 0 <==> h[op.i].start % c.align == 0))
  }

  /** kheap_malloc succeeded: `after` is the list on return. Unfolded by `SuccessMeans`. */
  ghost predicate Success(e0: Env, h: seq<Block>, e: Env, mid: seq<Block>, after: seq<Block>, op: Op, out: nat, c: Demand) {
    forall key {:trigger Open(key)} :: Open(key) && key == SEARCH ==>
      Searchable(mid) && Reached(e0, h, e, mid, c) && Served(mid, op, c, out) && HeapStep(mid, op, after)
  }

  /** kheap_malloc failed: no block of the last list has a run, and the last expansion was refused. */
  ghost predicate Failure(e0: Env, h: seq<Block>, e: Env, mid: seq<Block>, c: Demand) {
    forall key {:trigger Open(key)} :: Open(key) && key == SEARCH ==>
      && Searchable(mid) && Reached(e0, h, e, mid, c) && NoneBefore(mid, |mid|, c.Padded())
      && Refused(e, c.Wanted())
  }

  lemma Succeeds(e0: Env, h: seq<Block>, e: Env, mid: seq<Block>, after: seq<Block>, k: nat, op: Op,
                 out: nat, c: Demand)
    requires Looking(e0, h, e, mid, k, c) && k < |mid| && mid[k].section == c.section > 0
    requires op.Malloc? && op.i == k && op.n == DivRoundUp(c.Padded(), c.section)
    requires Verdict(mid[k], c.Padded(), true, op.head) && Stepped(mid, op, after)
    requires ServedAt(mid[k], op, c, out)
    ensures Success(e0, h, e, mid, after, op, out, c)
  {
    SteppedMeans(mid, op, after);
    assert Open(SEARCH);
  }

  /** The part of `Served` that concerns the block only. */
  ghost predicate ServedAt(b: Block, op: Op, c: Demand, out: nat) {
    forall key {:trigger Open(key)} :: Open(key) && key == SEARCH ==>
      && op.Malloc? && out == Wrap(Aligned(b.SectionAddr(op.head), c.align, c.Manual()))
      && (op.n * c.section >= c.Needed() <==> !c.Wraps())
      && (c.Wraps() ==> op.addr == b.SectionAddr(op.head) && op.bytes == 0)
      && (!c.Wraps() ==> op.addr == out && op.bytes == c.size && (c.Manual() ==> out % c.align == 0))
      && (!c.Wraps() ==> 0 <= out - b.SectionAddr(op.head) < if c.Manual() then c.align else 1)
      && (c.align > 0 && !c.Manual() ==> (out % c.align == 0 <==> b.start % c.align == 0))
  }

  /** The step that serves a request from a run of the right length, and what the caller gets. */
  lemma ServeStep(h: seq<Block>, k: nat, head: nat, n: nat, c: Demand) returns (b: Block, op: Op)
    requires Sound(h) && k < |h| && h[k].section == c.section > 0 && h[k].start + 2 * h[k].size <= TWO_32
    requires n == DivRoundUp(c.Padded(), c.section) && FreeRun(h[k].used, head, n)
    ensures op == Op.Malloc(k, head, n, c.Address(h[k].SectionAddr(head)), c.Usable())
    ensures ServedAt(h[k], op, c, Wrap(Aligned(h[k].SectionAddr(head), c.align, c.Manual())))
    ensures HeapStep(h, op, h[k := b]) && Sound(h[k := b])
    ensures |h[k].delims| == |h[k].used| && b.(live := h[k].live) == TakenBlock(h[k], head, n)
    ensures FreeTotal(h[k := b]) == FreeTotal(h) - n
  {
    SoundIsInv(h);
    op := Op.Malloc(k, head, n, c.Address(h[k].SectionAddr(head)), c.Usable());
    ServePlaced(h[k], op, c);
    b := MallocStep(h, k, head, n, op.addr, op.bytes);
  }

  lemma ServePlaced(b: Block, op: Op, c: Demand)
    requires b.Inv() && b.section == c.section && b.start + 2 * b.size <= TWO_32
    requires op.Malloc? && op.n == DivRoundUp(c.Padded(), c.section) && FreeRun(b.used, op.head, op.n)
    requires op.addr == c.Address(b.SectionAddr(op.head)) && op.bytes == c.Usable()
    ensures b.Placed(Alloc(op.head, op.addr, op.bytes, op.head + op.n))
    ensures ServedAt(b, op, c, Wrap(Aligned(b.SectionAddr(op.head), c.align, c.Manual())))
  {
    FreeRunIsApart(b, op.head, op.n);
    RunIsShort(b, op.head, op.n, c.Padded());
    PlaceInRun(b, op, c);
    SectionAlignedIff(b, op.head);
    ServedThere(b, op, c, Wrap(Aligned(b.SectionAddr(op.head), c.align, c.Manual())));
  }

  lemma PlaceInRun(b: Block, op: Op, c: Demand)
    requires op.Malloc? && op.n > 0 && Divides(b.section) && b.Meta() <= op.head && op.head + op.n <= b.Length()
    requires c.Padded() <= op.n * b.section
    requires op.addr == c.Address(b.SectionAddr(op.head)) && op.bytes == c.Usable()
    ensures b.Placed(Alloc(op.head, op.addr, op.bytes, op.head + op.n))
    ensures !c.Wraps() && c.Manual() ==> op.addr % c.align == 0
    ensures !c.Wraps() ==> 0 <= op.addr - b.SectionAddr(op.head) < if c.Manual() then c.align else 1
  {
    var manual := c.Manual() && !c.Wraps();
    AddressIs(c, b.SectionAddr(op.head));
    RegionIsUsable(b, op.head, op.n, c.Usable(), c.align, manual);
  }

  lemma AddressIs(c: Demand, base: nat)
    ensures c.Address(base) == Aligned(base, c.align, c.Manual() && !c.Wraps())
    ensures c.Usable() + (if c.Manual() && !c.Wraps() then c.align else 0) <= c.Padded()
    ensures c.Manual() ==> c.align > 0
  {
  }

  /** A run behind the metadata is shorter than the block, so the padded size is not 0. */
  lemma RunIsShort(b: Block, head: nat, n: nat, padded: Word)
    requires b.Inv() && b.Meta() <= head && head + n <= b.Length() && n == DivRoundUp(padded, b.section)
    ensures padded > 0 && padded <= n * b.section < padded + b.section
    ensures b.SectionAddr(head + n) < b.start + 2 * b.size && b.section < TWO_32
  {
    MetaPositive(b);
    RoundedUp(padded, b.section);
    RoundedUp(b.size, b.section);
    RunBytes(b.size, b.section, b.Length(), head, n);
  }

  lemma RunBytes(size: nat, section: Word, length: nat, head: nat, n: nat)
    requires (length - 1) * section < size && 0 < head && 0 < n && head + n <= length
    ensures n * section < size && section < size && (head + n) * section < 2 * size
    ensures n * section == (n - 1) * section + section
  {
    MulLe(n, length - 1, section);
    MulLe(1, length - 1, section);
    MulLe(head + n - 1, length - 1, section);
    assert (head + n) * section == (head + n - 1) * section + section;
  }

  lemma ServedThere(b: Block, op: Op, c: Demand, out: Word)
    requires op.Malloc? && b.section == c.section > 0 && b.section < TWO_32 && op.head < op.head + op.n
    requires c.Padded() <= op.n * c.section < c.Padded() + c.section
    requires b.SectionAddr(op.head + op.n) < TWO_32
    requires b.SectionAddr(op.head) % c.section == 0 <==> b.start % c.section == 0
    requires out == Wrap(Aligned(b.SectionAddr(op.head), c.align, c.Manual()))
    requires c.Wraps() ==> op.addr == b.SectionAddr(op.head) && op.bytes == 0
    requires !c.Wraps() ==>
               && op.addr == Aligned(b.SectionAddr(op.head), c.align, c.Manual()) < b.SectionAddr(op.head + op.n)
               && op.bytes == c.size && (c.Manual() ==> op.addr % c.align == 0)
               && 0 <= op.addr - b.SectionAddr(op.head) < if c.Manual() then c.align else 1
    ensures ServedAt(b, op, c, out)
  {
    MulLe(op.head, op.head + op.n, b.section);
    RoomIff(c, op.n * c.section);
    SmallWrap(Aligned(b.SectionAddr(op.head), c.align, c.Manual()));
  }

  lemma RoomIff(c: Demand, room: nat)
    requires c.Padded() <= room < c.Padded() + c.section
    ensures room >= c.Needed() <==> !c.Wraps()
  {
  }

  lemma SmallWrap(x: nat)
    ensures x < TWO_32 ==> Wrap(x) == x
  {
  }

  lemma Fails(e0: Env, h: seq<Block>, e: Env, mid: seq<Block>, c: Demand)
    requires Looking(e0, h, e, mid, |mid|, c) && Refused(e, c.Wanted())
    ensures Failure(e0, h, e, mid, c)
  {
    assert Open(SEARCH);
  }

  /**
   The run that was taken, in numbers. The caller gets all that it asked for, at the first aligned address of the run, in
   as many sections as that takes and no more. When the sum wraps, there are as many sections as its last 32 bits take.
   */
  ghost predicate SizedRun(h: seq<Block>, op: Op, h': seq<Block>, c: Demand, out: nat) {
    var pad := if c.align > 0 && c.align != c.section then c.align else 0;
    var need := c.size + pad;
    && op.Malloc? && op.i < |h| == |h'| && h[op.i].section == c.section && 0 < need % 0x1_0000_0000
    && (op.n - 1) * c.section < need % 0x1_0000_0000 <= op.n * c.section
    && (need < 0x1_0000_0000 ==>
          && Alloc(op.head, out, c.size, op.head + op.n) in h'[op.i].live
          && 0 <= out - (h[op.i].start + op.head * c.section) < (if pad > 0 then pad else 1)
          && (pad > 0 ==> out % pad == 0))
  }

  lemma SizeServed(h: seq<Block>, op: Op, h': seq<Block>, c: Demand, out: nat)
    requires Searchable(h) && Served(h, op, c, out) && HeapStep(h, op, h')
    ensures SizedRun(h, op, h', c, out)
  {
    var b := h[op.i];
    DemandMeans(c);
    FreeRunIsApart(b, op.head, op.n);
    RunIsShort(b, op.head, op.n, c.Padded());
    MulLess(op.n, b.section);
  }

  lemma MulLess(n: nat, s: nat)
    requires n > 0
    ensures (n - 1) * s == n * s - s
  {
  }

  /**
   A successful kheap_malloc served the request from the first block that has a run the scan accepts, with as many
   sections as it takes. The heap was expanded only after all blocks had been passed by, and at most once when fresh
   blocks have room.
   */
  lemma SuccessMeans(e0: Env, h: seq<Block>, e: Env, mid: seq<Block>, after: seq<Block>, op: Op, out: nat, c: Demand)
    requires Success(e0, h, e, mid, after, op, out, c)
    ensures SizedRun(mid, op, after, c, out)
    ensures Searchable(mid) && Served(mid, op, c, out) && HeapStep(mid, op, after) && Reached(e0, h, e, mid, c)
    ensures mid != h ==> Searchable(h) && NoneBefore(h, |h|, c.Padded())
    ensures FreshAlwaysFits(c.section, c.min, c.Padded()) ==> |mid| <= |h| + 1
    ensures FreshNeverFits(c.section, c.min, c.Padded()) ==> op.i >= |mid| - |h|
    ensures c.section > 0 && PAGE_SIZE % c.section == 0 && c.align > 0 && !c.Wraps() ==> out % c.align == 0
  {
    SuccessParts(e0, h, e, mid, after, op, out, c);
    SizeServed(mid, op, after, c, out);
    if c.section > 0 && PAGE_SIZE % c.section == 0 {
      DividesThrough(mid[op.i].start, PAGE_SIZE, c.section);
    }
    if FreshAlwaysFits(c.section, c.min, c.Padded()) {
      AtMostOneExpansion(e0, h, e, mid, c);
    }
  }

  lemma SuccessParts(e0: Env, h: seq<Block>, e: Env, mid: seq<Block>, after: seq<Block>, op: Op, out: nat, c: Demand)
    requires Success(e0, h, e, mid, after, op, out, c)
    ensures Searchable(mid) && Served(mid, op, c, out) && HeapStep(mid, op, after) && Reached(e0, h, e, mid, c)
    ensures mid != h ==> Searchable(h) && NoneBefore(h, |h|, c.Padded())
    ensures FreshNeverFits(c.section, c.min, c.Padded()) ==> op.i >= |mid| - |h|
  {
    assert Open(SEARCH);
    ReachedMeans(e0, h, e, mid, c);
    if mid != h {
      GrownFrom(e0, h, e, mid, c);
    }
    if FreshNeverFits(c.section, c.min, c.Padded()) && op.i < |mid| - |h| {
      FreshOneFits(mid[op.i], c);
    }
  }

  lemma ServedWhere(e0: Env, h: seq<Block>, e: Env, mid: seq<Block>, after: seq<Block>, op: Op, out: nat, c: Demand)
    requires FreshNeverFits(c.section, c.min, c.Padded()) && Success(e0, h, e, mid, after, op, out, c)
    ensures |h| <= |mid| && mid[|mid| - |h|..] == h && op.Malloc? && |mid| - |h| <= op.i < |mid| && Searchable(mid)
    ensures Here(mid[op.i], c.Padded(), op.head)
  {
    SuccessParts(e0, h, e, mid, after, op, out, c);
    ReachedMeans(e0, h, e, mid, c);
  }

  /** The heap was expanded, so all blocks it had at the call had been passed by. */
  lemma {:induction false} GrownFrom(e0: Env, h: seq<Block>, e: Env, mid: seq<Block>, c: Demand)
    requires Reached(e0, h, e, mid, c) && mid != h
    ensures Searchable(h) && NoneBefore(h, |h|, c.Padded())
  {
    ReachedMeans(e0, h, e, mid, c);
    ReachedAfterAll(e0, h, e, mid, c);
    var rest, n := mid[1..], |mid| - |h|;
    assert mid[0..] == mid;
    assert forall i :: 0 <= i < |h| ==> h[i] == mid[n..][i] == rest[n - 1 + i];
  }

  /**
   A failed kheap_malloc left the blocks alone except for those it added; no block has a run that the scan accepts, and
   an expansion for the request was refused. A request that fresh blocks have room for fails only when its first
   expansion is refused.
   */
  lemma {:induction false} FailureMeans(e0: Env, h: seq<Block>, e: Env, mid: seq<Block>, c: Demand)
    requires Failure(e0, h, e, mid, c)
    ensures Searchable(mid) && NoneBefore(mid, |mid|, c.Padded()) && Refused(e, c.Wanted()) && Reached(e0, h, e, mid, c)
    ensures FreshAlwaysFits(c.section, c.min, c.Padded()) ==> mid == h && Refused(e0, c.Wanted())
  {
    assert Open(SEARCH);
    if FreshAlwaysFits(c.section, c.min, c.Padded()) {
      AtMostOneExpansion(e0, h, e, mid, c);
    }
  }

  /** A request that no fresh block has room for is served, if at all, by a block listed at the call. */
  lemma ServedByListed(e0: Env, h: seq<Block>, e: Env, mid: seq<Block>, after: seq<Block>, op: Op,
                       out: nat, c: Demand)
    requires FreshNeverFits(c.section, c.min, c.Padded()) && Success(e0, h, e, mid, after, op, out, c)
    ensures Searchable(h) && !NoneBefore(h, |h|, c.Padded())
  {
    ServedWhere(e0, h, e, mid, after, op, out, c);
    Listed(h, mid, op.i);
    Offers(h, op.i - (|mid| - |h|), c.Padded(), op.head);
  }

  lemma Listed(h: seq<Block>, mid: seq<Block>, j: nat)
    requires |h| <= |mid| && mid[|mid| - |h|..] == h && |mid| - |h| <= j < |mid|
    ensures h[j - (|mid| - |h|)] == mid[j]
  {
  }

  lemma Offers(h: seq<Block>, i: nat, size: Word, first: nat)
    requires Searchable(h) && i < |h| && Here(h[i], size, first)
    ensures !NoneBefore(h, |h|, size)
  {
    HereOrNot(h[i], size, first);
  }

  /** When no listed block serves it, it is never served: the heap is expanded until address space or frames run out. */
  lemma NeverFitsNeverServed(e0: Env, h: seq<Block>, e: Env, mid: seq<Block>, after: seq<Block>, op: Op,
                             out: nat, c: Demand)
    requires FreshNeverFits(c.section, c.min, c.Padded())
    requires Searchable(h) && NoneBefore(h, |h|, c.Padded())
    ensures !Success(e0, h, e, mid, after, op, out, c)
  {
    if Success(e0, h, e, mid, after, op, out, c) {
      ServedByListed(e0, h, e, mid, after, op, out, c);
    }
  }

  /** A request of 0 bytes without padding, or one that is padded to 2^32, is never served, whatever the heap holds. */
  lemma EmptyRequestNeverServed(e0: Env, h: seq<Block>, e: Env, mid: seq<Block>, after: seq<Block>,
                                op: Op, out: nat, c: Demand)
    requires Sound(h)
    requires if c.align == 0 || c.align == c.section then c.size == 0 else c.size + c.align == 0x1_0000_0000
    ensures !Success(e0, h, e, mid, after, op, out, c)
  {
    DemandMeans(c);
    NothingIsNowhere(h, c.Padded());
    NothingFitsNowhere(c.section, c.min, c.Padded());
    NeverFitsNeverServed(e0, h, e, mid, after, op, out, c);
  }

  lemma NothingIsNowhere(h: seq<Block>, size: Word)
    requires Sound(h) && size == 0
    ensures Searchable(h) && NoneBefore(h, |h|, size)
  {
    SoundIsInv(h);
    SoundIsSearchable(h);
    forall i | 0 <= i < |h|
      ensures NotHere(h[i], 0)
    {
      EmptyRequestIsSkipped(h[i]);
    }
  }

  // ----- Calls that return

  /** A call returns when a listed block serves it or the sizing loop of its first expansion ends. */
  ghost predicate Returns(h: seq<Block>, c: Demand)
    requires Searchable(h)
  {
    !NoneBefore(h, |h|, c.Padded()) || exists k: nat :: Stops(c.Wanted(), k)
  }

  /** No block of the kernel is large enough for the requests that the sizing loop cannot handle. */
  lemma ReturnsIff(h: seq<Block>, c: Demand, pages: seq<bool>, flat: map<nat, Word>)
    requires Sound(h) && PagesInv(h, pages, flat) && c.min <= MAX_REQUEST
    ensures Searchable(h)
    ensures var need := c.size + (if c.align > 0 && c.align != c.section then c.align else 0);
            Returns(h, c) <==> need % 0x1_0000_0000 <= 0xFC00_0FD8
  {
    SoundIsInv(h);
    SoundIsSearchable(h);
    DemandMeans(c);
    SizingEndsIff(c.Wanted());
    if c.Padded() > MAX_REQUEST {
      forall i | 0 <= i < |h|
        ensures NotHere(h[i], c.Padded())
      {
        assert h[i].Inv() && OnMappedPages(h[i], pages, flat);
        NoWrapInGuard(h[i]);
      }
    }
  }

  // ----- The address returned

  /** The address that an allocation returns lies in its block, so it is mapped. */
  lemma ServedIsMapped(h: seq<Block>, op: Op, h': seq<Block>, pages: seq<bool>, flat: map<nat, Word>)
    requires HeapStep(h, op, h') && op.Malloc? && PagesInv(h', pages, flat) && WholeSections(h'[op.i])
    ensures op.addr < TWO_32 && op.addr / PAGE_SIZE in flat && RESERVED_PAGES <= op.addr / PAGE_SIZE
  {
    AddressIsInItsBlock(h[op.i], Alloc(op.head, op.addr, op.bytes, op.head + op.n));
    assert OnMappedPages(h'[op.i], pages, flat);
    ByteOfBlockIsMapped(h'[op.i], pages, flat, op.addr);
  }

  lemma AddressIsInItsBlock(b: Block, a: Alloc)
    requires b.Inv() && WholeSections(b) && b.Placed(a)
    ensures b.start % PAGE_SIZE == 0 && b.start <= a.addr < b.start + b.size <= TWO_32
  {
    WholeLength(b);
    MulLe(0, a.head, b.section);
    MulLe(a.end, b.Length(), b.section);
  }

  lemma ResultIsMapped(e0: Env, h: seq<Block>, e: Env, mid: seq<Block>, after: seq<Block>, op: Op,
                       out: nat, c: Demand, pages: seq<bool>, flat: map<nat, Word>)
    requires Success(e0, h, e, mid, after, op, out, c) && PagesInv(after, pages, flat) && !c.Wraps()
    requires forall i :: 0 <= i < |after| ==> WholeSections(after[i])
    ensures out < TWO_32 && out / PAGE_SIZE in flat && RESERVED_PAGES <= out / PAGE_SIZE
  {
    SuccessParts(e0, h, e, mid, after, op, out, c);
    ServedIsMapped(mid, op, after, pages, flat);
  }
}
