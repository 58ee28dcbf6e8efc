/**
 The whole heap as a sequence of blocks: what every step keeps, over every run of block additions, allocations and
 frees, and how large a block an expansion adds.
 */
module HeapRuns {
  import opened Words
  import opened Guards
  import opened Runs
  import opened Layout
  import opened HeapModel

  /** A block as kheap_add_block leaves it: metadata marked, everything else free. */
  ghost function NewBlock(start: nat, size: Word, section: Word): Block
    requires Divides(section) && size > 0
  {
    var length, reserved := DivRoundUp(size, section), Reserved(size, section);
    Block(start, size, section, reserved, Fill(seq(length, _ => false), 0, reserved, true), seq(length, _ => false), {}, {})
  }

  lemma NewBlockInv(start: nat, size: Word, section: Word)
    requires section >= 4 && Divides(section) && size > Metadata(size, section)
    requires start % PAGE_SIZE == 0 && start + size <= TWO_32
    ensures var b := NewBlock(start, size, section); b.Inv() && Clear(b.used) == b.Length() - b.Meta()
  {
    var b := NewBlock(start, size, section);
    var none := seq(b.Length(), _ => false);
    assert b.Meta() <= b.Length() by {
      MetaPositive(b);
      RoundedUp(b.size, b.section);
      if b.Meta() > b.Length() {
        MulLe(b.Length(), b.Meta() - 1, b.section);
      }
    }
    ClearAll(none, false);
    ClearFill(none, 0, b.Meta(), true);
  }

  /** `b` is a new block, for proofs that do not look inside. */
  ghost predicate IsNew(b: Block, start: nat, size: Word, section: Word) {
    forall key {:trigger Open(key)} :: Open(key) && key == RUNS ==>
      Divides(section) && size > 0 && b == NewBlock(start, size, section)
  }

  /** A block of this size has room for its metadata, which kheap_add_block asserts. */
  ghost predicate HoldsMetadata(size: Word, section: Word) {
    forall key {:trigger Open(key)} :: Open(key) && key == RUNS ==> Divides(section) && size > Metadata(size, section)
  }

  lemma NewMeans(b: Block, start: nat, size: Word, section: Word)
    ensures IsNew(b, start, size, section) <==> Divides(section) && size > 0 && b == NewBlock(start, size, section)
    ensures HoldsMetadata(size, section) <==> Divides(section) && size > Metadata(size, section)
  {
    assert Open(RUNS);
  }

  lemma NewFields(b: Block, start: nat, size: Word, section: Word)
    requires IsNew(b, start, size, section)
    ensures b.start == start && b.size == size && b.section == section
  {
    assert Open(RUNS);
  }

  lemma SomeMetadata(size: Word, section: Word)
    requires HoldsMetadata(size, section)
    ensures Divides(section) && size > Metadata(size, section)
  {
    assert Open(RUNS);
  }

  // ----- Runs

  ghost predicate Apart(b: Block, c: Block) {
    b.start + b.size <= c.start || c.start + c.size <= b.start
  }

  ghost predicate HeapInv(h: seq<Block>) {
    && (forall i :: 0 <= i < |h| ==> h[i].Inv())
    && (forall i, j :: 0 <= i < j < |h| ==> Apart(h[i], h[j]))
  }

  /** Free sections in all blocks. */
  ghost function FreeTotal(h: seq<Block>): nat {
    if h == [] then 0 else Clear(h[0].used) + FreeTotal(h[1..])
  }

  /** Changing one block changes the total by what changed in that block. */
  lemma {:induction false} TotalUpdate(h: seq<Block>, k: nat, b: Block)
    requires k < |h|
    ensures FreeTotal(h[k := b]) == FreeTotal(h) - Clear(h[k].used) + Clear(b.used)
  {
    var h' := h[k := b];
    if k == 0 {
      assert h'[1..] == h[1..];
    } else {
      assert h'[1..] == h[1..][k - 1 := b];
      TotalUpdate(h[1..], k - 1, b);
    }
  }

  lemma {:induction false} TotalAdd(b: Block, h: seq<Block>)
    ensures FreeTotal([b] + h) == Clear(b.used) + FreeTotal(h)
  {
    assert ([b] + h)[1..] == h;
  }

  datatype Op =
    | Add(b: Block)
    | Malloc(i: nat, head: nat, n: nat, addr: nat, bytes: nat)
    | Free(i: nat, a: Alloc)

  /** One operation. A block is added on memory that no block occupies; only live allocations are freed. */
  ghost predicate HeapStep(h: seq<Block>, op: Op, h': seq<Block>) {
    match op
    case Add(b) =>
      && b.Inv() && b.live == {} && b.leaked == {} && h' == [b] + h
      && forall i :: 0 <= i < |h| ==> Apart(b, h[i])
    case Malloc(i, head, n, addr, bytes) =>
      && i < |h| && h[i].Inv() && n > 0 && FreeRun(h[i].used, head, n)
      && h[i].Placed(Alloc(head, addr, bytes, head + n))
      && h' == h[i := Allocate(h[i], head, n, addr, bytes)]
    case Free(i, a) =>
      && i < |h| && h[i].Inv() && a in h[i].live && h[i].start <= a.addr
      && h' == h[i := Release(h[i], a)]
  }

  /** The same, for proofs that do not look inside. */
  ghost predicate Stepped(h: seq<Block>, op: Op, h': seq<Block>) {
    forall key {:trigger Open(key)} :: Open(key) && key == RUNS ==> HeapStep(h, op, h')
  }

  lemma SteppedMeans(h: seq<Block>, op: Op, h': seq<Block>)
    ensures Stepped(h, op, h') <==> HeapStep(h, op, h')
  {
    assert Open(RUNS);
  }

  /** HeapInv, for proofs that pass it on without looking into it: its definition is unfolded by mentioning `Open`. */
  ghost predicate Sound(h: seq<Block>) {
    forall key {:trigger Open(key)} :: Open(key) && key == RUNS ==> HeapInv(h)
  }

  lemma SoundIsInv(h: seq<Block>)
    ensures Sound(h) <==> HeapInv(h)
  {
    assert Open(RUNS);
  }

  /** A release as a step, with its effect on the total; `b` is what the block becomes. */
  lemma FreeStep(h: seq<Block>, k: nat, a: Alloc) returns (b: Block)
    requires Sound(h) && k < |h| && a in h[k].live
    ensures 0 < a.end <= |h[k].delims| && DelimitedAt(h[k], a.addr, a.end - 1)
    ensures b.(live := h[k].live, leaked := h[k].leaked) == ClearedBlock(h[k], h[k].SectionOf(a.addr), a.end - 1)
    ensures HeapStep(h, Free(k, a), h[k := b]) && Sound(h[k := b])
    ensures FreeTotal(h[k := b]) == FreeTotal(h) + (a.end - h[k].SectionOf(a.addr))
  {
    SoundIsInv(h);
    ScanFindsTheEnd(h[k], a);
    ReleaseCount(h[k], a);
    b := Release(h[k], a);
    StepKeepsHeapInv(h, Free(k, a), h[k := b]);
    TotalUpdate(h, k, b);
  }

  /** An allocation as a step, with its effect on the total; `b` is what the block becomes. */
  lemma MallocStep(h: seq<Block>, k: nat, head: nat, n: nat, addr: nat, bytes: nat) returns (b: Block)
    requires Sound(h) && k < |h| && n > 0 && FreeRun(h[k].used, head, n)
    requires Divides(h[k].section) && h[k].Placed(Alloc(head, addr, bytes, head + n))
    ensures head + n <= |h[k].delims|
    ensures b.(live := h[k].live) == TakenBlock(h[k], head, n)
    ensures HeapStep(h, Malloc(k, head, n, addr, bytes), h[k := b]) && Sound(h[k := b])
    ensures FreeTotal(h[k := b]) == FreeTotal(h) - n
  {
    SoundIsInv(h);
    AllocateCount(h[k], head, n, addr, bytes);
    RunWithinClear(h[k].used, head, n);
    b := Allocate(h[k], head, n, addr, bytes);
    StepKeepsHeapInv(h, Malloc(k, head, n, addr, bytes), h[k := b]);
    TotalUpdate(h, k, b);
  }

  /** Adding a fresh block as a step, with its effect on the total. */
  lemma {:induction false} AddStep(h: seq<Block>, b: Block)
    requires Sound(h) && b.section >= 4 && Divides(b.section) && b.size > Metadata(b.size, b.section)
    requires b == NewBlock(b.start, b.size, b.section)
    requires b.start % PAGE_SIZE == 0 && b.start + b.size <= TWO_32
    requires forall i :: 0 <= i < |h| ==> Apart(b, h[i])
    ensures HeapStep(h, Add(b), [b] + h) && Sound([b] + h)
    ensures FreeTotal([b] + h) == FreeTotal(h) + Clear(b.used)
  {
    SoundIsInv(h);
    NewBlockInv(b.start, b.size, b.section);
    StepKeepsHeapInv(h, Add(b), [b] + h);
    TotalAdd(b, h);
  }

  lemma StepKeepsHeapInv(h: seq<Block>, op: Op, h': seq<Block>)
    requires HeapInv(h) && HeapStep(h, op, h')
    ensures HeapInv(h')
  {
    match op
    case Add(b) =>
      forall i, j | 0 <= i < j < |h'|
        ensures Apart(h'[i], h'[j])
      {
        if i > 0 { assert Apart(h[i - 1], h[j - 1]); }
      }
    case Malloc(i, head, n, addr, bytes) =>
      AllocateKeepsInv(h[i], head, n, addr, bytes);
      KeepApart(h, i, h'[i]);
    case Free(i, a) =>
      ReleaseKeepsInv(h[i], a);
      KeepApart(h, i, h'[i]);
  }

  lemma KeepApart(h: seq<Block>, i: nat, b: Block)
    requires HeapInv(h) && i < |h| && b.Inv() && b.start == h[i].start && b.size == h[i].size
    ensures HeapInv(h[i := b])
  {
    var h' := h[i := b];
    forall j, k | 0 <= j < k < |h|
      ensures Apart(h'[j], h'[k])
    {
      assert Apart(h[j], h[k]);
    }
  }

  /**
   What is true in every state of every run that starts from an empty heap: ownership is exact in each block, and live
   allocations, wherever they are, occupy disjoint byte ranges that touch no header and no bit vector.
   */
  lemma EveryRunIsSafe(hs: seq<seq<Block>>, ops: seq<Op>)
    requires |hs| == |ops| + 1 && hs[0] == []
    requires forall k :: 0 <= k < |ops| ==> HeapStep(hs[k], ops[k], hs[k + 1])
    ensures forall k :: 0 <= k < |hs| ==> HeapInv(hs[k])
    ensures forall k :: 0 <= k < |hs| && (forall i :: 0 <= i < |hs[k]| ==> WholeSections(hs[k][i])) ==>
              RegionsDisjoint(hs[k])
  {
    for n := 0 to |ops|
      invariant forall k :: 0 <= k <= n ==> HeapInv(hs[k])
    {
      StepKeepsHeapInv(hs[n], ops[n], hs[n + 1]);
    }
    forall k | 0 <= k < |hs| && forall i :: 0 <= i < |hs[k]| ==> WholeSections(hs[k][i])
      ensures RegionsDisjoint(hs[k])
    {
      InvSeparatesRegions(hs[k]);
    }
  }

  /** `[x, x + m)` and `[y, y + n)` have no byte in common. */
  ghost predicate BytesApart(x: nat, m: nat, y: nat, n: nat) {
    x + m <= y || y + n <= x
  }

  /** Live allocations overlap neither each other nor the metadata of any block. */
  ghost predicate RegionsDisjoint(h: seq<Block>) {
    && (forall i, a, j :: 0 <= i < |h| && 0 <= j < |h| && a in h[i].live && Divides(h[j].section) ==>
          BytesApart(a.addr, a.bytes, h[j].start, Metadata(h[j].size, h[j].section)))
    && (forall i, a, j, b :: 0 <= i < |h| && 0 <= j < |h| && a in h[i].live && b in h[j].live && (i != j || a != b) ==>
          BytesApart(a.addr, a.bytes, b.addr, b.bytes))
  }

  /** Only block `k` differs, and it lies where it lay. */
  ghost predicate SameButOne(h: seq<Block>, h': seq<Block>, k: nat) {
    && k < |h| == |h'| && h' == h[k := h'[k]]
    && h'[k].start == h[k].start && h'[k].size == h[k].size && h'[k].section == h[k].section
  }

  /** The heap's own blocks: whole pages, one section size. */
  ghost predicate Uniform(h: seq<Block>, section: Word) {
    forall i :: 0 <= i < |h| ==> h[i].section == section && h[i].size % PAGE_SIZE == 0
  }

  /** Sections of a size that divides a page fill such blocks exactly; the default of 16 bytes does. */
  lemma UniformIsWhole(h: seq<Block>, section: Word)
    requires Uniform(h, section) && section > 0 && PAGE_SIZE % section == 0
    ensures forall i :: 0 <= i < |h| ==> WholeSections(h[i])
  {
    forall i | 0 <= i < |h|
      ensures WholeSections(h[i])
    {
      DividesThrough(h[i].size, PAGE_SIZE, section);
    }
  }

  lemma DividesThrough(x: nat, d: nat, e: nat)
    requires d > 0 && e > 0 && x % d == 0 && d % e == 0
    ensures x % e == 0
  {
    var q, r := x / d, d / e;
    assert x == q * d && d == r * e;
    assert q * (r * e) == (q * r) * e;
    ModUnique(x, e, q * r, 0);
  }

  /** A live allocation's bytes lie behind its block's metadata and before its block's end. */
  /** The address of an allocation lies behind the metadata, and before the end of a block of whole sections. */
  lemma LiveAddress(b: Block, a: Alloc)
    requires b.Inv() && a in b.live
    ensures b.start + Metadata(b.size, b.section) <= a.addr && b.start < a.addr
    ensures WholeSections(b) ==> a.addr < b.start + b.size
  {
    assert b.Placed(a);
    MetaPositive(b);
    MulLe(b.Meta(), a.head, b.section);
    if WholeSections(b) {
      WholeLength(b);
      MulLe(a.end, b.Length(), b.section);
    }
  }

  lemma AddressIsUnique(b: Block, a: Alloc, c: Alloc)
    requires b.Inv() && a in b.live && c in b.live && a.addr == c.addr
    ensures a == c
  {
    assert b.Placed(a) && b.Placed(c);
    if a != c {
      if a.end <= c.head {
        MulLe(a.end, c.head, b.section);
      } else {
        MulLe(c.end, a.head, b.section);
      }
    }
  }

  /** An address that lies in no block is that of no allocation that starts inside its block. */
  lemma NoneLiveOutside(h: seq<Block>, addr: nat)
    requires Sound(h)
    ensures (forall i :: 0 <= i < |h| ==> !(h[i].start < addr < h[i].start + h[i].size)) ==>
              forall i, a :: 0 <= i < |h| && a in h[i].live && a.addr == addr ==> h[i].start + h[i].size <= addr
  {
    SoundIsInv(h);
    forall i, a | 0 <= i < |h| && a in h[i].live && a.addr == addr
      ensures h[i].start < addr
    {
      LiveAddress(h[i], a);
    }
  }

  /** An address inside a block is that of one live allocation at most. */
  lemma OnlyOneLive(h: seq<Block>, k: nat, a: Alloc)
    requires Sound(h) && k < |h| && a in h[k].live && a.addr < h[k].start + h[k].size
    ensures forall i, c :: 0 <= i < |h| && c in h[i].live && c.addr == a.addr && c.addr < h[i].start + h[i].size ==>
              i == k && c == a
  {
    SoundIsInv(h);
    forall i, c | 0 <= i < |h| && c in h[i].live && c.addr == a.addr && c.addr < h[i].start + h[i].size
      ensures i == k && c == a
    {
      assert (i < k ==> Apart(h[i], h[k])) && (k < i ==> Apart(h[k], h[i]));
      if i == k {
        AddressIsUnique(h[k], a, c);
      }
      LiveAddress(h[i], c);
      LiveAddress(h[k], a);
    }
  }

  lemma LiveBytesInBlock(b: Block, a: Alloc)
    requires b.Inv() && WholeSections(b) && a in b.live
    ensures b.start + Metadata(b.size, b.section) <= a.addr && a.addr + a.bytes <= b.start + b.size
  {
    MetaPositive(b);
    WholeLength(b);
    assert b.Placed(a);
    MulLe(b.Meta(), a.head, b.section);
    MulLe(a.end, b.Length(), b.section);
  }

  lemma LiveBytesApart(b: Block, a: Alloc, c: Alloc)
    requires b.Inv() && a in b.live && c in b.live && a != c
    ensures BytesApart(a.addr, a.bytes, c.addr, c.bytes)
  {
    assert b.Placed(a) && b.Placed(c);
    if a.end <= c.head {
      MulLe(a.end, c.head, b.section);
    } else {
      MulLe(c.end, a.head, b.section);
    }
  }

  lemma InvSeparatesRegions(h: seq<Block>)
    requires HeapInv(h) && forall i :: 0 <= i < |h| ==> WholeSections(h[i])
    ensures RegionsDisjoint(h)
  {
    forall i, a | 0 <= i < |h| && a in h[i].live
      ensures h[i].start + Metadata(h[i].size, h[i].section) <= a.addr && a.addr + a.bytes <= h[i].start + h[i].size
    {
      LiveBytesInBlock(h[i], a);
    }
    forall i, a, j | 0 <= i < |h| && 0 <= j < |h| && a in h[i].live && Divides(h[j].section)
      ensures BytesApart(a.addr, a.bytes, h[j].start, Metadata(h[j].size, h[j].section))
    {
      assert h[j].Inv() && (i < j ==> Apart(h[i], h[j])) && (j < i ==> Apart(h[j], h[i]));
    }
    forall i, a, j, b | 0 <= i < |h| && 0 <= j < |h| && a in h[i].live && b in h[j].live && (i != j || a != b)
      ensures BytesApart(a.addr, a.bytes, b.addr, b.bytes)
    {
      if i == j {
        LiveBytesApart(h[i], a, b);
      } else {
        assert (i < j ==> Apart(h[i], h[j])) && (j < i ==> Apart(h[j], h[i]));
      }
    }
  }

  /**
   Free undoes malloc whatever happens in between: at any point of any run, freeing a live allocation clears exactly
   the sections from its address to its true end and exactly its delimiter, and leaks the sections in front.
   */
  lemma FreeIsExactInEveryRun(hs: seq<seq<Block>>, ops: seq<Op>, k: nat, i: nat, a: Alloc)
    requires |hs| == |ops| + 1 && hs[0] == []
    requires forall m :: 0 <= m < |ops| ==> HeapStep(hs[m], ops[m], hs[m + 1])
    requires k < |ops| && ops[k] == Free(i, a)
    ensures i < |hs[k]| == |hs[k + 1]| && hs[k][i].section > 0 && hs[k][i].start <= a.addr
    ensures var b, b', sect := hs[k][i], hs[k + 1][i], hs[k][i].SectionOf(a.addr);
            && a.head <= sect < a.end <= b.Length() == b'.Length() == |b.delims| == |b'.delims|
            && (forall s :: 0 <= s < b.Length() ==> (b'.used[s] != b.used[s] <==> sect <= s < a.end))
            && (forall s :: 0 <= s < b.Length() ==> (b'.delims[s] != b.delims[s] <==> s == a.end - 1))
            && b'.live == b.live - {a} && b'.leaked == b.leaked + Span(a.head, sect)
            && Clear(b'.used) == Clear(b.used) + (a.end - sect)
  {
    assert HeapStep(hs[k], ops[k], hs[k + 1]);
    SectionOfLive(hs[k][i], a);
    ScanFindsTheEnd(hs[k][i], a);
    ReleaseCount(hs[k][i], a);
  }
}
