/**
 Heap blocks in memory. The header and the bit vectors of a block are words at its start, inside the pages that it
 occupies; what kheap_malloc and kheap_free write there must not reach the bytes of live allocations.
 */
module HeapMemory {
  import opened Words
  import opened Guards
  import opened Runs
  import opened Layout
  import opened PageTables
  import opened Ownership
  import opened Memory
  import opened HeapModel
  import opened HeapRuns
  import opened KernelPages
  import opened HeapSearches
  import opened HeapImages

  // ----- Blocks and their words

  /** The metadata of every block is in memory: `images[k]` are the words of block `k`. (`Open` delays the unfolding.) */
  ghost predicate Imaged(s: Space, h: seq<Block>, images: seq<seq<Word>>)
    requires InRam(s.mem, s.dir)
  {
    && |images| == |h|
    && forall key {:trigger Open(key)} :: Open(key) && key == IMAGE ==>
         forall k :: 0 <= k < |h| ==>
           && IsImage(h[k], images[k]) && Holds(s, h[k].start, images[k])
           && Decodes(h[k], images[k], NextStart(h, k))
  }

  /** `words` fill the metadata of `b`. */
  ghost predicate IsImage(b: Block, words: seq<Word>) {
    Divides(b.section) && 4 * |words| == Metadata(b.size, b.section)
  }

  lemma MetadataInside(b: Block, words: seq<Word>)
    requires b.Geometry() && IsImage(b, words)
    ensures b.start % PAGE_SIZE == 0 && b.start % 4 == 0 && 4 * |words| < b.size && b.start + b.size <= TWO_32
  {
    DividesThrough(b.start, PAGE_SIZE, 4);
  }

  /** The metadata lies on the block's pages. */
  lemma MetadataIsUsable(s: Space, b: Block, pages: seq<bool>, words: seq<Word>)
    requires InRam(s.mem, s.dir) && OnMappedPages(b, pages, s.Flat())
    requires b.start % PAGE_SIZE == 0 && 4 * |words| < b.size
    ensures forall i :: 0 <= i < |words| ==> Usable(s, b.start + 4 * i)
  {
    forall i | 0 <= i < |words|
      ensures Usable(s, b.start + 4 * i)
    {
      ByteOfBlockIsMapped(b, pages, s.Flat(), b.start + 4 * i);
    }
  }

  /** The metadata of a block can be stored word by word. */
  lemma MetadataIsStorable(s: Space, h: seq<Block>, k: nat, pages: seq<bool>, addr: nat, words: seq<Word>)
    requires InRam(s.mem, s.dir) && Sound(h) && PagesInv(h, pages, s.Flat()) && k < |h| && IsImage(h[k], words)
    requires addr == h[k].start
    ensures Storable(s, addr, |words|)
  {
    SoundIsInv(h);
    MetadataInside(h[k], words);
    MetadataIsUsable(s, h[k], pages, words);
  }

  /** Paging operations leave blocks as they are. */
  lemma ImagedStill(s: Space, s': Space, h: seq<Block>, images: seq<seq<Word>>)
    requires InRam(s.mem, s.dir) && InRam(s'.mem, s'.dir) && Imaged(s, h, images) && AllKept(s, s')
    ensures Imaged(s', h, images)
  {
    assert Open(IMAGE);
    forall k | 0 <= k < |h|
      ensures Holds(s', h[k].start, images[k])
    {
      HoldsStill(s, s', 0, 0, h[k].start, images[k]);
    }
  }

  /** Writing one block's words leaves those of a block that lies apart alone. */
  lemma ImageElsewhere(s: Space, s': Space, b: Block, words: seq<Word>, c: Block, image: seq<Word>)
    requires InRam(s.mem, s.dir) && InRam(s'.mem, s'.dir) && Apart(b, c) && b.Inv() && c.Inv()
    requires IsImage(b, words) && KeptBut(s, s', b.start, b.start + 4 * |words|)
    requires IsImage(c, image) && Holds(s, c.start, image)
    ensures Holds(s', c.start, image)
  {
    MetadataInside(b, words);
    MetadataInside(c, image);
    HoldsStill(s, s', b.start, b.start + 4 * |words|, c.start, image);
  }

  /** The words of one block are written. */
  lemma ImagedUpdate(s: Space, s': Space, h: seq<Block>, images: seq<seq<Word>>, k: nat, b: Block,
                     words: seq<Word>)
    requires InRam(s.mem, s.dir) && InRam(s'.mem, s'.dir) && Imaged(s, h, images) && HeapInv(h) && k < |h|
    requires b.start == h[k].start && b.size == h[k].size && b.section == h[k].section && IsImage(b, words)
    requires Decodes(b, words, NextStart(h, k))
    requires KeptBut(s, s', b.start, b.start + 4 * |words|) && Holds(s', b.start, words)
    ensures Imaged(s', h[k := b], images[k := words])
  {
    var h', images' := h[k := b], images[k := words];
    forall i | 0 <= i < |h|
      ensures IsImage(h'[i], images'[i]) && Holds(s', h'[i].start, images'[i])
      ensures Decodes(h'[i], images'[i], NextStart(h', i))
    {
      assert NextStart(h', i) == NextStart(h, i);
      if i != k {
        ImageStays(s, s', h, images, k, words, i);
      }
    }
  }

  lemma ImageStays(s: Space, s': Space, h: seq<Block>, images: seq<seq<Word>>, k: nat, words: seq<Word>, i: nat)
    requires InRam(s.mem, s.dir) && InRam(s'.mem, s'.dir) && Imaged(s, h, images) && HeapInv(h)
    requires k < |h| && i < |h| && i != k && IsImage(h[k], words)
    requires KeptBut(s, s', h[k].start, h[k].start + 4 * |words|)
    ensures IsImage(h[i], images[i]) && Holds(s', h[i].start, images[i]) && Decodes(h[i], images[i], NextStart(h, i))
  {
    assert Open(IMAGE);
    assert h[i].Inv() && h[k].Inv() && if i < k then Apart(h[i], h[k]) else Apart(h[k], h[i]);
    ImageElsewhere(s, s', h[k], words, h[i], images[i]);
  }

  lemma SeparateFromFirst(b: Block, h: seq<Block>, k: nat)
    requires HeapInv([b] + h) && k < |h|
    ensures b.Inv() && h[k].Inv() && Apart(b, h[k])
  {
    var h' := [b] + h;
    assert h'[0] == b && h'[k + 1] == h[k] && h'[0].Inv() && h'[k + 1].Inv() && Apart(h'[0], h'[k + 1]);
  }

  /** The words of a new block are written. */
  lemma ImagedAdd(s: Space, s': Space, h: seq<Block>, images: seq<seq<Word>>, b: Block, words: seq<Word>)
    requires InRam(s.mem, s.dir) && InRam(s'.mem, s'.dir) && Imaged(s, h, images) && HeapInv([b] + h)
    requires IsImage(b, words) && Decodes(b, words, NextStart([b] + h, 0))
    requires KeptBut(s, s', b.start, b.start + 4 * |words|) && Holds(s', b.start, words)
    ensures Imaged(s', [b] + h, [words] + images)
  {
    forall k | 0 <= k < |h|
      ensures IsImage(h[k], images[k]) && Holds(s', h[k].start, images[k]) && Decodes(h[k], images[k], NextStart(h, k))
    {
      assert Open(IMAGE);
      SeparateFromFirst(b, h, k);
      ImageElsewhere(s, s', b, words, h[k], images[k]);
    }
    ImagedFront(s', h, images, b, words);
  }

  lemma ImagedFront(s: Space, h: seq<Block>, images: seq<seq<Word>>, b: Block, words: seq<Word>)
    requires InRam(s.mem, s.dir) && |images| == |h|
    requires forall k :: 0 <= k < |h| ==> IsImage(h[k], images[k]) && Holds(s, h[k].start, images[k])
    requires forall k :: 0 <= k < |h| ==> Decodes(h[k], images[k], NextStart(h, k))
    requires IsImage(b, words) && Holds(s, b.start, words) && Decodes(b, words, NextStart([b] + h, 0))
    ensures Imaged(s, [b] + h, [words] + images)
  {
    var h', images' := [b] + h, [words] + images;
    assert h'[0] == b && images'[0] == words;
    forall i | 0 <= i < |h'|
      ensures IsImage(h'[i], images'[i]) && Holds(s, h'[i].start, images'[i])
      ensures Decodes(h'[i], images'[i], NextStart(h', i))
    {
      if i > 0 {
        MovedOne(h, images, b, words, i);
      }
    }
  }

  lemma MovedOne(h: seq<Block>, images: seq<seq<Word>>, b: Block, words: seq<Word>, i: nat)
    requires |images| == |h| && 0 < i <= |h|
    ensures ([b] + h)[i] == h[i - 1] && ([words] + images)[i] == images[i - 1]
    ensures NextStart([b] + h, i) == NextStart(h, i - 1)
  {
    var h' := [b] + h;
    assert i + 1 < |h'| ==> h'[i + 1] == h[i];
  }

  // ----- What stays

  /** Byte `x` belongs to the header or a bit vector of some block. */
  ghost predicate InMetadata(h: seq<Block>, x: nat) {
    exists k :: 0 <= k < |h| && Divides(h[k].section) && h[k].start <= x < h[k].start + Metadata(h[k].size, h[k].section)
  }

  /** Every usable byte outside the blocks' metadata keeps its physical address and its word. */
  ghost predicate KeptOutside(h: seq<Block>, s: Space, s': Space)
    requires InRam(s.mem, s.dir) && InRam(s'.mem, s'.dir)
  {
    forall x: nat {:trigger ByteKept(s, s', x)} :: Usable(s, x) && !InMetadata(h, x) ==> ByteKept(s, s', x)
  }

  /** All usable bytes were kept, and then the words of block `k` were written. */
  lemma OnlyMetadata(s: Space, s1: Space, s2: Space, h: seq<Block>, k: nat, words: seq<Word>)
    requires InRam(s.mem, s.dir) && InRam(s1.mem, s1.dir) && InRam(s2.mem, s2.dir)
    requires k < |h| && IsImage(h[k], words)
    requires AllKept(s, s1) && KeptBut(s1, s2, h[k].start, h[k].start + 4 * |words|)
    ensures KeptOutside(h, s, s2)
  {
    forall x: nat | Usable(s, x) && !InMetadata(h, x)
      ensures ByteKept(s, s2, x)
    {
      assert !(h[k].start <= x < h[k].start + Metadata(h[k].size, h[k].section));
      assert ByteKept(s, s1, x) && ByteKept(s1, s2, x);
    }
  }

  lemma KeptIsKeptOutside(s: Space, s': Space, h: seq<Block>)
    requires InRam(s.mem, s.dir) && InRam(s'.mem, s'.dir) && AllKept(s, s')
    ensures KeptOutside(h, s, s')
  {
  }

  lemma KeptOutsideTwice(s: Space, s1: Space, s2: Space, h: seq<Block>)
    requires InRam(s.mem, s.dir) && InRam(s1.mem, s1.dir) && InRam(s2.mem, s2.dir)
    requires KeptOutside(h, s, s1) && KeptOutside(h, s1, s2)
    ensures KeptOutside(h, s, s2)
  {
    forall x: nat | Usable(s, x) && !InMetadata(h, x)
      ensures ByteKept(s, s2, x)
    {
      assert ByteKept(s, s1, x) && ByteKept(s1, s2, x);
    }
  }

  /** The bytes of live allocations: each keeps its physical address and its word. */
  ghost predicate LiveKept(h: seq<Block>, s: Space, s': Space)
    requires InRam(s.mem, s.dir) && InRam(s'.mem, s'.dir)
  {
    forall x: nat :: LiveByte(h, x) ==> ByteKept(s, s', x)
  }

  /** Metadata writes miss user data: live allocations touch no metadata, and all else is kept. */
  lemma LiveBytesAreKept(h: seq<Block>, h': seq<Block>, pages: seq<bool>, s: Space, s': Space)
    requires InRam(s.mem, s.dir) && InRam(s'.mem, s'.dir)
    requires HeapInv(h) && PagesInv(h, pages, s.Flat()) && forall i :: 0 <= i < |h| ==> WholeSections(h[i])
    requires RegionsDisjoint(h') && KeptOutside(h', s, s') && forall x: nat :: LiveByte(h, x) ==> LiveByte(h', x)
    ensures LiveKept(h, s, s')
  {
    forall x: nat | LiveByte(h, x)
      ensures ByteKept(s, s', x)
    {
      LiveBytesAreMapped(h, pages, s.Flat(), x);
      LiveIsNotMetadata(h', x);
    }
  }

  lemma LiveIsNotMetadata(h: seq<Block>, x: nat)
    requires RegionsDisjoint(h) && LiveByte(h, x)
    ensures !InMetadata(h, x)
  {
    var i, a :| 0 <= i < |h| && a in h[i].live && a.addr <= x < a.addr + a.bytes;
    forall k | 0 <= k < |h| && Divides(h[k].section)
      ensures !(h[k].start <= x < h[k].start + Metadata(h[k].size, h[k].section))
    {
      assert BytesApart(a.addr, a.bytes, h[k].start, Metadata(h[k].size, h[k].section));
    }
  }

  /** What is live at the call of kheap_malloc is live afterwards. */
  lemma {:induction false} LiveStaysLive(e0: Env, h: seq<Block>, e: Env, mid: seq<Block>, c: Demand, x: nat)
    requires Reached(e0, h, e, mid, c) && LiveByte(h, x)
    ensures LiveByte(mid, x)
  {
    ReachedMeans(e0, h, e, mid, c);
    var i, a :| 0 <= i < |h| && a in h[i].live && a.addr <= x < a.addr + a.bytes;
    var j := i + (|mid| - |h|);
    Listed(h, mid, j);
    assert a in mid[j].live;
  }

  lemma LiveAfterStep(h: seq<Block>, op: Op, h': seq<Block>, x: nat)
    requires HeapStep(h, op, h') && op.Malloc? && LiveByte(h, x)
    ensures LiveByte(h', x)
  {
    var i, a :| 0 <= i < |h| && a in h[i].live && a.addr <= x < a.addr + a.bytes;
    assert a in h'[i].live;
  }

  /** The heap lies where it should. (`Open` delays the unfolding.) */
  ghost predicate Settled(h: seq<Block>, pages: seq<bool>, s: Space, section: Word)
    requires InRam(s.mem, s.dir)
  {
    forall key {:trigger Open(key)} :: Open(key) && key == IMAGE ==>
      HeapInv(h) && PagesInv(h, pages, s.Flat()) && Uniform(h, section) && section > 0
  }

  /** A call of kheap_malloc, successful or not, keeps the bytes of everything that was live. */
  lemma LiveThroughMalloc(e0: Env, h: seq<Block>, e: Env, mid: seq<Block>, after: seq<Block>, ok: bool,
                          op: Op, out: nat, c: Demand, v: seq<bool>, v': seq<bool>, s: Space, s': Space)
    requires InRam(s.mem, s.dir) && InRam(s'.mem, s'.dir) && KeptOutside(after, s, s')
    requires Settled(h, v, s, c.section) && Settled(after, v', s', c.section) && c.section > 0
    requires PAGE_SIZE % c.section == 0
    requires if ok then Success(e0, h, e, mid, after, op, out, c) else mid == after && Failure(e0, h, e, mid, c)
    ensures LiveKept(h, s, s')
  {
    assert Open(IMAGE);
    UniformIsWhole(h, c.section);
    UniformIsWhole(after, c.section);
    InvSeparatesRegions(after);
    forall x: nat | LiveByte(h, x)
      ensures LiveByte(after, x)
    {
      LiveGrows(e0, h, e, mid, after, ok, op, out, c, x);
    }
    LiveBytesAreKept(h, after, v, s, s');
  }

  lemma LiveGrows(e0: Env, h: seq<Block>, e: Env, mid: seq<Block>, after: seq<Block>, ok: bool,
                  op: Op, out: nat, c: Demand, x: nat)
    requires if ok then Success(e0, h, e, mid, after, op, out, c) else mid == after && Failure(e0, h, e, mid, c)
    requires LiveByte(h, x)
    ensures LiveByte(after, x)
  {
    if ok {
      SuccessParts(e0, h, e, mid, after, op, out, c);
      LiveStaysLive(e0, h, e, mid, c, x);
      LiveAfterStep(mid, op, after, x);
    } else {
      FailureMeans(e0, h, e, mid, c);
      LiveStaysLive(e0, h, e, mid, c, x);
    }
  }

  /** A call of kheap_free keeps the bytes of everything that is live afterwards. */
  lemma LiveThroughFree(h: seq<Block>, v: seq<bool>, s: Space, s': Space, section: Word)
    requires InRam(s.mem, s.dir) && InRam(s'.mem, s'.dir) && KeptOutside(h, s, s') && s'.Flat() == s.Flat()
    requires Settled(h, v, s', section) && section > 0 && PAGE_SIZE % section == 0
    ensures LiveKept(h, s, s')
  {
    assert Open(IMAGE);
    UniformIsWhole(h, section);
    InvSeparatesRegions(h);
    LiveBytesAreKept(h, h, v, s, s');
  }

  lemma LiveKeptStill(h: seq<Block>, s: Space, s1: Space, s2: Space)
    requires InRam(s.mem, s.dir) && InRam(s1.mem, s1.dir) && InRam(s2.mem, s2.dir)
    requires LiveKept(h, s, s1) && AllKept(s1, s2)
    ensures LiveKept(h, s, s2)
  {
    forall x: nat | LiveByte(h, x)
      ensures ByteKept(s, s2, x)
    {
      assert ByteKept(s, s1, x) && ByteKept(s1, s2, x);
    }
  }

  /** A program stores to a word of its own: the heap's metadata is not touched. */
  lemma ImagedThroughStore(s: Space, s': Space, h: seq<Block>, images: seq<seq<Word>>, addr: nat)
    requires InRam(s.mem, s.dir) && InRam(s'.mem, s'.dir) && Imaged(s, h, images) && HeapInv(h) && RegionsDisjoint(h)
    requires addr % 4 == 0 && LiveByte(h, addr) && KeptBut(s, s', addr, addr + 4)
    ensures Imaged(s', h, images)
  {
    assert Open(IMAGE);
    LiveIsNotMetadata(h, addr);
    forall k | 0 <= k < |h|
      ensures Holds(s', h[k].start, images[k])
    {
      StoreMissesImage(h, k, images[k], addr);
      HoldsStill(s, s', addr, addr + 4, h[k].start, images[k]);
    }
  }

  lemma StoreMissesImage(h: seq<Block>, k: nat, image: seq<Word>, addr: nat)
    requires HeapInv(h) && k < |h| && IsImage(h[k], image) && !InMetadata(h, addr) && addr % 4 == 0
    ensures h[k].start + 4 * |image| <= addr || addr + 4 <= h[k].start
  {
    assert h[k].Inv() && !(h[k].start <= addr < h[k].start + Metadata(h[k].size, h[k].section));
    MetadataInside(h[k], image);
    if addr < h[k].start {
      NextWord(addr, h[k].start);
    }
  }

  lemma NextWord(x: nat, y: nat)
    requires x % 4 == 0 && y % 4 == 0 && x < y
    ensures x + 4 <= y
  {
  }

  // ----- The heap's own writes

  /** Block `k` has changed, and its words have been written back. */
  lemma BlockRewritten(s: Space, s': Space, h: seq<Block>, images: seq<seq<Word>>, h': seq<Block>,
                       images': seq<seq<Word>>, k: nat)
    requires InRam(s.mem, s.dir) && InRam(s'.mem, s'.dir) && Imaged(s, h, images) && Sound(h)
    requires k < |h| == |images| == |h'| == |images'| && SameButOne(h, h', k) && images' == images[k := images'[k]]
    requires IsImage(h'[k], images'[k]) && Holds(s', h'[k].start, images'[k])
    requires Decodes(h'[k], images'[k], NextStart(h', k))
    requires KeptBut(s, s', h'[k].start, h'[k].start + 4 * |images'[k]|)
    ensures Imaged(s', h', images') && KeptOutside(h', s, s')
  {
    SoundIsInv(h);
    ImagedUpdate(s, s', h, images, k, h'[k], images'[k]);
    forall x: nat | Usable(s, x)
      ensures ByteKept(s, s, x)
    {
    }
    OnlyMetadata(s, s, s', h', k, images'[k]);
  }

  /** A block has joined the list, and its words have been written. */
  lemma NewBlockImaged(s: Space, s': Space, h: seq<Block>, images: seq<seq<Word>>, h': seq<Block>,
                       images': seq<seq<Word>>, addr: nat, size: nat)
    requires InRam(s.mem, s.dir) && InRam(s'.mem, s'.dir) && Imaged(s, h, images) && Sound(h')
    requires h' != [] && images' != [] && h' == [h'[0]] + h && images' == [images'[0]] + images
    requires h'[0].start == addr && h'[0].size == size && IsImage(h'[0], images'[0])
    requires Decodes(h'[0], images'[0], NextStart(h', 0))
    requires KeptBut(s, s', addr, addr + 4 * |images'[0]|) && Holds(s', addr, images'[0])
    ensures Imaged(s', h', images') && KeptBut(s, s', addr, addr + size)
  {
    SoundIsInv(h');
    assert h'[0].Inv();
    ImagedAdd(s, s', h, images, h'[0], images'[0]);
    MetadataInside(h'[0], images'[0]);
    KeptButLess(s, s', addr, addr + 4 * |images'[0]|, addr, addr + size);
  }
}
