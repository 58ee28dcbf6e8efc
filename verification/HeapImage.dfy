/**
 What the words of a block's metadata mean: `kheap_block_t` as the compiler lays it out on i386, and the two bit vectors
 behind it.
 */
module HeapImages {
  import opened Words
  import opened Guards
  import opened Runs
  import opened Bitsets
  import opened HeapModel

  /**
   `words` are the metadata of `b`, followed in the list by a block at `next`, or by none when `next` is 0. The header
   consists of the link, the sizes of block and sections, the cursor, the number of free sections and the address, and of
   length and address of either bit vector. (`Open` delays the unfolding.)
   */
  ghost predicate Decodes(b: Block, words: seq<Word>, next: nat) {
    forall key {:trigger Open(key)} :: Open(key) && key == WORDS ==> Divides(b.section) && Meaning(b, words, next)
  }

  ghost predicate Meaning(b: Block, words: seq<Word>, next: nat)
    requires Divides(b.section)
  {
    var w := DivRoundUp(b.size, BytesPerInt(b.section));
    && |words| == 10 + 2 * w && |b.used| == |b.delims| <= 32 * w
    && IsHeader(b, words[..10], w, next)
    && BitsOf(words[10..10 + w], |b.used|) == b.used
    && BitsOf(words[10 + w..], |b.delims|) == b.delims
  }

  ghost predicate IsHeader(b: Block, header: seq<Word>, w: nat, next: nat) {
    && |header| == 10
    && header[0] == next && header[1] == b.size && header[2] == b.section
    && header[3] == b.cursor && header[4] == Clear(b.used) && header[5] == b.start
    && header[6] == |b.used| && header[7] == b.start + 40
    && header[8] == |b.delims| && header[9] == b.start + 40 + 4 * w
  }

  lemma ImageMeans(b: Block, header: seq<Word>, used: seq<Word>, delims: seq<Word>, next: nat)
    requires Divides(b.section) && |used| == |delims| == DivRoundUp(b.size, BytesPerInt(b.section))
    requires IsHeader(b, header, |used|, next) && |b.used| == |b.delims| <= 32 * |used|
    requires BitsOf(used, |b.used|) == b.used && BitsOf(delims, |b.delims|) == b.delims
    ensures Decodes(b, header + used + delims, next)
  {
    var words, w := header + used + delims, |used|;
    assert words[..10] == header && words[10..10 + w] == used && words[10 + w..] == delims;
  }

  /** Every section's state can be read from memory: bit `i % 32` of word `i / 32` of the bit vector that says it. */
  lemma SectionInMemory(b: Block, words: seq<Word>, next: nat, i: nat)
    requires Decodes(b, words, next) && i < |b.used|
    ensures var w := (|words| - 10) / 2;
            && |words| == 10 + 2 * w && |b.delims| == |b.used| <= 32 * w && i / 32 < w
            && b.used[i] == Bit(words[10 + i / 32], i % 32)
            && b.delims[i] == Bit(words[10 + w + i / 32], i % 32)
  {
    assert Open(WORDS);
    InWords(words, DivRoundUp(b.size, BytesPerInt(b.section)), b.used, b.delims, i);
  }

  lemma InWords(words: seq<Word>, w: nat, used: seq<bool>, delims: seq<bool>, i: nat)
    requires |words| == 10 + 2 * w && i < |used| == |delims| <= 32 * w
    requires BitsOf(words[10..10 + w], |used|) == used && BitsOf(words[10 + w..], |delims|) == delims
    ensures w == (|words| - 10) / 2 && i / 32 < w
    ensures used[i] == Bit(words[10 + i / 32], i % 32) && delims[i] == Bit(words[10 + w + i / 32], i % 32)
  {
    assert words[10 + w..] == words[10 + w..10 + w + w];
    BitIn(words, 10, w, used, i);
    BitIn(words, 10 + w, w, delims, i);
  }

  lemma BitIn(words: seq<Word>, lo: nat, w: nat, v: seq<bool>, i: nat)
    requires lo + w <= |words| && i < |v| <= 32 * w && BitsOf(words[lo..lo + w], |v|) == v
    ensures i / 32 < w && v[i] == Bit(words[lo + i / 32], i % 32)
  {
    BitsOfAt(words[lo..lo + w], |v|);
  }

  /** Where the block behind block `k` starts; 0 at the end of the list. */
  ghost function NextStart(h: seq<Block>, k: nat): nat {
    if k + 1 < |h| then h[k + 1].start else 0
  }
}
