/**
 One block of the kernel heap (`kheap_block_t`): its two bit vectors, its cursor and its free count, with the search,
 marking and clearing loops of kheap_malloc and kheap_free.
 */
module HeapBlocks {
  import opened Words
  import opened Guards
  import opened Runs
  import opened Layout
  import opened Bitsets
  import opened HeapModel
  import opened HeapRuns
  import opened HeapImages

  class KheapBlock {
    const start: nat
    const block_size: Word
    const section_size: Word
    const next: KheapBlock?
    const used_sections: Bitset
    const delimiters: Bitset
    var first_free_section: nat
    var free_sections: nat

    ghost predicate Shape() {
      Vectors() && Divides(section_size)
    }

    /** The two bit vectors describe the same sections and are stored apart. */
    ghost predicate Vectors() {
      && used_sections.Valid() && delimiters.Valid()
      && used_sections.length == delimiters.length && used_sections.start != delimiters.start
    }

    /**
     The block as words in memory: the ten words of `kheap_block_t` and, behind them, the two bit vectors.
     */
    function Image(): (words: seq<Word>)
      reads this, used_sections.start, delimiters.start
    {
      Header() + used_sections.start[..] + delimiters.start[..]
    }

    function Header(): (words: seq<Word>)
      reads this, used_sections.start, delimiters.start
    {
      [if next == null then 0 else Wrap(next.start), block_size, section_size,
       Wrap(first_free_section), Wrap(free_sections), Wrap(start),
       Wrap(used_sections.length), Wrap(start + HEADER),
       Wrap(delimiters.length), Wrap(start + HEADER + 4 * used_sections.start.Length)]
    }

    /** The block's contents are those of the value `b`, and its words are `words`. (`Open` delays the unfolding.) */
    ghost predicate Is(b: Block, words: seq<Word>)
      reads this, used_sections.start, delimiters.start
    {
      Shape() && forall key {:trigger Open(key)} :: Open(key) && key == BLOCK ==> Same(b) && words == Image()
    }

    ghost predicate Same(b: Block)
      requires Shape()
      reads this, used_sections.start, delimiters.start
    {
      && b.start == start && b.size == block_size && b.section == section_size
      && b.cursor == first_free_section
      && b.used == used_sections.View() && b.delims == delimiters.View()
      && free_sections == Clear(b.used)
      && used_sections.start.Length == delimiters.start.Length
      && HEADER + 4 * (used_sections.start.Length + delimiters.start.Length) == Metadata(b.size, b.section)
    }

    lemma IsMeans(b: Block, words: seq<Word>)
      ensures Is(b, words) <==> Shape() && Same(b) && words == Image()
    {
      assert Open(BLOCK);
    }

    /** Who owns the sections is not part of the block's own contents. */
    lemma SameContents(b: Block, c: Block, words: seq<Word>)
      requires Is(b, words) && c.(live := b.live, leaked := b.leaked) == b
      ensures Is(c, words)
    {
      assert Open(BLOCK);
    }

    lemma FreeCount(b: Block, words: seq<Word>)
      requires Is(b, words)
      ensures free_sections == Clear(b.used)
    {
      assert Open(BLOCK);
    }

    /** The block's words; they fill its metadata and say what is in the block. */
    method Words(ghost b: Block, ghost expected: seq<Word>) returns (words: seq<Word>)
      requires Is(b, expected) && b.Inv() && (next != null ==> next.start < TWO_32)
      ensures words == expected && Divides(b.section) && 4 * |words| == Metadata(b.size, b.section) && b.start == start
      ensures Decodes(b, words, if next == null then 0 else next.start)
    {
      IsMeans(b, expected);
      words := Image();
      ImageDecodes(b);
    }

    lemma ImageDecodes(b: Block)
      requires Shape() && Same(b) && b.Inv() && (next != null ==> next.start < TWO_32)
      ensures Decodes(b, Image(), if next == null then 0 else next.start)
    {
      var w := used_sections.start.Length;
      HeaderInRange(b, w);
      HeaderMeans(b, Header(), w, if next == null then 0 else next.start);
      ImageMeans(b, Header(), used_sections.start[..], delimiters.start[..], if next == null then 0 else next.start);
    }

    /** kheap_add_block, apart from linking the block into a heap. */
    constructor (addr: nat, size: Word, section: Word, nextBlock: KheapBlock?)
      requires addr % 0x1000 == 0 && addr + size <= TWO_32
      requires section >= 4 && Divides(section) && size > Metadata(size, section)
      ensures Is(NewBlock(addr, size, section), Image()) && NewBlock(addr, size, section).Inv()
      ensures next == nextBlock && fresh(used_sections.start) && fresh(delimiters.start)
    {
      ghost var b := NewBlock(addr, size, section);
      NewBlockInv(addr, size, section);
      var used, delims, reserved, free := MakeBitsets(addr, size, section);
      start, block_size, section_size, next := addr, size, section, nextBlock;
      used_sections, delimiters, first_free_section, free_sections := used, delims, reserved, free;
      new;
      assert Shape() && Same(b);
    }

    /** The bit vectors of a new block, with the sections that hold its metadata marked. */
    static method MakeBitsets(ghost addr: nat, size: Word, section: Word)
        returns (used: Bitset, delims: Bitset, reserved: nat, free: nat)
      requires addr % 0x1000 == 0 && addr + size <= TWO_32
      requires section >= 4 && Divides(section) && size > Metadata(size, section)
      ensures used.Valid() && delims.Valid() && used.length == delims.length && used.start != delims.start
      ensures fresh(used.start) && fresh(delims.start) && used.start.Length == delims.start.Length
      ensures HEADER + 4 * (used.start.Length + delims.start.Length) == Metadata(size, section)
      ensures var b := NewBlock(addr, size, section);
              used.View() == b.used && delims.View() == b.delims && reserved == b.cursor && free == Clear(b.used)
    {
      ghost var b := NewBlock(addr, size, section);
      NewBlockInv(addr, size, section);
      MetaPositive(b);
      WordsSuffice(size, section);
      var num_int_required := DivRoundUp(size, Wrap(section * 32));
      var bitset_size := num_int_required * 4;
      var bitset_length := DivRoundUp(size, section);
      var used_words := new Word[num_int_required];
      var delimiter_words := new Word[num_int_required];
      used := new Bitset.Init(used_words, bitset_length);
      delims := new Bitset.Init(delimiter_words, bitset_length);
      reserved := DivRoundUp(HEADER + bitset_size * 2, section);
      for i := 0 to reserved
        invariant forall k :: 0 <= k < bitset_length ==> used.View()[k] == (k < i)
        invariant forall k :: 0 <= k < bitset_length ==> !delims.View()[k]
      {
        used.SetBit(i);
      }
      free := bitset_length - reserved;
      assert used.View() == b.used;
      assert delims.View() == b.delims;
    }

    /** The circular next-fit search of kheap_malloc; `first` is the run's first section. */
    method Search(n_sec: nat) returns (found: bool, first: nat)
      requires Shape() && n_sec > 0
      ensures NextFit(used_sections.View(), first_free_section % used_sections.length, n_sec,
                      if found then Some(first) else None)
      ensures found ==> FreeRun(used_sections.View(), first, n_sec)
    {
      ghost var v := used_sections.View();
      var length := used_sections.length;
      ghost var c := first_free_section % length;
      var first_free, continuous_pages := 0, 0;
      for k := 0 to length
        invariant Probed(v, c, n_sec, k, first_free, continuous_pages)
      {
        var i := (first_free_section + k) % length;
        CircularIndex(first_free_section, k, length);
        SearchStep(v, c, n_sec, k, first_free, continuous_pages);
        if !used_sections.GetBit(i) {
          if i < first_free {
            continuous_pages := 0;
          } else if continuous_pages == 0 {
            first_free := i;
          }
          continuous_pages := continuous_pages + 1;
          if continuous_pages == n_sec {
            return true, first_free;
          }
        } else {
          continuous_pages := 0;
        }
      }
      SearchEnds(v, c, n_sec, first_free, continuous_pages);
      found, first := false, 0;
    }

    /** kheap_malloc's guard and search on this block, for a padded request of `size` bytes. */
    method Find(size: Word, ghost b: Block, ghost words: seq<Word>) returns (found: bool, first: nat, n_sec: nat)
      requires Is(b, words) && |b.used| > 0 && b.section > 0
      ensures n_sec == DivRoundUp(size, b.section) && section_size == b.section && start == b.start
      ensures found ==> Here(b, size, first)
      ensures !found ==> NotHere(b, size)
    {
      IsMeans(b, words);
      var max_free_space := Wrap(block_size - HEADER - delimiters.length / 32 * 4 - used_sections.length / 32 * 4);
      n_sec := DivRoundUp(size, section_size);
      if size > max_free_space || n_sec > free_sections {
        return false, 0, n_sec;
      }
      found, first := Search(n_sec);
    }

    /** kheap_malloc's bookkeeping once a run has been found. */
    method Take(first: nat, n_sec: nat, ghost b: Block, ghost words: seq<Word>) returns (ghost words': seq<Word>)
      requires Is(b, words) && n_sec > 0 && FreeRun(b.used, first, n_sec) && |b.delims| == |b.used|
      modifies this, used_sections.start, delimiters.start
      ensures Is(TakenBlock(b, first, n_sec), words')
    {
      IsMeans(b, words);
      ClearFill(b.used, first, first + n_sec, true);
      RunWithinClear(b.used, first, n_sec);
      MarkSections(first, n_sec);
      words' := Image();
      IsMeans(TakenBlock(b, first, n_sec), words');
    }

    /** Mark a run of sections and its last section's delimiter. */
    method MarkSections(first: nat, n_sec: nat)
      requires Vectors() && 0 < n_sec <= free_sections && first + n_sec <= used_sections.length
      modifies this, used_sections.start, delimiters.start
      ensures used_sections.View() == Fill(old(used_sections.View()), first, first + n_sec, true)
      ensures delimiters.View() == old(delimiters.View())[first + n_sec - 1 := true]
      ensures first_free_section == first + n_sec && free_sections == old(free_sections) - n_sec
    {
      used_sections.SetRange(first, first + n_sec);
      delimiters.SetBit(first + n_sec - 1);
      free_sections := free_sections - n_sec;
      first_free_section := first + n_sec;
    }

    /** The first delimiter at or after `sect_num`; 0 when there is none, which kheap_free asserts against. */
    method FindDelimiter(sect_num: nat) returns (last_section: nat)
      requires Shape()
      ensures FirstDelimiter(delimiters.View(), sect_num, last_section)
    {
      var i := sect_num;
      while i < delimiters.length
        invariant sect_num <= i && forall k :: sect_num <= k < i && k < delimiters.length ==> !delimiters.View()[k]
      {
        if delimiters.GetBit(i) {
          return i;
        }
        i := i + 1;
      }
      last_section := 0;
    }

    /** The part of kheap_free that acts on the block found; returns how many sections became free. */
    method Give(addr: nat, ghost b: Block, ghost last: nat, ghost words: seq<Word>)
        returns (freed: nat, ghost words': seq<Word>)
      requires Is(b, words) && DelimitedAt(b, addr, last)
      modifies this, used_sections.start, delimiters.start
      ensures Is(ClearedBlock(b, b.SectionOf(addr), last), words') && freed == last - b.SectionOf(addr) + 1
    {
      IsMeans(b, words);
      var sect_num := (addr - start) / section_size;
      assert sect_num == b.SectionOf(addr);
      freed, words' := GiveFrom(sect_num, b, last, words);
    }

    /** The same from the section of the address on. */
    method GiveFrom(sect_num: nat, ghost b: Block, ghost last: nat, ghost words: seq<Word>)
        returns (freed: nat, ghost words': seq<Word>)
      requires Is(b, words) && FirstDelimiter(b.delims, sect_num, last) && 0 < last && |b.used| == |b.delims|
      requires sect_num <= last < |b.used| && forall i :: sect_num <= i <= last ==> b.used[i]
      modifies this, used_sections.start, delimiters.start
      ensures Is(ClearedBlock(b, sect_num, last), words') && freed == last - sect_num + 1
    {
      IsMeans(b, words);
      assert used_sections.GetBit(sect_num);
      var last_section := FindDelimiter(sect_num);
      assert last_section != 0;
      freed := last_section - sect_num + 1;
      ClearSections(sect_num, last_section);
      words' := Image();
      IsMeans(ClearedBlock(b, sect_num, last), words');
    }

    /** Clear an allocation's delimiter and its sections from `sect_num` on. */
    method ClearSections(sect_num: nat, last_section: nat)
      requires Vectors() && sect_num <= last_section < delimiters.length && free_sections == Clear(used_sections.View())
      requires forall i :: sect_num <= i <= last_section ==> used_sections.View()[i]
      modifies this, used_sections.start, delimiters.start
      ensures used_sections.View() == Fill(old(used_sections.View()), sect_num, last_section + 1, false)
      ensures delimiters.View() == old(delimiters.View())[last_section := false]
      ensures first_free_section == sect_num
      ensures free_sections == Clear(used_sections.View())
    {
      FreedCount(used_sections.View(), sect_num, last_section);
      ClearBits(sect_num, last_section);
      first_free_section := sect_num;
      free_sections := free_sections + (last_section - sect_num + 1);
    }

    method ClearBits(sect_num: nat, last_section: nat)
      requires Vectors() && sect_num <= last_section < delimiters.length
      modifies used_sections.start, delimiters.start
      ensures used_sections.View() == Fill(old(used_sections.View()), sect_num, last_section + 1, false)
      ensures delimiters.View() == old(delimiters.View())[last_section := false]
    {
      delimiters.ClearBit(last_section);
      used_sections.ClearRange(sect_num, last_section + 1);
    }
  }

  lemma FreedCount(v: seq<bool>, sect: nat, last: nat)
    requires sect <= last < |v| && forall i :: sect <= i <= last ==> v[i]
    ensures Clear(Fill(v, sect, last + 1, false)) == Clear(v) + (last - sect + 1)
  {
    ClearFill(v, sect, last + 1, false);
  }

  lemma HeaderMeans(b: Block, header: seq<Word>, w: nat, next: nat)
    requires Divides(b.section) && next < TWO_32 && |b.used| == |b.delims| && |b.used| < TWO_32
    requires b.start + 40 + 4 * w < TWO_32 && b.start < TWO_32 && b.cursor < TWO_32 && Clear(b.used) < TWO_32
    requires header == [Wrap(next), b.size, b.section, Wrap(b.cursor), Wrap(Clear(b.used)), Wrap(b.start), Wrap(|b.used|),
                        Wrap(b.start + 40), Wrap(|b.delims|), Wrap(b.start + 40 + 4 * w)]
    ensures IsHeader(b, header, w, next)
  {
  }

  /** No header field needs more than 32 bits. */
  lemma HeaderInRange(b: Block, w: nat)
    requires b.Inv() && HEADER + 8 * w == Metadata(b.size, b.section)
    ensures w == DivRoundUp(b.size, BytesPerInt(b.section))
    ensures b.start + 40 + 4 * w < TWO_32 && b.start < TWO_32 && b.cursor < TWO_32 && Clear(b.used) < TWO_32
    ensures |b.used| < TWO_32
  {
    WordsSuffice(b.size, b.section);
  }

  /** `(cursor + k) % length` walks the sections from the cursor on and round to the front. */
  lemma CircularIndex(cursor: nat, k: nat, length: nat)
    requires k < length
    ensures var c := cursor % length;
            (cursor + k) % length == if c + k < length then c + k else c + k - length
  {
    var c, q := cursor % length, cursor / length;
    assert cursor == q * length + c;
    if c + k < length {
      ModUnique(cursor + k, length, q, c + k);
    } else {
      assert (q + 1) * length == q * length + length;
      ModUnique(cursor + k, length, q + 1, c + k - length);
    }
  }

  /** One bit per section needs no more words than kheap_add_block sets aside. */
  lemma WordsSuffice(size: Word, section: Word)
    requires Divides(section) && size > 0
    ensures 0 < DivRoundUp(size, section) <= size
    ensures DivRoundUp(DivRoundUp(size, section), 32) <= DivRoundUp(size, BytesPerInt(section))
  {
    var w, length := DivRoundUp(size, BytesPerInt(section)), DivRoundUp(size, section);
    WordsCover(size, section);
    RoundedUp(size, section);
    MulLe(1, section, length - 1);
    assert (length - 1) * section == section * (length - 1);
    WordsBound(size, section, length, w);
    RoundedUp(length, 32);
  }
}
