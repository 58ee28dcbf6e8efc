/**
 The physical frame allocator of `kernel/arch/i386/mem.c`: a bit per frame, searched a word at a time.
 Frame 0 doubles as the "out of memory" result.
 */
module FrameAllocator {
  import opened Words
  import opened Runs
  import opened Bitsets
  import opened Layout

  /** Bits that the search looks at: whole words only, so up to 31 frames at the top are never handed out. */
  ghost function Searched(v: seq<bool>): seq<bool> {
    v[..|v| / 32 * 32]
  }

  /** `f` is the lowest free frame among those that are searched. */
  ghost predicate LeastFree(v: seq<bool>, f: nat) {
    f < 32 * (|v| / 32) && !v[f] && forall i :: 0 <= i < f ==> v[i]
  }

  /** No searched frame is free. */
  ghost predicate Full(v: seq<bool>) {
    forall i :: 0 <= i < 32 * (|v| / 32) ==> v[i]
  }

  lemma {:induction false} FullWordIsTaken(words: seq<Word>, v: seq<bool>, i: nat)
    requires |v| <= 32 * |words| && v == BitsOf(words, |v|) && 32 * i + 32 <= |v| && words[i] == 0xFFFF_FFFF
    ensures forall k :: 32 * i <= k < 32 * i + 32 ==> v[k]
  {
    BitsOfAt(words, |v|);
    forall k | 32 * i <= k < 32 * i + 32
      ensures v[k]
    {
      AllOnesBit(k % 32);
    }
  }

  lemma {:induction false} ProbeBit(words: seq<Word>, v: seq<bool>, i: nat, j: nat)
    requires |v| <= 32 * |words| && v == BitsOf(words, |v|) && 32 * i + 32 <= |v| && j < 32
    ensures And(words[i], Mask(j)) != 0 <==> v[32 * i + j]
  {
    BitsOfAt(words, |v|);
    TestBit(words[i], j);
  }

  class Frames {
    const bits: Bitset
    const highest_free_address: Word

    ghost predicate Valid() {
      bits.Valid() && bits.length == highest_free_address / PAGE_SIZE
    }

    ghost function View(): (v: seq<bool>)
      requires Valid()
      reads bits.start
      ensures |v| == bits.length
    {
      bits.View()
    }

    constructor (b: Bitset, highest: Word)
      requires b.Valid() && b.length == highest / PAGE_SIZE
      ensures Valid() && bits == b
    {
      bits, highest_free_address := b, highest;
    }

    /** i386_mem_get_next_free_frame */
    method GetNextFreeFrame() returns (frame: nat)
      requires Valid()
      ensures frame != 0 ==>
                frame < 32 * (|View()| / 32) && !View()[frame] && forall i :: 0 <= i < frame ==> View()[i]
      ensures frame == 0 ==>
                || (forall i :: 0 <= i < 32 * (|View()| / 32) ==> View()[i])
                || (32 <= |View()| && !View()[0])
    {
      ghost var v := View();
      for i := 0 to highest_free_address / PAGE_SIZE / 32
        invariant forall k :: 0 <= k < 32 * i ==> v[k]
      {
        if bits.start[i] == 0xFFFF_FFFF {
          FullWordIsTaken(bits.start[..], v, i);
          continue;
        }
        for j := 0 to 32
          invariant forall k :: 0 <= k < 32 * i + j ==> v[k]
        {
          ProbeBit(bits.start[..], v, i, j);
          if And(bits.start[i], Mask(j)) == 0 {
            return i * 32 + j;
          }
        }
      }
      return 0;
    }

    /** i386_mem_allocate_frame; 0 when there is none. */
    method AllocateFrame() returns (frame: nat)
      requires Valid()
      modifies bits.start
      ensures frame != 0 ==> LeastFree(old(View()), frame) && View() == old(View())[frame := true]
      ensures frame == 0 ==> View() == old(View()) && (Full(View()) || LeastFree(View(), 0))
      ensures |View()| >= 32 && old(View())[0] ==>
                (frame == 0 <==> forall i :: 0 <= i < 32 * (|View()| / 32) ==> old(View())[i])
    {
      frame := GetNextFreeFrame();
      if frame != 0 {
        bits.SetBit(frame);
      }
    }

    /** i386_mem_free_frame */
    method FreeFrame(frame: nat)
      requires Valid() && frame < bits.length
      modifies bits.start
      ensures View() == old(View())[frame := false]
    {
      bits.ClearBit(frame);
    }
  }

  /** Free frames that the search can still find. */
  ghost function Available(v: seq<bool>): nat {
    Clear(Searched(v))
  }

  /** They are the clear entries of the words that fit below the number of frames. */
  lemma AvailableIsCount(v: seq<bool>)
    ensures Available(v) == |set f | 0 <= f < 32 * (|v| / 32) && !v[f]|
  {
    ClearIsCount(Searched(v));
    assert (set f | 0 <= f < 32 * (|v| / 32) && !v[f]) == (set f | 0 <= f < |Searched(v)| && !Searched(v)[f]);
  }

  /** The lowest free frame has been taken, and there is one fewer to find. */
  ghost predicate TookFrame(v: seq<bool>, v': seq<bool>, frame: nat) {
    LeastFree(v, frame) && v' == v[frame := true] && Available(v) > 0 && Available(v') == Available(v) - 1
  }

  /**
   With frame 0 marked, the result 0 is unambiguous: it is returned exactly when no searched frame is free, and any
   other result takes one free frame.
   */
  lemma ZeroMeansExhausted(v: seq<bool>, frame: nat)
    requires |v| >= 32 && v[0]
    requires LeastFree(v, frame) || (frame == 0 && Full(v))
    ensures frame == 0 <==> forall i :: 0 <= i < 32 * (|v| / 32) ==> v[i]
    ensures frame == 0 <==> Available(v) == 0
    ensures frame != 0 ==> TookFrame(v, v[frame := true], frame)
  {
    var s := Searched(v);
    ClearPositive(s);
    if LeastFree(v, frame) {
      assert !s[frame];
      assert Searched(v[frame := true]) == s[frame := true];
      MarkOne(s, frame);
    }
  }

  lemma MarkOne(v: seq<bool>, k: nat)
    requires k < |v| && !v[k]
    ensures Clear(v[k := true]) == Clear(v) - 1
  {
    ClearFill(v, k, k + 1, true);
    assert Fill(v, k, k + 1, true) == v[k := true];
  }
}
