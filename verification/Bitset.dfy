/**
 The bit vector of `kernel/include/kernel/bitset.h`: 32-bit words edited with shifts and masks.
 */
module Bitsets {
  import opened Words
  import opened Runs

  /** The first `n` bits of an array of words; `BitsOfAt` says what each of them is. */
  ghost function BitsOf(words: seq<Word>, n: nat): (v: seq<bool>)
    requires n <= 32 * |words|
    ensures |v| == n
  {
    if n == 0 then [] else BitsOf(words, n - 1) + [Bit(words[(n - 1) / 32], (n - 1) % 32)]
  }

  lemma {:induction false} BitsOfAt(words: seq<Word>, n: nat)
    requires n <= 32 * |words|
    ensures forall i :: 0 <= i < n ==> BitsOf(words, n)[i] == Bit(words[i / 32], i % 32)
  {
    if n > 0 {
      BitsOfAt(words, n - 1);
    }
  }

  /** `1 << k` on a 32-bit word. */
  function Mask(k: nat): Word
    requires k < 32
  {
    Pow2Of32();
    Pow2Mono(k, 32);
    Pow2(k)
  }

  function SetIn(w: Word, k: nat): Word
    requires k < 32
  {
    Pow2Of32();
    OrRange(w, Mask(k), 32);
    Or(w, Mask(k))
  }

  function ClearIn(w: Word, k: nat): Word
    requires k < 32
  {
    AndRange(w, Not(Mask(k)));
    And(w, Not(Mask(k)))
  }

  /** Or-ing the mask of bit `n` into its word sets bit `n` of the vector and no other. */
  lemma SetTouchesOneBit(words: seq<Word>, length: nat, n: nat)
    requires n < length <= 32 * |words|
    ensures BitsOf(words[n / 32 := SetIn(words[n / 32], n % 32)], length) == BitsOf(words, length)[n := true]
  {
    var w := words[n / 32];
    BitsOfAt(words, length);
    BitsOfAt(words[n / 32 := SetIn(w, n % 32)], length);
    forall k: nat | k < 32
      ensures Bit(SetIn(w, n % 32), k) == (k == n % 32 || Bit(w, k))
    {
      OrBit(w, Pow2(n % 32), k);
      Pow2Bit(n % 32, k);
    }
  }

  /** And-ing the complement mask of bit `n` into its word clears bit `n` of the vector and no other. */
  lemma ClearTouchesOneBit(words: seq<Word>, length: nat, n: nat)
    requires n < length <= 32 * |words|
    ensures BitsOf(words[n / 32 := ClearIn(words[n / 32], n % 32)], length) == BitsOf(words, length)[n := false]
  {
    var w := words[n / 32];
    BitsOfAt(words, length);
    BitsOfAt(words[n / 32 := ClearIn(w, n % 32)], length);
    forall k: nat | k < 32
      ensures Bit(ClearIn(w, n % 32), k) == (k != n % 32 && Bit(w, k))
    {
      AndBit(w, Not(Mask(n % 32)), k);
      NotBit(Mask(n % 32), k);
      Pow2Bit(n % 32, k);
    }
  }

  /** Storing 0xFFFFFFFF sets the 32 bits of that word and no other. */
  lemma FullWordFills(words: seq<Word>, length: nat, i: nat)
    requires 32 * i + 32 <= length <= 32 * |words|
    ensures BitsOf(words[i := 0xFFFF_FFFF], length) == Fill(BitsOf(words, length), 32 * i, 32 * i + 32, true)
  {
    BitsOfAt(words, length);
    BitsOfAt(words[i := 0xFFFF_FFFF], length);
    forall k: nat | k < 32
      ensures Bit(0xFFFF_FFFF, k)
    {
      AllOnesBit(k);
    }
  }

  class Bitset {
    const length: nat
    const start: array<Word>

    ghost predicate Valid() {
      0 < length <= 32 * start.Length
    }

    ghost function View(): (v: seq<bool>)
      requires Valid()
      reads start
      ensures |v| == length
    {
      BitsOf(start[..], length)
    }

    /** bitset_init on storage that the caller supplies. */
    constructor Init(storage: array<Word>, n: Word)
      requires 0 < n && DivRoundUp(n, 32) <= storage.Length
      modifies storage
      ensures Valid() && start == storage && length == n
      ensures forall i :: 0 <= i < n ==> !View()[i]
      ensures forall i :: DivRoundUp(n, 32) <= i < storage.Length ==> storage[i] == old(storage[i])
    {
      start, length := storage, n;
      new;
      var words := DivRoundUp(n, 32);
      for i := 0 to words
        invariant forall j :: 0 <= j < i ==> storage[j] == 0
        invariant forall j :: i <= j < storage.Length ==> storage[j] == old(storage[j])
      {
        storage[i] := 0;
      }
      BitsOfAt(storage[..], n);
      forall i | 0 <= i < n
        ensures !View()[i]
      {
        ZeroBit(i % 32);
      }
    }

    method SetBit(n: nat)
      requires Valid() && n < length
      modifies start
      ensures View() == old(View())[n := true]
    {
      SetTouchesOneBit(start[..], length, n);
      start[n / 32] := SetIn(start[n / 32], n % 32);
      assert start[..] == old(start[..])[n / 32 := start[n / 32]];
    }

    /** The C function's result is non-zero exactly when this one's is true. */
    function GetBit(n: nat): (r: bool)
      requires Valid() && n < length
      reads start
      ensures r == View()[n]
    {
      TestBit(start[n / 32], n % 32);
      BitsOfAt(start[..], length);
      And(start[n / 32], Mask(n % 32)) != 0
    }

    method ClearBit(n: nat)
      requires Valid() && n < length
      modifies start
      ensures View() == old(View())[n := false]
    {
      ClearTouchesOneBit(start[..], length, n);
      start[n / 32] := ClearIn(start[n / 32], n % 32);
      assert start[..] == old(start[..])[n / 32 := start[n / 32]];
    }

    /** Set every bit of `[lo, hi)`, a whole word at a time where the code can (heap.c). */
    method SetRange(lo: nat, hi: nat)
      requires Valid() && lo <= hi <= length
      modifies start
      ensures View() == Fill(old(View()), lo, hi, true)
    {
      var j := lo;
      while j < hi
        invariant lo <= j <= hi
        invariant View() == Fill(old(View()), lo, j, true)
      {
        if j % 32 == 0 && j + 32 < hi {
          FullWordFills(start[..], length, j / 32);
          ghost var before := start[..];
          start[j / 32] := 0xFFFF_FFFF;
          assert start[..] == before[j / 32 := 0xFFFF_FFFF];
          j := j + 32;
        } else {
          SetBit(j);
          j := j + 1;
        }
      }
    }

    /** Clear every bit of `[lo, hi)` one at a time, as the loops of kheap_free and asa_free do. */
    method ClearRange(lo: nat, hi: nat)
      requires Valid() && (lo < hi ==> hi <= length)
      modifies start
      ensures View() == Fill(old(View()), lo, hi, false)
    {
      var i := lo;
      while i < hi
        invariant lo <= i && (i <= hi || i == lo)
        invariant View() == Fill(old(View()), lo, i, false)
      {
        ClearBit(i);
        i := i + 1;
      }
      assert Fill(old(View()), lo, i, false) == Fill(old(View()), lo, hi, false);
    }
  }
}
