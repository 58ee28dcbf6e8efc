/**
 The address space allocator of `kernel/mm/asa.c`: first-fit reservation of kernel virtual pages over a bit vector.
 */
module AddressSpace {
  import opened Words
  import opened Runs
  import opened Bitsets
  import opened Layout

  // ----- What one call does to the bit vector

  /** asa_alloc: take the lowest run of `n` clear pages; nothing changes when there is none, or when `n` is 0. */
  ghost predicate Allocates(v: seq<bool>, n: nat, v': seq<bool>, first: Option<nat>) {
    match first
    case Some(s) => n > 0 && LowestRun(v, 0, |v|, n, s) && v' == Fill(v, s, s + n, true)
    case None => v' == v && (n > 0 ==> NoRun(v, 0, |v|, n))
  }

  /** asa_free as written: the loop runs from the first page up to `n`, not up to `first + n`. */
  ghost function Released(v: seq<bool>, first: nat, n: nat): (r: seq<bool>)
    ensures |r| == |v|
  {
    Fill(v, first, n, false)
  }

  class Asa {
    const pages: Bitset
    /** asa_init's argument; the kernel passes PAGE_SIZE. */
    const page_size: nat := PAGE_SIZE

    ghost predicate Valid() {
      pages.Valid() && pages.length == KVIRT_MAX / page_size
    }

    ghost function View(): (v: seq<bool>)
      requires Valid()
      reads pages.start
      ensures |v| == pages.length
    {
      pages.View()
    }

    /** The pages below KVIRT_RESERVED stay marked, so no reservation has address 0. */
    ghost predicate LowPagesMarked()
      requires Valid()
      reads pages.start
    {
      forall i :: 0 <= i < RESERVED_PAGES ==> View()[i]
    }

    /** asa_init, once the storage for the bit vector has been obtained. */
    constructor Init(storage: array<Word>)
      requires DivRoundUp(KERNEL_PAGES, 32) <= storage.Length
      modifies storage
      ensures Valid() && pages.start == storage && fresh(pages)
      ensures forall i :: 0 <= i < KERNEL_PAGES ==> View()[i] == (i < RESERVED_PAGES)
    {
      var entries := KVIRT_MAX / PAGE_SIZE;
      var bits := new Bitset.Init(storage, entries);
      var max := KVIRT_RESERVED / PAGE_SIZE;
      for i := 0 to max
        invariant forall k :: 0 <= k < entries ==> bits.View()[k] == (k < i)
      {
        bits.SetBit(i);
      }
      pages := bits;
    }

    /** asa_alloc; `addr` is 0 for NULL. */
    method Alloc(n: nat) returns (addr: nat, ghost first: Option<nat>)
      requires Valid()
      modifies pages.start
      ensures Allocates(old(View()), n, View(), first)
      ensures addr == if first.Some? then first.value * page_size else 0
    {
      var first_free, continuous := 0, 0;
      ghost var v := View();
      for i := 0 to pages.length
        invariant View() == v
        invariant Scanned(v, 0, i, n, continuous)
        invariant continuous > 0 ==> first_free == i - continuous
      {
        ScanStep(v, 0, i, n, continuous);
        if !pages.GetBit(i) {
          if continuous == 0 {
            first_free := i;
          }
          continuous := continuous + 1;
          if continuous == n {
            assert LowestRun(v, 0, |v|, n, first_free);
            Take(first_free, continuous);
            return first_free * page_size, Some(first_free);
          }
        } else {
          continuous := 0;
        }
      }
      return 0, None;
    }

    /** The marking loop of asa_alloc. */
    method Take(first: nat, n: nat)
      requires Valid() && first + n <= pages.length
      modifies pages.start
      ensures View() == Fill(old(View()), first, first + n, true)
    {
      for j := first to first + n
        invariant View() == Fill(old(View()), first, j, true)
      {
        pages.SetBit(j);
      }
    }

    /** asa_free; the bound on `n` is the assertion of the bit operation it loops over. */
    method Free(addr: nat, n: nat)
      requires Valid()
      requires addr / page_size < n ==> n <= pages.length
      modifies pages.start
      ensures View() == Released(old(View()), addr / page_size, n)
    {
      var start := addr / page_size;
      pages.ClearRange(start, n);
    }
  }

  /** A call that returns NULL found no run; one that does not returns the lowest run and takes exactly that run. */
  lemma {:induction false} FirstFitIsCorrectAndComplete(v: seq<bool>, n: nat, v': seq<bool>, first: Option<nat>)
    requires Allocates(v, n, v', first)
    ensures first.Some? <==> n > 0 && exists s :: FreeRun(v, s, n)
    ensures first.Some? ==> forall s :: FreeRun(v, s, n) ==> first.value <= s
    ensures |v'| == |v| && forall i :: 0 <= i < |v| ==>
              (v'[i] != v[i] <==> first.Some? && first.value <= i < first.value + n)
    ensures Clear(v') == Clear(v) - if first.Some? then n else 0
  {
    if first.Some? {
      assert FreeRun(v, first.value, n);
      ClearFill(v, first.value, first.value + n, true);
    } else if n > 0 {
      forall s: nat | FreeRun(v, s, n)
        ensures false
      {
      }
    }
  }

  /** asa_free gives a marked range back exactly when the range starts at page 0 or is empty. */
  lemma {:induction false} FreeReleasesRangeIff(v: seq<bool>, first: nat, n: nat)
    requires first + n <= |v| && forall i :: first <= i < first + n ==> v[i]
    ensures Released(v, first, n) == Fill(v, first, first + n, false) <==> first == 0 || n == 0
  {
    if first > 0 && n > 0 {
      assert Released(v, first, n)[first + n - 1] != Fill(v, first, first + n, false)[first + n - 1];
    }
  }

  /**
   Of a marked range asa_free clears the part below page number `n`, and nothing else: so it never reaches another
   reservation, and it gives nothing back exactly when the range starts at page `n` or above.
   */
  lemma {:induction false} FreeReleasesBelow(v: seq<bool>, first: nat, n: nat)
    requires first + n <= |v| && forall i :: first <= i < first + n ==> v[i]
    ensures Clear(Released(v, first, n)) == Clear(v) + if first < n then n - first else 0
    ensures Released(v, first, n) == v <==> n <= first
    ensures forall i :: 0 <= i < |v| && Released(v, first, n)[i] != v[i] ==> first <= i < first + n
  {
    if first < n {
      ClearFill(v, first, n, false);
    }
  }

  /**
   A range that reaches below its own length is partly handed out again: the first 1000 pages that are reserved and
   released leave 620 pages for the next request.
   */
  lemma {:induction false} FreedPagesComeBack(v: seq<bool>)
    requires |v| == KERNEL_PAGES && forall i :: 0 <= i < KERNEL_PAGES ==> v[i] == (i < RESERVED_PAGES)
    ensures RESERVED_PAGES == 380
    ensures var v1 := Fill(v, 380, 1380, true);
            var v2 := Released(v1, 380, 1000);
            Allocates(v, 1000, v1, Some(380)) && Allocates(v2, 620, Fill(v2, 380, 1000, true), Some(380))
  {
    LowestAbove(v, 1000);
    LowestAbove(Released(Fill(v, 380, 1380, true), 380, 1000), 620);
  }

  lemma LowestAbove(v: seq<bool>, n: nat)
    requires n > 0 && 380 + n <= |v| && (forall i :: 0 <= i < 380 ==> v[i]) && forall i :: 380 <= i < 380 + n ==> !v[i]
    ensures LowestRun(v, 0, |v|, n, 380)
  {
    forall t | 0 <= t < 380
      ensures !FreeRun(v, t, n)
    {
      assert v[t];
    }
  }

  /** A one-page reservation above the reserved area is never given back. */
  lemma FreeLeaksOnePage()
    ensures var v := seq(KERNEL_PAGES, _ => true);
            Released(v, RESERVED_PAGES, 1) == v
  {
  }

  // ----- Runs of calls

  datatype Range = Range(first: nat, n: nat)

  datatype World = World(pages: seq<bool>, owned: set<Range>)

  datatype Call = AllocCall(n: nat) | FreeCall(r: Range)

  /** One call; only outstanding reservations are released. */
  ghost predicate Step(w: World, c: Call, w': World) {
    match c
    case AllocCall(n) =>
      exists first :: Allocates(w.pages, n, w'.pages, first)
                      && w'.owned == w.owned + if first.Some? then {Range(first.value, n)} else {}
    case FreeCall(r) =>
      r in w.owned && w' == World(Released(w.pages, r.first, r.n), w.owned - {r})
  }

  ghost predicate Initial(w: World, reserved: nat) {
    w.owned == {} && reserved <= |w.pages| && forall i :: 0 <= i < reserved ==> w.pages[i]
  }

  ghost predicate Disjoint(a: Range, b: Range) {
    a.first + a.n <= b.first || b.first + b.n <= a.first
  }

  /** Outstanding reservations are above the reserved pages, marked, and pairwise disjoint. */
  ghost predicate Inv(w: World, reserved: nat) {
    && reserved <= |w.pages|
    && (forall i :: 0 <= i < reserved ==> w.pages[i])
    && (forall r :: r in w.owned ==> reserved <= r.first && r.n > 0 && r.first + r.n <= |w.pages|)
    && (forall r, i :: r in w.owned && r.first <= i < r.first + r.n ==> w.pages[i])
    && (forall r, q :: r in w.owned && q in w.owned && r != q ==> Disjoint(r, q))
  }

  lemma StepKeepsInv(w: World, c: Call, w': World, reserved: nat)
    requires Inv(w, reserved) && Step(w, c, w')
    ensures Inv(w', reserved)
  {
    match c
    case AllocCall(n) =>
      var first :| Allocates(w.pages, n, w'.pages, first)
                   && w'.owned == w.owned + if first.Some? then {Range(first.value, n)} else {};
      if first.Some? {
        FreshRunIsDisjoint(w, reserved, first.value, n);
      }
    case FreeCall(r) =>
      assert forall q :: q in w'.owned ==> Disjoint(r, q);
  }

  lemma FreshRunIsDisjoint(w: World, reserved: nat, s: nat, n: nat)
    requires Inv(w, reserved) && n > 0 && FreeRun(w.pages, s, n)
    ensures reserved <= s
    ensures forall r :: r in w.owned ==> Disjoint(r, Range(s, n))
  {
    assert !w.pages[s];
    forall r | r in w.owned
      ensures Disjoint(r, Range(s, n))
    {
      assert w.pages[r.first];
    }
  }

  /** Over any run of calls no page is owned by two outstanding reservations. */
  lemma NoPageOwnedTwice(ws: seq<World>, cs: seq<Call>, reserved: nat)
    requires |ws| == |cs| + 1 && Initial(ws[0], reserved)
    requires forall k :: 0 <= k < |cs| ==> Step(ws[k], cs[k], ws[k + 1])
    ensures forall k :: 0 <= k < |ws| ==> Inv(ws[k], reserved)
  {
    for k := 0 to |cs|
      invariant forall j :: 0 <= j <= k ==> Inv(ws[j], reserved)
    {
      StepKeepsInv(ws[k], cs[k], ws[k + 1], reserved);
    }
  }
}
