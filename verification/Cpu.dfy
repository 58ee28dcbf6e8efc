/**
 The processor as the paging code sees it: memory, a translation look-aside buffer, and the instructions that load,
 store, invalidate a page and switch paging on (sections 4.3 and 4.10 of the Intel SDM, Volume 3A).
 */
module Processor {
  import opened Words
  import opened Layout
  import opened PageTables

  class Cpu {
    var mem: Mem
    var tlb: map<nat, Word>
    var cr3: nat
    var paging: bool

    constructor (m: Mem)
      ensures mem == m && !paging && tlb == map[]
    {
      mem, tlb, cr3, paging := m, map[], 0, false;
    }

    /** Every cached translation, except for the pages in `stale`, is what the tables say now. */
    ghost predicate Coherent(stale: set<nat>)
      reads this
    {
      paging ==> InRam(mem, cr3) &&
                 forall p :: p in tlb ==> p < PAGES && (p in stale || Walk(mem, cr3, p) == Some(tlb[p]))
    }

    /** An access to `page` goes to `frame`, whether through the tables or, before paging, directly. */
    ghost predicate Reaches(page: nat, frame: nat)
      reads this
    {
      && InRam(mem, frame)
      && if paging then
           InRam(mem, cr3) && page < PAGES && Walk(mem, cr3, page).Some? && FrameOf(Walk(mem, cr3, page).value) == frame
         else page == frame
    }

    /** At any time the processor may drop cached translations and cache present ones. */
    method Speculate()
      requires Coherent({})
      modifies this`tlb
      ensures Coherent({}) && (!paging ==> tlb == old(tlb))
    {
      var t: map<nat, Word> := *;
      if paging && InRam(mem, cr3) && forall p :: p in t.Keys ==> 0 <= p < PAGES && Walk(mem, cr3, p) == Some(t[p]) {
        tlb := t;
      }
    }

    /** The frame an access to `page` uses: a cached translation wins over the tables. */
    method Translate(page: nat, ghost frame: nat) returns (f: nat)
      requires Coherent({}) && Reaches(page, frame)
      modifies this`tlb
      ensures Coherent({}) && f == frame && (!paging ==> tlb == old(tlb))
    {
      Speculate();
      if !paging {
        f := page;
      } else if page in tlb {
        f := FrameOf(tlb[page]);
      } else {
        f := FrameOf(Walk(mem, cr3, page).value);
      }
    }

    method Load(page: nat, i: nat, ghost frame: nat) returns (w: Word)
      requires Coherent({}) && Reaches(page, frame) && i < ENTRIES
      modifies this`tlb
      ensures Coherent({}) && w == mem[frame][i] && (!paging ==> tlb == old(tlb))
    {
      var f := Translate(page, frame);
      w := mem[f][i];
    }

    /** A store leaves cached translations alone: they agree with the tables as they were before it. */
    method Store(page: nat, i: nat, w: Word, ghost frame: nat)
      requires Coherent({}) && Reaches(page, frame) && i < ENTRIES
      modifies this`mem, this`tlb
      ensures mem == Put(old(mem), frame, i, w)
      ensures paging ==> forall p :: p in tlb ==> p < PAGES && Walk(old(mem), cr3, p) == Some(tlb[p])
      ensures !paging ==> tlb == old(tlb)
    {
      var f := Translate(page, frame);
      mem := Put(mem, f, i, w);
    }

    method Invlpg(page: nat)
      requires Coherent({page})
      modifies this`tlb
      ensures Coherent({})
    {
      tlb := tlb - {page};
      Speculate();
    }

    method LoadPageDir(frame: nat)
      requires !paging
      modifies this`cr3
      ensures cr3 == frame
    {
      cr3 := frame;
    }

    /** Nothing is cached while paging is off. */
    method EnablePaging()
      requires !paging && tlb == map[] && InRam(mem, cr3)
      modifies this`paging
      ensures paging && Coherent({})
    {
      paging := true;
    }
  }

  /** Every cached translation is what the tables in `m` say. */
  ghost predicate Agrees(tlb: map<nat, Word>, m: Mem, dir: nat)
    requires InRam(m, dir)
  {
    forall p :: p in tlb ==> p < PAGES && Walk(m, dir, p) == Some(tlb[p])
  }

  /**
   When one page's translation changes, no cached translation can be stale exactly when the page was absent before. So
   mapping an absent page needs no invalidation, and mapping over a present one does.
   */
  lemma NoInvlpgNeededIff(m: Mem, m': Mem, dir: nat, page: nat)
    requires InRam(m, dir) && |m'| == |m| && page < PAGES
    requires SameWalks(m, m', dir, {page}) && Walk(m', dir, page) != Walk(m, dir, page)
    ensures (forall tlb :: Agrees(tlb, m, dir) ==> Agrees(tlb, m', dir)) <==> Walk(m, dir, page) == None
  {
    if Walk(m, dir, page).Some? {
      var tlb := map[page := Walk(m, dir, page).value];
      assert Agrees(tlb, m, dir) && !Agrees(tlb, m', dir);
    }
  }
}
