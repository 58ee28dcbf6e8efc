/**
 Runs of clear entries in a bit vector: the vocabulary in which the allocators' searches are specified.
 */
module Runs {
  import opened Words

  /** The `n` entries from `s` on exist and are all clear. */
  ghost predicate FreeRun(v: seq<bool>, s: nat, n: nat) {
    s + n <= |v| && forall i :: s <= i < s + n ==> !v[i]
  }

  /** `s` starts the lowest clear run of `n` entries that lies inside `[lo, hi)`. */
  ghost predicate LowestRun(v: seq<bool>, lo: nat, hi: nat, n: nat, s: nat) {
    lo <= s && s + n <= hi && FreeRun(v, s, n) && forall t :: lo <= t < s ==> !FreeRun(v, t, n)
  }

  ghost predicate NoRun(v: seq<bool>, lo: nat, hi: nat, n: nat) {
    forall t :: lo <= t && t + n <= hi ==> !FreeRun(v, t, n)
  }

  /**
   The state of a left-to-right scan of `[lo, i)` for a clear run of `n`: the last `cont` entries are a maximal clear
   stretch, still shorter than `n`, and no run of `n` has been passed.
   */
  ghost predicate Scanned(v: seq<bool>, lo: nat, i: nat, n: nat, cont: nat) {
    && lo <= i <= |v| && cont <= i - lo
    && (n > 0 ==> cont < n)
    && FreeRun(v, i - cont, cont)
    && (lo < i - cont ==> v[i - cont - 1])
    && (n > 0 ==> NoRun(v, lo, i, n))
  }

  /** Looking at one more entry either completes the lowest run or keeps the scan going. */
  lemma ScanStep(v: seq<bool>, lo: nat, i: nat, n: nat, cont: nat)
    requires Scanned(v, lo, i, n, cont) && i < |v|
    ensures v[i] ==> Scanned(v, lo, i + 1, n, 0)
    ensures !v[i] && cont + 1 != n ==> Scanned(v, lo, i + 1, n, cont + 1)
    ensures !v[i] && cont + 1 == n ==> LowestRun(v, lo, i + 1, n, i - cont)
  {
    if n > 0 {
      forall t | lo <= t && t + n <= i + 1 && t < i - cont
        ensures !FreeRun(v, t, n)
      {
        if t + n == i + 1 {
          assert lo < i - cont;
          assert t <= i - cont - 1 < t + n;
        }
      }
    }
  }

  /** `v` with every entry of `[lo, hi)` set to `b`. */
  ghost function Fill(v: seq<bool>, lo: nat, hi: nat, b: bool): (r: seq<bool>)
    ensures |r| == |v|
    ensures forall i :: 0 <= i < |v| ==> r[i] == if lo <= i < hi then b else v[i]
    decreases hi - lo
  {
    if lo >= hi then v
    else
      var r := Fill(v, lo, hi - 1, b);
      if hi - 1 < |v| then r[hi - 1 := b] else r
  }

  /** Number of clear entries. */
  ghost function Clear(v: seq<bool>): (n: nat)
    ensures n <= |v|
  {
    if v == [] then 0 else Clear(v[..|v| - 1]) + (if v[|v| - 1] then 0 else 1)
  }

  lemma {:induction false} ClearIsCount(v: seq<bool>)
    ensures Clear(v) == |set i | 0 <= i < |v| && !v[i]|
  {
    var s := set i | 0 <= i < |v| && !v[i];
    if v == [] {
      assert s == {};
    } else {
      var last, u := |v| - 1, v[..|v| - 1];
      ClearIsCount(u);
      assert s == (set i | 0 <= i < |u| && !u[i]) + if v[last] then {} else {last};
    }
  }

  lemma {:induction false} ClearSplit(v: seq<bool>, k: nat)
    requires k <= |v|
    ensures Clear(v) == Clear(v[..k]) + Clear(v[k..])
  {
    if k == |v| {
      assert v[..k] == v;
    } else {
      var u := v[..|v| - 1];
      ClearSplit(u, k);
      assert u[..k] == v[..k];
      assert v[k..][..|v[k..]| - 1] == u[k..];
    }
  }

  lemma {:induction false} ClearAll(v: seq<bool>, b: bool)
    requires forall i :: 0 <= i < |v| ==> v[i] == b
    ensures Clear(v) == if b then 0 else |v|
  {
    if v != [] {
      ClearAll(v[..|v| - 1], b);
    }
  }

  /** Turning a uniform stretch over moves exactly its length between clear and set. */
  lemma {:induction false} ClearFill(v: seq<bool>, lo: nat, hi: nat, b: bool)
    requires lo <= hi <= |v|
    requires forall i :: lo <= i < hi ==> v[i] == !b
    ensures Clear(Fill(v, lo, hi, b)) == if b then Clear(v) - (hi - lo) else Clear(v) + (hi - lo)
  {
    var w := Fill(v, lo, hi, b);
    assert w[..lo] == v[..lo] && w[hi..] == v[hi..];
    ClearSwap(v, w, lo, hi, b);
  }

  lemma {:induction false} ClearSwap(v: seq<bool>, w: seq<bool>, lo: nat, hi: nat, b: bool)
    requires lo <= hi <= |v| == |w| && w[..lo] == v[..lo] && w[hi..] == v[hi..]
    requires forall i :: lo <= i < hi ==> v[i] == !b && w[i] == b
    ensures Clear(w) == if b then Clear(v) - (hi - lo) else Clear(v) + (hi - lo)
  {
    ClearThirds(v, lo, hi);
    ClearThirds(w, lo, hi);
    ClearAll(v[lo..hi], !b);
    ClearAll(w[lo..hi], b);
  }

  lemma {:induction false} ClearThirds(v: seq<bool>, lo: nat, hi: nat)
    requires lo <= hi <= |v|
    ensures Clear(v) == Clear(v[..lo]) + Clear(v[lo..hi]) + Clear(v[hi..])
  {
    ClearSplit(v, hi);
    ClearSplit(v[..hi], lo);
    assert v[..hi][..lo] == v[..lo] && v[..hi][lo..] == v[lo..hi];
  }

  /** A clear run is no longer than the number of clear entries. */
  lemma {:induction false} RunWithinClear(v: seq<bool>, s: nat, n: nat)
    requires FreeRun(v, s, n)
    ensures n <= Clear(v)
  {
    ClearThirds(v, s, s + n);
    ClearAll(v[s..s + n], false);
  }

  /** There is a clear entry exactly when the count of clear entries is positive. */
  lemma {:induction false} ClearPositive(v: seq<bool>)
    ensures Clear(v) > 0 <==> exists i :: 0 <= i < |v| && !v[i]
  {
    if v != [] {
      var u := v[..|v| - 1];
      ClearPositive(u);
      if Clear(v) > 0 {
        if Clear(u) > 0 {
          var i :| 0 <= i < |u| && !u[i];
          assert !v[i];
        } else {
          assert !v[|v| - 1];
        }
      } else {
        forall i | 0 <= i < |v|
          ensures v[i]
        {
          if i < |u| { assert u[i] == v[i]; }
        }
      }
    }
  }
}
