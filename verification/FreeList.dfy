/**
 Address-ordered, fully coalesced lists of memory extents: what the free list of umalloc.c means,
 without its pointers.  Addresses count header-sized units.
 */
module FreeList {

  const NULL: nat := 0
  const BASE: nat := 1   // the static header `base`, which lies below the heap

  datatype Extent = Extent(start: nat, size: nat) {
    function End(): nat {
      start + size
    }

    predicate Has(u: int) {
      start <= u < start + size
    }
  }

  predicate Apart(a: Extent, b: Extent) {
    a.End() <= b.start || b.End() <= a.start
  }

  /** Non-empty extents in address order with a gap between any two: nothing is left to coalesce. */
  ghost predicate Canonical(free: seq<Extent>) {
    && (forall i | 0 <= i < |free| :: free[i].size > 0 && free[i].start > BASE)
    && (forall i, j | 0 <= i < j < |free| :: free[i].End() < free[j].start)
  }

  ghost predicate Contains(free: seq<Extent>, u: int) {
    exists i :: 0 <= i < |free| && free[i].Has(u)
  }

  ghost predicate AllApart(free: seq<Extent>, e: Extent) {
    forall i | 0 <= i < |free| :: Apart(free[i], e)
  }

  /** How many extents start before `a`. */
  ghost function Below(free: seq<Extent>, a: nat): (k: nat)
    ensures k <= |free|
    ensures k < |free| ==> free[k].start >= a
    ensures forall i | 0 <= i < k :: free[i].start < a
  {
    if free == [] || free[0].start >= a then 0 else 1 + Below(free[1..], a)
  }

  ghost predicate JoinsNext(free: seq<Extent>, e: Extent) {
    var k := Below(free, e.start); k < |free| && e.End() == free[k].start
  }

  ghost predicate JoinsPrev(free: seq<Extent>, e: Extent) {
    var k := Below(free, e.start); k > 0 && free[k - 1].End() == e.start
  }

  /** The extent that `e` becomes part of. */
  ghost function Merged(free: seq<Extent>, e: Extent): Extent {
    var k := Below(free, e.start);
    var start := if JoinsPrev(free, e) then free[k - 1].start else e.start;
    var end := if JoinsNext(free, e) then free[k].End() else e.End();
    Extent(start, if end >= start then end - start else 0)
  }

  /** The extents that `e` swallows: the one it joins on either side. */
  ghost function Low(free: seq<Extent>, e: Extent): nat {
    if JoinsPrev(free, e) then Below(free, e.start) - 1 else Below(free, e.start)
  }

  ghost function High(free: seq<Extent>, e: Extent): (h: nat)
    ensures Low(free, e) <= h <= |free|
  {
    if JoinsNext(free, e) then Below(free, e.start) + 1 else Below(free, e.start)
  }

  ghost function Insert(free: seq<Extent>, e: Extent): seq<Extent> {
    free[..Low(free, e)] + [Merged(free, e)] + free[High(free, e)..]
  }

  /** Cut `n` units off the end of extent `k`, or remove it when they are all of it. */
  ghost function Carve(free: seq<Extent>, k: nat, n: nat): seq<Extent>
    requires k < |free| && free[k].size >= n
  {
    if free[k].size == n then free[..k] + free[k + 1..]
    else free[k := Extent(free[k].start, free[k].size - n)]
  }

  ghost function Taken(free: seq<Extent>, k: nat, n: nat): Extent
    requires k < |free| && free[k].size >= n
  {
    Extent(free[k].End() - n, n)
  }

  lemma BelowIs(free: seq<Extent>, a: nat, k: nat)
    requires Canonical(free) && k <= |free|
    requires k > 0 ==> free[k - 1].start < a
    requires k < |free| ==> a <= free[k].start
    ensures Below(free, a) == k
  {
  }

  // ----- Freeing

  lemma InsertBounds(free: seq<Extent>, e: Extent)
    requires Canonical(free) && AllApart(free, e) && e.size > 0 && e.start > BASE
    ensures var k, m := Below(free, e.start), Merged(free, e);
            && m.size > 0 && m.start > BASE && m.start <= e.start && e.End() <= m.End()
            && m.size == e.size + (if JoinsPrev(free, e) then free[k - 1].size else 0)
                                + (if JoinsNext(free, e) then free[k].size else 0)
            && (k > 0 ==> free[k - 1].End() <= e.start)
            && (k < |free| ==> e.End() <= free[k].start)
  {
    var k := Below(free, e.start);
    if k > 0 {
      assert Apart(free[k - 1], e);
    }
    if k < |free| {
      assert Apart(free[k], e);
    }
  }

  lemma ContainsConcat(a: seq<Extent>, b: seq<Extent>, u: int)
    ensures Contains(a + b, u) <==> Contains(a, u) || Contains(b, u)
  {
    if i :| 0 <= i < |a| && a[i].Has(u) {
      assert (a + b)[i].Has(u);
    }
    if i :| 0 <= i < |b| && b[i].Has(u) {
      assert (a + b)[|a| + i].Has(u);
    }
  }

  lemma ContainsOne(e: Extent, u: int)
    ensures Contains([e], u) <==> e.Has(u)
  {
    assert [e][0] == e;
  }

  lemma ConcatCanonical(a: seq<Extent>, b: seq<Extent>)
    requires Canonical(a) && Canonical(b)
    requires a != [] && b != [] ==> a[|a| - 1].End() < b[0].start
    ensures Canonical(a + b)
  {
    var r := a + b;
    forall i, j | 0 <= i < j < |r| ensures r[i].End() < r[j].start {
      if i < |a| <= j {
        assert a[i].End() <= a[|a| - 1].End() && b[0].start <= b[j - |a|].start;
      }
    }
  }

  lemma SpliceCanonical(free: seq<Extent>, lo: nat, hi: nat, m: Extent)
    requires Canonical(free) && lo <= hi <= |free| && m.size > 0 && m.start > BASE
    requires lo > 0 ==> free[lo - 1].End() < m.start
    requires hi < |free| ==> m.End() < free[hi].start
    ensures Canonical(free[..lo] + [m] + free[hi..])
  {
    ConcatCanonical(free[..lo], [m]);
    ConcatCanonical(free[..lo] + [m], free[hi..]);
  }

  lemma InsertCanonical(free: seq<Extent>, e: Extent)
    requires Canonical(free) && AllApart(free, e) && e.size > 0 && e.start > BASE
    ensures Canonical(Insert(free, e))
  {
    InsertBounds(free, e);
    SpliceCanonical(free, Low(free, e), High(free, e), Merged(free, e));
  }

  lemma Swallowed(free: seq<Extent>, e: Extent)
    ensures var k := Below(free, e.start);
            free[Low(free, e)..High(free, e)] ==
            (if JoinsPrev(free, e) then [free[k - 1]] else []) + (if JoinsNext(free, e) then [free[k]] else [])
  {
    var k := Below(free, e.start);
    if JoinsPrev(free, e) && JoinsNext(free, e) {
      assert free[k - 1..k + 1] == [free[k - 1]] + [free[k]];
    } else if JoinsPrev(free, e) {
      assert free[k - 1..k] == [free[k - 1]] + [];
    } else if JoinsNext(free, e) {
      assert free[k..k + 1] == [] + [free[k]];
    }
  }

  lemma MergedHas(free: seq<Extent>, e: Extent, u: int)
    requires Canonical(free) && AllApart(free, e) && e.size > 0 && e.start > BASE
    ensures Merged(free, e).Has(u) <==> e.Has(u) || Contains(free[Low(free, e)..High(free, e)], u)
  {
    var k := Below(free, e.start);
    InsertBounds(free, e);
    var before := if JoinsPrev(free, e) then [free[k - 1]] else [];
    var after := if JoinsNext(free, e) then [free[k]] else [];
    Swallowed(free, e);
    ContainsConcat(before, after, u);
    if k > 0 {
      ContainsOne(free[k - 1], u);
    }
    if k < |free| {
      ContainsOne(free[k], u);
    }
  }

  lemma InsertContains(free: seq<Extent>, e: Extent, u: int)
    requires Canonical(free) && AllApart(free, e) && e.size > 0 && e.start > BASE
    ensures Contains(Insert(free, e), u) <==> Contains(free, u) || e.Has(u)
  {
    hide Merged, Low, High;
    var lo, hi, m := Low(free, e), High(free, e), Merged(free, e);
    MergedHas(free, e, u);
    ContainsOne(m, u);
    ContainsConcat(free[..lo], [m], u);
    ContainsConcat(free[..lo] + [m], free[hi..], u);
    assert free == free[..lo] + free[lo..hi] + free[hi..];
    ContainsConcat(free[..lo] + free[lo..hi], free[hi..], u);
    ContainsConcat(free[..lo], free[lo..hi], u);
  }

  // ----- Allocating

  lemma CarveCanonical(free: seq<Extent>, k: nat, n: nat)
    requires Canonical(free) && k < |free| && free[k].size >= n
    ensures Canonical(Carve(free, k, n))
  {
  }

  lemma CarveContains(free: seq<Extent>, k: nat, n: nat, u: int)
    requires Canonical(free) && k < |free| && free[k].size >= n
    ensures Contains(Carve(free, k, n), u) <==> Contains(free, u) && !Taken(free, k, n).Has(u)
  {
    var r := Carve(free, k, n);
    if i :| 0 <= i < |r| && r[i].Has(u) {
      var j := if free[k].size == n && i >= k then i + 1 else i;
      assert free[j].Has(u);
    }
    if i :| 0 <= i < |free| && free[i].Has(u) {
      if !Taken(free, k, n).Has(u) {
        var j := if free[k].size == n && i > k then i - 1 else i;
        assert r[j].Has(u);
      }
    }
  }

  // ----- The list is determined by the units it holds

  lemma FirstExtent(a: seq<Extent>, b: seq<Extent>)
    requires Canonical(a) && Canonical(b) && a != [] && b != []
    requires forall u :: Contains(a, u) <==> Contains(b, u)
    ensures a[0] == b[0]
  {
    FirstStart(a, b);
    FirstStart(b, a);
    FirstEnd(a, b);
    FirstEnd(b, a);
  }

  lemma FirstStart(a: seq<Extent>, b: seq<Extent>)
    requires Canonical(a) && Canonical(b) && a != [] && b != []
    requires forall u :: Contains(a, u) <==> Contains(b, u)
    ensures b[0].start <= a[0].start
  {
    assert a[0].Has(a[0].start);
    assert Contains(a, a[0].start);
    var i :| 0 <= i < |b| && b[i].Has(a[0].start);
  }

  lemma FirstEnd(a: seq<Extent>, b: seq<Extent>)
    requires Canonical(a) && Canonical(b) && a != [] && b != [] && a[0].start == b[0].start
    requires forall u :: Contains(a, u) <==> Contains(b, u)
    ensures a[0].size <= b[0].size
  {
    if a[0].size > b[0].size {
      var u := b[0].End();
      assert a[0].Has(u);
      assert Contains(a, u);
      assert false;
    }
  }

  lemma TailContains(a: seq<Extent>, u: int)
    requires Canonical(a) && a != []
    ensures Contains(a[1..], u) <==> Contains(a, u) && !a[0].Has(u)
  {
    if i :| 0 <= i < |a[1..]| && a[1..][i].Has(u) {
      assert a[i + 1].Has(u);
    }
    if i :| 0 <= i < |a| && a[i].Has(u) {
      if !a[0].Has(u) {
        assert a[1..][i - 1].Has(u);
      }
    }
  }

  lemma HoldsFirst(a: seq<Extent>)
    requires Canonical(a)
    ensures a != [] ==> Contains(a, a[0].start)
  {
    assert a != [] ==> a[0].Has(a[0].start);
  }

  /** There is only one ordered, fully coalesced list for a given set of free units. */
  lemma {:induction false} CanonicalIsUnique(a: seq<Extent>, b: seq<Extent>)
    requires Canonical(a) && Canonical(b)
    requires forall u :: Contains(a, u) <==> Contains(b, u)
    ensures a == b
    decreases |a|
  {
    HoldsFirst(a);
    HoldsFirst(b);
    if a != [] && b != [] {
      FirstExtent(a, b);
      forall u ensures Contains(a[1..], u) <==> Contains(b[1..], u) {
        TailContains(a, u);
        TailContains(b, u);
      }
      CanonicalIsUnique(a[1..], b[1..]);
      assert a == [a[0]] + a[1..] && b == [b[0]] + b[1..];
    }
  }
}
