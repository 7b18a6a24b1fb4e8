/**
 Memory mappings as values: when regions clash, where the first free place is, and which pages
 and frames a table of mappings may have resident.
 */
module WmapTable {
  import opened Params

  const WBASE := 0x6000_0000      // first address of the mapping window

  datatype Mapping = Mapping(addr: nat, length: nat, flags: bv32, fd: int, loaded: int) {
    function End(): nat {
      addr + length
    }

    /** First page boundary at or after the end. */
    function PageEnd(): nat {
      RoundUp(addr + length)
    }
  }

  function RoundUp(a: nat): (r: nat)
    ensures a <= r < a + PGSIZE && r % PGSIZE == 0
  {
    (a + PGSIZE - 1) / PGSIZE * PGSIZE
  }

  function RoundDown(a: nat): (r: nat)
    ensures r <= a < r + PGSIZE && r % PGSIZE == 0
  {
    a / PGSIZE * PGSIZE
  }

  /** Aligned addresses are whole pages apart. */
  lemma AlignedGap(a: nat, b: nat)
    requires a % PGSIZE == 0 && b % PGSIZE == 0 && a < b
    ensures a + PGSIZE <= b
  {
  }

  lemma SamePage(a: nat, p: nat)
    requires a % PGSIZE == 0 && p % PGSIZE == 0 && a <= p < a + PGSIZE
    ensures p == a
  {
  }

  // ----- Overlap

  /** The four tests that wmap makes, for a request of `len` bytes at `a` and a mapping from `s` to `e`. */
  predicate Clash(a: nat, len: nat, s: nat, e: nat)
    requires len > 0
  {
    var last := a + len - 1;
    || (a >= s && a < e)
    || (last >= s && last < e)
    || (s >= a && s < last)
    || (e >= a && e < last)
  }

  predicate Overlap(a: nat, len: nat, s: nat, e: nat) {
    a < e && s < a + len
  }

  /** The tests report every overlap, and besides only a mapping that ends exactly where the request starts. */
  lemma ClashIff(a: nat, len: nat, s: nat, e: nat)
    requires len > 0 && s < e
    ensures Clash(a, len, s, e) <==> Overlap(a, len, s, e) || (e == a && len >= 2)
  {
  }

  predicate Fits(ms: seq<Mapping>, a: nat, len: nat) {
    forall i | 0 <= i < |ms| :: !Overlap(a, len, ms[i].addr, ms[i].End())
  }

  // ----- Tables

  predicate MappingOk(m: Mapping) {
    WBASE <= m.addr && m.addr % PGSIZE == 0 && m.length > 0 && m.End() <= KERNBASE
  }

  /** No page belongs to both. */
  predicate PageApart(m: Mapping, k: Mapping) {
    m.PageEnd() <= k.addr || k.PageEnd() <= m.addr
  }

  ghost predicate Separate(ms: seq<Mapping>) {
    && (forall i | 0 <= i < |ms| :: MappingOk(ms[i]))
    && (forall i, j | 0 <= i < j < |ms| :: PageApart(ms[i], ms[j]))
  }

  ghost predicate Sorted(ms: seq<Mapping>) {
    forall i, j | 0 <= i < j < |ms| :: ms[i].addr < ms[j].addr
  }

  lemma SortedApart(ms: seq<Mapping>, i: nat, j: nat)
    requires Separate(ms) && Sorted(ms) && i < j < |ms|
    ensures ms[i].PageEnd() <= ms[j].addr
  {
    assert PageApart(ms[i], ms[j]);
  }

  /** A page-aligned region that overlaps no mapping shares no page with one either. */
  lemma FitsIsApart(ms: seq<Mapping>, m: Mapping)
    requires Separate(ms) && m.addr % PGSIZE == 0 && m.length > 0 && Fits(ms, m.addr, m.length)
    ensures forall i | 0 <= i < |ms| :: PageApart(ms[i], m)
  {
    forall i | 0 <= i < |ms| ensures PageApart(ms[i], m) {
      assert MappingOk(ms[i]) && !Overlap(m.addr, m.length, ms[i].addr, ms[i].End());
      if ms[i].End() <= m.addr {
        RoundUpLeast(ms[i].End(), m.addr);
      } else {
        RoundUpLeast(m.End(), ms[i].addr);
      }
    }
  }

  lemma RoundUpLeast(a: nat, b: nat)
    requires a <= b && b % PGSIZE == 0
    ensures RoundUp(a) <= b
  {
    if RoundUp(a) > b {
      AlignedGap(b, RoundUp(a));
    }
  }

  lemma PageEndInWindow(m: Mapping)
    requires MappingOk(m)
    ensures m.PageEnd() <= KERNBASE
  {
    RoundUpLeast(m.End(), KERNBASE);
  }

  // ----- Reordering a table

  ghost predicate NoDup(ms: seq<Mapping>) {
    forall i, j | 0 <= i < j < |ms| :: ms[i] != ms[j]
  }

  lemma SeparateNoDup(ms: seq<Mapping>)
    requires Separate(ms)
    ensures NoDup(ms)
  {
    forall i, j | 0 <= i < j < |ms| ensures ms[i] != ms[j] {
      assert PageApart(ms[i], ms[j]) && MappingOk(ms[i]);
    }
  }

  lemma {:induction false} NoDupOnce(ms: seq<Mapping>, m: Mapping)
    requires NoDup(ms)
    ensures multiset(ms)[m] <= 1
  {
    if ms != [] {
      var n := |ms| - 1;
      assert ms == ms[..n] + [ms[n]];
      NoDupOnce(ms[..n], m);
      if ms[n] == m {
        assert m !in ms[..n];
      }
    }
  }

  lemma TwiceCounts(ms: seq<Mapping>, i: nat, j: nat)
    requires i < j < |ms| && ms[i] == ms[j]
    ensures multiset(ms)[ms[i]] >= 2
  {
    assert ms == ms[..j] + ms[j..];
    assert ms[i] in ms[..j];
    assert ms[j..][0] == ms[j];
    assert ms[j] in ms[j..];
  }

  /** A reordering of a table without shared pages has no shared pages. */
  lemma SeparateReordered(a: seq<Mapping>, b: seq<Mapping>)
    requires Separate(a) && multiset(a) == multiset(b)
    ensures Separate(b)
  {
    SeparateNoDup(a);
    forall i | 0 <= i < |b| ensures MappingOk(b[i]) {
      assert b[i] in multiset(a);
    }
    forall i, j | 0 <= i < j < |b| ensures PageApart(b[i], b[j]) {
      if b[i] == b[j] {
        TwiceCounts(b, i, j);
        NoDupOnce(a, b[i]);
        assert false;
      }
      assert b[i] in multiset(a) && b[j] in multiset(a);
      var p :| 0 <= p < |a| && a[p] == b[i];
      var q :| 0 <= q < |a| && a[q] == b[j];
      if p < q {
        assert PageApart(a[p], a[q]);
      } else {
        assert PageApart(a[q], a[p]);
      }
    }
  }

  lemma SortedStrictly(ms: seq<Mapping>)
    requires Separate(ms) && forall i, j | 0 <= i < j < |ms| :: ms[i].addr <= ms[j].addr
    ensures Sorted(ms)
  {
    forall i, j | 0 <= i < j < |ms| ensures ms[i].addr < ms[j].addr {
      assert PageApart(ms[i], ms[j]) && MappingOk(ms[i]) && MappingOk(ms[j]);
    }
  }

  // ----- Resident pages and frames

  predicate Holds(m: Mapping, p: nat) {
    m.addr <= p < m.PageEnd()
  }

  ghost predicate Covered(ms: seq<Mapping>, p: nat) {
    exists i :: 0 <= i < |ms| && Holds(ms[i], p)
  }

  /** Every resident page of the window lies in a mapping. */
  ghost predicate ResidentOk(ms: seq<Mapping>, pages: map<nat, nat>) {
    forall p | p in pages :: p % PGSIZE == 0 && (WBASE <= p < KERNBASE ==> Covered(ms, p))
  }

  lemma ExactlyOne(ms: seq<Mapping>, p: nat, i: nat, j: nat)
    requires Separate(ms) && i < |ms| && j < |ms| && Holds(ms[i], p) && Holds(ms[j], p)
    ensures i == j
  {
    assert i < j ==> PageApart(ms[i], ms[j]);
    assert j < i ==> PageApart(ms[j], ms[i]);
  }

  lemma CoveredReordered(a: seq<Mapping>, b: seq<Mapping>, p: nat)
    requires multiset(a) == multiset(b) && Covered(a, p)
    ensures Covered(b, p)
  {
    var i :| 0 <= i < |a| && Holds(a[i], p);
    assert a[i] in multiset(b);
    var j :| 0 <= j < |b| && b[j] == a[i];
  }

  /** Frames are never shared: not by two pages, not by a page and the free list, and not twice on the list. */
  ghost predicate FramesOk(pages: map<nat, nat>, free: seq<nat>) {
    && (forall p, q | p in pages && q in pages && p != q :: pages[p] != pages[q])
    && (forall i, j | 0 <= i < j < |free| :: free[i] != free[j])
    && (forall p | p in pages :: pages[p] !in free)
  }
}
