/**
 The mapping system calls of one process: wmap, wunmap, wremap and the page-fault handler, over
 the table of mappings, the resident pages (page address to frame) and the free frames.

 The table has one slot more than the source's MAX_WMMAP_INFO, because removing an entry copies
 from one slot past the live ones.
 */
module WmapCode {
  import opened Params
  import opened WmapTable

  const MAX_WMMAP_INFO := 16
  const FAILED: nat := U32 - 1
  const MAP_PRIVATE: bv32 := 0x1
  const MAP_SHARED: bv32 := 0x2
  const MAP_ANONYMOUS: bv32 := 0x4
  const MAP_FIXED: bv32 := 0x8

  /** 32-bit addition. */
  function Add32(a: nat, b: nat): (r: nat)
    ensures a + b < U32 ==> r == a + b
  {
    (a + b) % U32
  }

  predicate Has(flags: bv32, bit: bv32) {
    flags & bit != 0
  }

  /** Arguments that wmap accepts at all. */
  predicate ArgsOk(n: nat, length: int, flags: bv32) {
    n < MAX_WMMAP_INFO && length > 0 && !(Has(flags, MAP_PRIVATE) && Has(flags, MAP_SHARED))
  }

  /** Any positive length passes while there is a free entry, unless the mapping is to be both private and shared. */
  lemma ArgsAccepted(n: nat, length: int, flags: bv32)
    requires n < 16 && length > 0 && (flags % 2 == 0 || flags / 2 % 2 == 0)
    ensures ArgsOk(n, length, flags)
  {
  }

  /** In an empty table such a request fits at the start of the window, whatever its length. */
  lemma FirstRequest(length: nat, flags: bv32)
    requires 0 < length <= KERNBASE - WBASE && (flags % 2 == 0 || flags / 2 % 2 == 0)
    ensures ArgsOk(0, length, flags) && Least([], WBASE, length) && WBASE + length <= KERNBASE
    ensures FixedOk([], WBASE, length)
  {
    ArgsAccepted(0, length, flags);
  }

  /** `a` is the lowest page-aligned address of the window where `len` bytes overlap no mapping. */
  ghost predicate Least(ms: seq<Mapping>, a: nat, len: nat) {
    && a % PGSIZE == 0 && WBASE <= a && Fits(ms, a, len)
    && forall b: nat | b % PGSIZE == 0 && WBASE <= b < a :: !Fits(ms, b, len)
  }

  /** Where a fixed request is granted. */
  ghost predicate FixedOk(ms: seq<Mapping>, a: nat, len: nat) {
    && WBASE <= a < KERNBASE && a % PGSIZE == 0 && Fits(ms, a, len)
    && (len >= 2 ==> forall i | 0 <= i < |ms| :: ms[i].End() != a)
  }

  /** A fixed request that starts where a mapping ends overlaps nothing, and is refused. */
  lemma AdjacentRefused()
    ensures var ms := [Mapping(WBASE, PGSIZE, 0, 0, 0)];
            && Separate(ms) && Sorted(ms) && Fits(ms, WBASE + PGSIZE, PGSIZE)
            && !FixedOk(ms, WBASE + PGSIZE, PGSIZE)
  {
    var ms := [Mapping(WBASE, PGSIZE, 0, 0, 0)];
    assert ms[0].End() == WBASE + PGSIZE;
  }

  /** A fixed request of two pages that starts one page below KERNBASE is granted. */
  lemma PastKernbaseGranted()
    ensures FixedOk([], KERNBASE - PGSIZE, 2 * PGSIZE) && !MappingOk(Mapping(KERNBASE - PGSIZE, 2 * PGSIZE, 0, 0, 0))
  {
  }

  // ----- First fit over a sorted table

  /** After the first `i` mappings: nothing below `a` fits beside them, `a` does, and the rest lies above. */
  ghost predicate Scanned(ms: seq<Mapping>, a: nat, len: nat, i: nat) {
    && i <= |ms| && a % PGSIZE == 0 && WBASE <= a <= KERNBASE
    && Fits(ms[..i], a, len)
    && (forall b: nat | b % PGSIZE == 0 && WBASE <= b < a :: !Fits(ms[..i], b, len))
    && (forall j | i <= j < |ms| :: a <= ms[j].addr)
  }

  lemma ScanStart(ms: seq<Mapping>, len: nat)
    requires Separate(ms)
    ensures Scanned(ms, WBASE, len, 0)
  {
    forall j | 0 <= j < |ms| ensures WBASE <= ms[j].addr {
      assert MappingOk(ms[j]);
    }
  }

  lemma FitsSnoc(ms: seq<Mapping>, i: nat, a: nat, len: nat)
    requires i < |ms|
    ensures Fits(ms[..i + 1], a, len) <==> Fits(ms[..i], a, len) && !Overlap(a, len, ms[i].addr, ms[i].End())
  {
    assert ms[..i + 1] == ms[..i] + [ms[i]];
  }

  lemma ScanStep(ms: seq<Mapping>, a: nat, len: nat, i: nat)
    requires Separate(ms) && Sorted(ms) && Scanned(ms, a, len, i) && i < |ms| && len > 0
    ensures var m := ms[i];
            if Clash(a, len, m.addr, m.End()) then Scanned(ms, m.PageEnd(), len, i + 1)
            else Scanned(ms, a, len, i + 1)
  {
    var m := ms[i];
    assert MappingOk(m);
    ClashIff(a, len, m.addr, m.End());
    PageEndInWindow(m);
    FitsSnoc(ms, i, a, len);
    if Clash(a, len, m.addr, m.End()) {
      ScanMoves(ms, a, len, i);
    } else {
      forall b: nat | b % PGSIZE == 0 && WBASE <= b < a ensures !Fits(ms[..i + 1], b, len) {
        FitsSnoc(ms, i, b, len);
      }
    }
  }

  /** The candidate moves behind mapping `i`: every aligned address skipped would overlap it or an earlier one. */
  lemma ScanMoves(ms: seq<Mapping>, a: nat, len: nat, i: nat)
    requires Separate(ms) && Sorted(ms) && Scanned(ms, a, len, i) && i < |ms| && len > 0
    requires Overlap(a, len, ms[i].addr, ms[i].End())
    ensures Scanned(ms, ms[i].PageEnd(), len, i + 1)
  {
    var m := ms[i];
    var c := m.PageEnd();
    assert MappingOk(m);
    PageEndInWindow(m);
    var pre := ms[..i + 1];
    forall j | 0 <= j < |pre| ensures !Overlap(c, len, pre[j].addr, pre[j].End()) {
      if j < i {
        SortedApart(ms, j, i);
      }
    }
    forall b: nat | b % PGSIZE == 0 && WBASE <= b < c ensures !Fits(ms[..i + 1], b, len) {
      FitsSnoc(ms, i, b, len);
      AlignedGap(b, c);
    }
    forall j | i + 1 <= j < |ms| ensures c <= ms[j].addr {
      SortedApart(ms, i, j);
    }
  }

  // ----- In-place operations on the table

  /** Order the first `n` entries by address. */
  method SelectionSort(arr: array<Mapping>, n: nat)
    requires n <= arr.Length
    modifies arr
    ensures forall i, j | 0 <= i < j < n :: arr[i].addr <= arr[j].addr
    ensures multiset(arr[..n]) == multiset(old(arr[..n]))
    ensures arr[n..] == old(arr[n..])
  {
    var i := 0;
    while i < n - 1
      invariant 0 <= i <= n && (n > 0 ==> i <= n - 1)
      invariant forall p, q | 0 <= p < q < n && p < i :: arr[p].addr <= arr[q].addr
      invariant multiset(arr[..n]) == multiset(old(arr[..n]))
      invariant arr[n..] == old(arr[n..])
    {
      var minIndex := LowestFrom(arr, i, n);
      ghost var before := arr[..n];
      arr[i], arr[minIndex] := arr[minIndex], arr[i];
      SwapKeeps(before, i, minIndex);
      assert arr[..n] == before[i := before[minIndex]][minIndex := before[i]];
      i := i + 1;
    }
  }

  /** The first of the lowest entries from `i` on. */
  method LowestFrom(arr: array<Mapping>, i: nat, n: nat) returns (minIndex: nat)
    requires i < n <= arr.Length
    ensures i <= minIndex < n
    ensures forall q | i <= q < n :: arr[minIndex].addr <= arr[q].addr
    ensures forall q | i <= q < minIndex :: arr[minIndex].addr < arr[q].addr
  {
    minIndex := i;
    for j := i + 1 to n
      invariant i <= minIndex < j
      invariant forall q | i <= q < j :: arr[minIndex].addr <= arr[q].addr
      invariant forall q | i <= q < minIndex :: arr[minIndex].addr < arr[q].addr
    {
      if arr[j].addr < arr[minIndex].addr {
        minIndex := j;
      }
    }
  }

  lemma SwapKeeps<T>(s: seq<T>, i: nat, j: nat)
    requires i <= j < |s|
    ensures multiset(s[i := s[j]][j := s[i]]) == multiset(s)
  {
  }

  lemma AppendCovers(a: seq<Mapping>, m: Mapping, b: seq<Mapping>, pages: map<nat, nat>)
    requires ResidentOk(a, pages) && multiset(b) == multiset(a + [m])
    ensures ResidentOk(b, pages)
  {
    forall p | p in pages && WBASE <= p < KERNBASE ensures Covered(b, p) {
      var i :| 0 <= i < |a| && Holds(a[i], p);
      assert Holds((a + [m])[i], p);
      CoveredReordered(a + [m], b, p);
    }
  }

  lemma SeparateAppend(a: seq<Mapping>, m: Mapping)
    requires Separate(a) && MappingOk(m) && Fits(a, m.addr, m.length)
    ensures Separate(a + [m])
  {
    FitsIsApart(a, m);
  }

  class Process {
    var mappings: array<Mapping>
    var n: nat                     // num_mappings
    var pages: map<nat, nat>       // resident pages and the numbers of their frames
    var free: seq<nat>             // free frames

    ghost function Table(): seq<Mapping>
      requires n <= mappings.Length
      reads this, mappings
    {
      mappings[..n]
    }

    /** Everything but the order of the table. */
    ghost predicate Loose()
      reads this, mappings
    {
      && mappings.Length == MAX_WMMAP_INFO + 1 && n <= MAX_WMMAP_INFO
      && Separate(Table()) && ResidentOk(Table(), pages) && FramesOk(pages, free)
    }

    ghost predicate Valid()
      reads this, mappings
    {
      Loose() && Sorted(Table())
    }

    constructor (free: seq<nat>)
      requires forall i, j | 0 <= i < j < |free| :: free[i] != free[j]
      ensures Valid() && Table() == [] && pages == map[] && this.free == free && fresh(mappings)
    {
      mappings := new Mapping[MAX_WMMAP_INFO + 1](i => Mapping(0, 0, 0, 0, 0));
      n, pages, this.free := 0, map[], free;
    }

    /** One pass over the sorted table. */
    method FirstFit(len: nat) returns (a: nat)
      requires Valid() && 0 < len < U32 / 2
      ensures Least(Table(), a, len) && a <= KERNBASE
    {
      a := WBASE;
      ScanStart(Table(), len);
      for i := 0 to n
        invariant Scanned(Table(), a, len, i)
      {
        var m := mappings[i];
        assert m == Table()[i] && MappingOk(m);
        var end := Add32(m.addr, m.length);
        ScanStep(Table(), a, len, i);
        if Clash(a, len, m.addr, end) {
          a := RoundUp(end);
        }
      }
      assert Table()[..n] == Table();
    }

    /** Add a mapping and return its address, or FAILED. */
    method Wmap(addr: nat, length: int, flags: bv32, fd: int) returns (r: nat)
      requires Valid() && addr < U32 && -(U32 / 2) <= length < U32 / 2
      modifies this`n, mappings
      ensures r == FAILED ==> Valid() && Table() == old(Table())
      ensures !ArgsOk(old(n), length, flags) ==> r == FAILED
      // a fixed request is granted exactly at its own address
      ensures ArgsOk(old(n), length, flags) && Has(flags, MAP_FIXED) ==>
        r == if FixedOk(old(Table()), addr, length) then addr else FAILED
      // any other request gets the lowest place that fits below KERNBASE
      ensures ArgsOk(old(n), length, flags) && !Has(flags, MAP_FIXED) ==>
        if r == FAILED then forall a: nat | a % PGSIZE == 0 && WBASE <= a && a + length <= KERNBASE :: !Fits(old(Table()), a, length)
        else Least(old(Table()), r, length) && r + length <= KERNBASE
      ensures r != FAILED ==>
        && n == old(n) + 1 <= mappings.Length
        && multiset(Table()) == multiset(old(Table()) + [Mapping(r, length, flags, fd, 0)])
        && (Valid() <==> r + length <= KERNBASE)
    {
      if n >= MAX_WMMAP_INFO || length <= 0 || (Has(flags, MAP_PRIVATE) && Has(flags, MAP_SHARED)) {
        return FAILED;
      }
      var a := WBASE;
      ghost var ms := Table();
      if Has(flags, MAP_FIXED) {
        if addr < WBASE || addr >= KERNBASE || addr % PGSIZE != 0 {
          return FAILED;
        }
        var ok := FixedFits(addr, length);
        if !ok {
          return FAILED;
        }
        a := addr;
      } else {
        a := FirstFit(length);
        if Add32(a, length) - 1 >= KERNBASE {
          NothingFits(ms, a, length);
          return FAILED;
        }
      }
      Add(Mapping(a, length, flags, fd, 0));
      return a;
    }

    method FixedFits(addr: nat, length: nat) returns (ok: bool)
      requires Valid() && WBASE <= addr < KERNBASE && 0 < length < U32 / 2
      ensures ok <==> Fits(Table(), addr, length) && (length >= 2 ==> forall i | 0 <= i < n :: Table()[i].End() != addr)
    {
      for i := 0 to n
        invariant forall j | 0 <= j < i :: !Clash(addr, length, Table()[j].addr, Table()[j].End())
      {
        var m := mappings[i];
        assert m == Table()[i] && MappingOk(m);
        if Clash(addr, length, m.addr, Add32(m.addr, m.length)) {
          ClashIff(addr, length, m.addr, m.End());
          return false;
        }
      }
      forall j | 0 <= j < n
        ensures !Overlap(addr, length, Table()[j].addr, Table()[j].End()) && (length >= 2 ==> Table()[j].End() != addr)
      {
        assert MappingOk(Table()[j]);
        ClashIff(addr, length, Table()[j].addr, Table()[j].End());
      }
      return true;
    }

    /** Append an entry and sort. */
    method Add(m: Mapping)
      requires Valid() && n < MAX_WMMAP_INFO && WBASE <= m.addr && m.addr % PGSIZE == 0 && m.length > 0
      requires Fits(Table(), m.addr, m.length)
      modifies this`n, mappings
      ensures n == old(n) + 1 <= mappings.Length
      ensures multiset(Table()) == multiset(old(Table()) + [m])
      ensures Valid() <==> m.End() <= KERNBASE
    {
      hide Separate, ResidentOk, FramesOk, Sorted, Fits;
      ghost var ms := Table();
      mappings[n] := m;
      n := n + 1;
      assert mappings[..n] == ms + [m];
      SelectionSort(mappings, n);
      Added(ms, m, Table(), pages);
    }

    /** Free the frames of the resident pages from `start` to `end`. */
    method ClearRange(start: nat, end: nat)
      requires start <= end && start % PGSIZE == 0 && end % PGSIZE == 0 && Aligned(pages) && FramesOk(pages, free)
      modifies this`pages, this`free
      ensures pages == Cut(old(pages), start, end) && FramesOk(pages, free)
      ensures Frames(free) == Frames(old(free)) + Within(old(pages), start, end)
    {
      ghost var was := pages;
      CutNothing(was, start);
      var a := start;
      while a < end
        invariant a % PGSIZE == 0 && start <= a <= end
        invariant pages == Cut(was, start, a) && FramesOk(pages, free)
        invariant Frames(free) == Frames(old(free)) + Within(was, start, a)
      {
        AlignedGap(a, end);
        CutStep(was, start, a);
        ClearPage(a);
        a := a + PGSIZE;
      }
    }

    /** Clear one page-table entry, freeing its frame if it is present. */
    method ClearPage(a: nat)
      requires FramesOk(pages, free)
      modifies this`pages, this`free
      ensures pages == old(pages) - {a} && FramesOk(pages, free)
      ensures Frames(free) == Frames(old(free)) + if a in old(pages) then {old(pages)[a]} else {}
    {
      if a in pages {
        free := [pages[a]] + free;
      }
      pages := pages - {a};
    }

    method Find(addr: nat) returns (i: nat)
      requires n <= mappings.Length
      ensures i <= n && (i < n ==> Table()[i].addr == addr)
      ensures i == n ==> NoneAt(Table(), addr)
    {
      i := 0;
      while i < n
        invariant i <= n && forall j | 0 <= j < i :: Table()[j].addr != addr
      {
        if mappings[i].addr == addr {
          return;
        }
        i := i + 1;
      }
    }

    /** Copy each later entry one slot down. */
    method Shift(i: nat)
      requires i < n < mappings.Length
      modifies this`n, mappings
      ensures n == old(n) - 1 && Table() == Without(old(Table()), i)
    {
      ghost var ms := Table();
      for j := i to n
        modifies mappings
        invariant forall k | 0 <= k < i :: mappings[k] == old(mappings[k])
        invariant forall k | i <= k < j :: mappings[k] == old(mappings[k + 1])
        invariant forall k | j <= k < mappings.Length :: mappings[k] == old(mappings[k])
      {
        mappings[j] := mappings[j + 1];
      }
      n := n - 1;
      assert forall k | 0 <= k < n :: mappings[k] == Without(ms, i)[k];
    }

    /** Remove the mapping that starts at `addr`.  `written` is the outcome of writing a shared file back. */
    method Wunmap(addr: nat, written: bool) returns (r: nat)
      requires mappings.Length == MAX_WMMAP_INFO + 1 && n <= MAX_WMMAP_INFO && addr < U32
      requires Loose() || forall i | 0 <= i < n :: Table()[i].addr != addr
      modifies this`n, this`pages, this`free, mappings
      ensures mappings.Length == old(mappings.Length) && n <= MAX_WMMAP_INFO
      ensures (old(Loose()) ==> Loose()) && (old(Sorted(Table())) ==> Sorted(Table()))
      ensures r == FAILED <==> Refused(old(Table()), addr, written)
      ensures r == FAILED ==> Table() == old(Table()) && pages == old(pages) && free == old(free)
      ensures r != FAILED ==> exists i :: Unmapped(old(Table()), Table(), i, addr, old(pages), pages, old(free), free)
    {
      hide Separate, ResidentOk, FramesOk, Sorted, Cut, Within, Frames, Without, Aligned;
      if addr % PGSIZE != 0 {
        return FAILED;
      }
      var i := Find(addr);
      if i == n {
        return FAILED;
      }
      var m := mappings[i];
      ghost var ms := Table();
      Entry(ms, i, pages);
      if Has(m.flags, MAP_SHARED) && !Has(m.flags, MAP_ANONYMOUS) {
        if !written {
          return FAILED;
        }
      }
      ClearRange(m.addr, RoundUp(Add32(m.addr, m.length)));
      Shift(i);
      Removed(ms, i, old(pages));
      assert Unmapped(ms, Table(), i, addr, old(pages), pages, old(free), free);
      return 0;
    }

    /** Shrink entry `i` and clear pages from its end down, one for each step of PGSIZE above the new size. */
    method Shrink(i: nat, newsize: nat)
      requires Valid() && i < n && 0 < newsize < Table()[i].length
      modifies this`pages, this`free, mappings
      ensures n == old(n) && mappings.Length == old(mappings.Length) && Table() == Resize(old(Table()), i, newsize)
      ensures var m := old(Table())[i];
              var lo, hi := CutFrom(m, newsize), m.addr + RoundDown(m.length);
              && pages == Cut(old(pages), lo, hi)
              && Frames(free) == Frames(old(free)) + Within(old(pages), lo, hi)
      ensures Valid() <==> NoneLeft(old(Table())[i], newsize, old(pages))
    {
      hide Separate, ResidentOk, FramesOk, Sorted, Cut, Within, Frames, NoneLeft, RoundDown, RoundUp;
      ghost var ms, was := Table(), pages;
      var m := mappings[i];
      Entry(ms, i, pages);
      mappings[i] := m.(length := newsize);
      ClearDown(m, newsize);
      Shrunk(ms, i, newsize, was);
      assert Table() == Resize(ms, i, newsize);
    }

    method ClearDown(m: Mapping, newsize: nat)
      requires MappingOk(m) && newsize < m.length && Aligned(pages) && FramesOk(pages, free)
      modifies this`pages, this`free
      ensures var lo, hi := CutFrom(m, newsize), m.addr + RoundDown(m.length);
              && pages == Cut(old(pages), lo, hi) && FramesOk(pages, free)
              && Frames(free) == Frames(old(free)) + Within(old(pages), lo, hi)
    {
      hide FramesOk, Cut, Within, Frames, Aligned, RoundDown, RoundUp;
      ghost var was, hi := pages, m.addr + RoundDown(m.length);
      var temp := m.length as int;
      AlignedSum(m.addr, m.length);
      CutNothing(was, hi);
      while temp > newsize
        invariant (m.length - temp) % PGSIZE == 0 && newsize - PGSIZE < temp <= m.length
        invariant RoundDown(m.addr + temp) <= hi
        invariant pages == Cut(was, RoundDown(m.addr + temp), hi) && FramesOk(pages, free)
        invariant Frames(free) == Frames(old(free)) + Within(was, RoundDown(m.addr + temp), hi)
      {
        PageBefore(m.addr + temp);
        CutDown(was, RoundDown(m.addr + temp), hi);
        ClearPage(RoundDown(m.addr + temp - PGSIZE));
        temp := temp - PGSIZE;
      }
      StopsAt(m.length, newsize, temp);
    }

    /** Grow entry `i` where it is. */
    method Stay(i: nat, newsize: nat)
      requires Valid() && i < n && newsize > Table()[i].length && Table()[i].addr + newsize <= KERNBASE
      requires i + 1 < n ==> Table()[i].addr + newsize <= Table()[i + 1].addr
      modifies mappings
      ensures Valid() && Table() == Resize(old(Table()), i, newsize)
    {
      ghost var ms := Table();
      mappings[i] := mappings[i].(length := newsize);
      assert Table() == Resize(ms, i, newsize);
      Stretched(ms, i, newsize, pages);
    }

    /** Move the resident pages of `size` bytes from `from` to `to`, the last one first.  A page is read through
        whatever address the steps of PGSIZE from the end reach, and mappages may be given an address inside a page. */
    method MovePages(from: nat, to: nat, size: nat) returns (panicked: bool)
      requires from >= PGSIZE && to >= PGSIZE
      modifies this`pages
      ensures panicked <==> MoveLoop(old(pages), from, to, size) == None
      ensures !panicked ==> MoveLoop(old(pages), from, to, size) == Some(pages)
    {
      hide RoundDown;
      ghost var was := pages;
      var left := size as int;
      while left > 0
        invariant -PGSIZE < left <= size && MoveLoop(was, from, to, size) == MoveLoop(pages, from, to, left)
      {
        var src := RoundDown(from + left - PGSIZE);
        if src in pages {
          var ok := MapPages(to + left - PGSIZE, pages[src]);
          if !ok {
            return true;
          }
          pages := pages - {src};
        }
        left := left - PGSIZE;
      }
      return false;
    }

    /** mappages for PGSIZE bytes at `va`: one page, or two if `va` is inside a page. */
    method MapPages(va: nat, frame: nat) returns (ok: bool)
      modifies this`pages
      ensures ok <==> MapAt(old(pages), va, frame).Some?
      ensures ok ==> MapAt(old(pages), va, frame) == Some(pages)
    {
      hide RoundDown;
      var a, last := RoundDown(va), RoundDown(va + PGSIZE - 1);
      RoundedPair(va);
      if a in pages {
        return false;
      }
      pages := pages[a := frame];
      if a == last {
        return true;
      }
      if last in pages {
        return false;
      }
      pages := pages[last := frame + 1];
      return true;
    }

    /** Move entry `i` with its resident pages to `a`. */
    method Relocate(i: nat, newsize: nat, a: nat) returns (panicked: bool)
      requires Valid() && i < n && newsize > Table()[i].length && Table()[i].addr >= PGSIZE && a >= PGSIZE
      requires Least(Table(), a, newsize) && a + newsize <= KERNBASE
      modifies this`n, this`pages, this`free, mappings
      ensures panicked <==> MoveLoop(old(pages), old(Table())[i].addr, a, old(Table())[i].length) == None
      ensures !panicked ==>
        && n == old(n) <= mappings.Length && free == old(free)
        && multiset(Table()) == multiset(old(Table())[i := old(Table())[i].(addr := a, length := newsize)])
        && MoveLoop(old(pages), old(Table())[i].addr, a, old(Table())[i].length) == Some(pages)
      ensures old(Table())[i].length % PGSIZE == 0 ==> !panicked && Valid()
    {
      hide Separate, ResidentOk, FramesOk, Sorted, Least, Moved, Fits, Aligned, Empty, MoveLoop;
      ghost var ms, was := Table(), pages;
      var m := mappings[i];
      Entry(ms, i, pages);
      Vacant(ms, i, pages, a, newsize);
      if m.length % PGSIZE == 0 {
        WholeMove(pages, m.addr, a, m.length, newsize);
      }
      mappings[i] := m.(addr := a, length := newsize);
      ghost var ms1 := ms[i := m.(addr := a, length := newsize)];
      assert Table() == ms1;
      panicked := MovePages(m.addr, a, m.length);
      if panicked {
        return;
      }
      if m.length % PGSIZE == 0 {
        Relocated(ms, i, a, newsize, was, pages);
      }
      assert Table() == ms1;
      NoneAtOld(ms, i, a, newsize);
      var gone := Wunmap(m.addr, false);
      assert Table() == ms1;
      SelectionSort(mappings, n);
      if m.length % PGSIZE == 0 {
        Resorted(ms1, Table(), pages);
      }
    }

    /** Resize the mapping at `oldaddr`, moving it only if it must grow past its neighbour and `flags` lets it. */
    method Wremap(oldaddr: nat, oldsize: int, newsize: int, flags: int) returns (r: nat, panicked: bool)
      requires Valid() && oldaddr < U32 && oldsize < U32 / 2 && newsize < U32 / 2
      requires forall i | 0 <= i < n && Table()[i].addr == oldaddr :: oldsize == Table()[i].length
      modifies this`n, this`pages, this`free, mappings
      ensures r == FAILED && !panicked <==> RemapRefused(old(Table()), oldaddr, newsize, flags)
      ensures r == FAILED && !panicked ==> Valid() && Table() == old(Table()) && pages == old(pages) && free == old(free)
      ensures panicked ==> exists i :: MovePanics(old(Table()), i, oldaddr, newsize, old(pages))
      ensures r != FAILED && !panicked ==>
        && n == old(n) <= mappings.Length
        && exists i ::
             && Remapped(old(Table()), Table(), i, oldaddr, r, newsize, old(pages), pages, old(free), free)
             && (StaysSound(old(Table()), i, r, newsize, old(pages)) ==> Valid())
    {
      hide Separate, ResidentOk, FramesOk, Sorted, Cut, Within, Frames, Least, Fits, NoneLeft, MoveLoop;
      panicked := false;
      if oldaddr % PGSIZE != 0 || newsize <= 0 {
        return FAILED, false;
      }
      ghost var ms := Table();
      var i := Find(oldaddr);
      if i == n {
        assert NoneAt(ms, oldaddr);
        return FAILED, false;
      }
      Entry(ms, i, pages);
      if newsize == oldsize {
        assert ms == ms[i := ms[i].(addr := oldaddr, length := newsize)];
        assert Remapped(ms, Table(), i, oldaddr, oldaddr, newsize, pages, pages, free, free);
        return oldaddr, false;
      } else if newsize < oldsize {
        Shrink(i, newsize);
        if ms[i].length % PGSIZE == 0 {
          WholeCut(ms[i], newsize, old(pages));
        }
        assert Remapped(ms, Table(), i, oldaddr, oldaddr, newsize, old(pages), pages, old(free), free);
        return oldaddr, false;
      }
      r, panicked := Grow(i, newsize, flags);
    }

    method Grow(i: nat, newsize: nat, flags: int) returns (r: nat, panicked: bool)
      requires Valid() && i < n && Table()[i].length < newsize < U32 / 2
      modifies this`n, this`pages, this`free, mappings
      ensures r == FAILED && !panicked <==> GrowRefused(old(Table()), i, newsize, flags)
      ensures r == FAILED && !panicked ==> Valid() && Table() == old(Table()) && pages == old(pages) && free == old(free)
      ensures panicked ==> MovePanics(old(Table()), i, old(Table())[i].addr, newsize, old(pages))
      ensures r != FAILED && !panicked ==>
        && n == old(n) <= mappings.Length
        && Remapped(old(Table()), Table(), i, old(Table())[i].addr, r, newsize, old(pages), pages, old(free), free)
        && (StaysSound(old(Table()), i, r, newsize, old(pages)) ==> Valid())
    {
      hide Separate, ResidentOk, FramesOk, Sorted, Cut, Within, Frames, Least, Fits, MoveLoop;
      ghost var ms := Table();
      var oldaddr := mappings[i].addr;
      Entry(ms, i, pages);
      panicked := false;
      var end := Add32(oldaddr, newsize) - 1;
      if end >= KERNBASE {
        return FAILED, false;
      }
      if i == n - 1 || end < mappings[i + 1].addr {
        Stay(i, newsize);
        assert Table() == ms[i := ms[i].(addr := oldaddr, length := newsize)];
        return oldaddr, false;
      }
      if flags == 0 {
        return FAILED, false;
      }
      var a := FirstFit(newsize);
      if Add32(a, newsize) - 1 >= KERNBASE {
        NothingFits(ms, a, newsize);
        return FAILED, false;
      }
      SomethingFits(ms, a, newsize);
      Vacant(ms, i, pages, a, newsize);
      panicked := Relocate(i, newsize, a);
      r := a;
    }

    /** Give the page at `addr` a frame, if it lies in a mapping.  `mapped` says whether a page table could be had. */
    method HandlePagefault(addr: nat, mapped: bool) returns (ok: bool)
      requires Valid() && addr % PGSIZE == 0 && addr !in pages
      modifies this`pages, this`free, mappings
      ensures Valid() && n == old(n) && SameRegions(old(Table()), Table())
      ensures ok <==> Inside(old(Table()), addr) && old(free) != [] && mapped
      ensures ok ==> pages == old(pages)[addr := old(free)[0]] && free == old(free)[1..]
      ensures !ok ==> pages == old(pages) && free == old(free)
    {
      hide Separate, FramesOk, Sorted, ResidentOk, SameRegions;
      ghost var ms := Table();
      SameItself(ms);
      for i := 0 to n
        invariant forall j | 0 <= j < i :: !(mappings[j].addr <= addr < mappings[j].End())
        invariant Valid() && Table() == ms && pages == old(pages) && free == old(free) && n == old(n)
      {
        var m := mappings[i];
        assert m == ms[i];
        Entry(ms, i, pages);
        if m.addr <= addr < Add32(m.addr, m.length) {
          assert Inside(ms, addr);
          if free == [] {
            return false;
          }
          var mem := free[0];
          free := free[1..];
          mappings[i] := m.(loaded := m.loaded + 1);
          assert Table() == ms[i := m.(loaded := m.loaded + 1)];
          Counted(ms, i, pages, addr, mem);
          if !mapped {
            free := [mem] + free;
            assert free == old(free);
            return false;
          }
          FrameTaken(pages, old(free), addr);
          pages := pages[addr := mem];
          return true;
        }
      }
      return false;
    }
  }

  // ----- Page faults

  ghost predicate Inside(ms: seq<Mapping>, addr: nat) {
    exists i :: 0 <= i < |ms| && ms[i].addr <= addr < ms[i].End()
  }

  /** The tables differ at most in their counts of loaded pages. */
  ghost predicate SameRegions(a: seq<Mapping>, b: seq<Mapping>) {
    |a| == |b| && forall i | 0 <= i < |a| :: b[i] == a[i].(loaded := b[i].loaded)
  }

  lemma SameItself(ms: seq<Mapping>)
    ensures SameRegions(ms, ms)
  {
  }

  lemma Counted(ms: seq<Mapping>, i: nat, pages: map<nat, nat>, addr: nat, mem: nat)
    requires Separate(ms) && Sorted(ms) && ResidentOk(ms, pages) && i < |ms|
    requires addr % PGSIZE == 0 && ms[i].addr <= addr < ms[i].End()
    ensures var r := ms[i := ms[i].(loaded := ms[i].loaded + 1)];
            && Separate(r) && Sorted(r) && SameRegions(ms, r)
            && ResidentOk(r, pages) && ResidentOk(r, pages[addr := mem])
  {
    hide RoundUp, ResidentOk;
    var r := ms[i := ms[i].(loaded := ms[i].loaded + 1)];
    forall j, k | 0 <= j < k < |r| ensures PageApart(r[j], r[k]) {
      assert PageApart(ms[j], ms[k]);
    }
    SameResident(ms, r, pages);
    assert Holds(r[i], addr);
    MoreResident(r, pages, addr, mem);
  }

  lemma SameResident(ms: seq<Mapping>, r: seq<Mapping>, pages: map<nat, nat>)
    requires ResidentOk(ms, pages) && SameRegions(ms, r)
    ensures ResidentOk(r, pages)
  {
    hide RoundUp;
    forall p | p in pages && WBASE <= p < KERNBASE ensures Covered(r, p) {
      assert Covered(ms, p);
      var j :| 0 <= j < |ms| && Holds(ms[j], p);
      assert Holds(r[j], p);
    }
  }

  lemma MoreResident(ms: seq<Mapping>, pages: map<nat, nat>, addr: nat, mem: nat)
    requires ResidentOk(ms, pages) && addr % PGSIZE == 0 && Covered(ms, addr)
    ensures ResidentOk(ms, pages[addr := mem])
  {
  }

  lemma FrameTaken(pages: map<nat, nat>, free: seq<nat>, addr: nat)
    requires FramesOk(pages, free) && free != [] && addr !in pages
    ensures FramesOk(pages[addr := free[0]], free[1..])
  {
  }

  // ----- Resizing and moving a mapping

  /** Growing entry `i` past its neighbour is refused if it may not move or nothing fits; past KERNBASE it is always refused. */
  ghost predicate GrowRefused(ms: seq<Mapping>, i: nat, newsize: nat, flags: int)
    requires i < |ms|
  {
    || ms[i].addr + newsize > KERNBASE
    || (&& i + 1 < |ms| && ms[i].addr + newsize > ms[i + 1].addr
        && (flags == 0 || forall a: nat | a % PGSIZE == 0 && WBASE <= a && a + newsize <= KERNBASE :: !Fits(ms, a, newsize)))
  }

  ghost predicate RemapRefused(ms: seq<Mapping>, oldaddr: nat, newsize: int, flags: int) {
    || oldaddr % PGSIZE != 0 || newsize <= 0
    || forall i | 0 <= i < |ms| && ms[i].addr == oldaddr :: newsize > ms[i].length && GrowRefused(ms, i, newsize, flags)
  }

  /** Entry `i` now has `newsize` bytes at `r`.  Shrinking cleared the pages that its loop reaches and freed their
      frames; growing in place changed no page; moving ran the loop that moves pages. */
  ghost predicate Remapped(ms: seq<Mapping>, ms': seq<Mapping>, i: int, oldaddr: nat, r: nat, newsize: int,
                           pages: map<nat, nat>, pages': map<nat, nat>, free: seq<nat>, free': seq<nat>)
  {
    && 0 <= i < |ms| && ms[i].addr == oldaddr && newsize > 0
    && multiset(ms') == multiset(ms[i := ms[i].(addr := r, length := newsize)])
    && (r == oldaddr || (newsize > ms[i].length && Least(ms, r, newsize) && r + newsize <= KERNBASE))
    && if newsize < ms[i].length then
         && MappingOk(ms[i])
         && pages' == Cut(pages, CutFrom(ms[i], newsize), oldaddr + RoundDown(ms[i].length))
         && Frames(free') == Frames(free) + Within(pages, CutFrom(ms[i], newsize), oldaddr + RoundDown(ms[i].length))
       else
         free' == free && if r == oldaddr then pages' == pages else MoveLoop(pages, oldaddr, r, ms[i].length) == Some(pages')
  }

  /** When the table and the pages are in order afterwards: for whole pages, for growing in place, and for shrinking that
      leaves no page beyond the new end. */
  ghost predicate StaysSound(ms: seq<Mapping>, i: int, r: nat, newsize: int, pages: map<nat, nat>) {
    && 0 <= i < |ms|
    && (|| ms[i].length % PGSIZE == 0
        || (newsize >= ms[i].length && r == ms[i].addr)
        || (0 < newsize < ms[i].length && NoneLeft(ms[i], newsize, pages)))
  }

  /** Only moving a mapping that is no whole number of pages can panic. */
  ghost predicate MovePanics(ms: seq<Mapping>, i: int, oldaddr: nat, newsize: int, pages: map<nat, nat>) {
    && 0 <= i < |ms| && ms[i].addr == oldaddr && newsize > ms[i].length && ms[i].length % PGSIZE != 0
    && exists a :: Least(ms, a, newsize) && MoveLoop(pages, oldaddr, a, ms[i].length) == None
  }

  lemma WholeCut(m: Mapping, newsize: nat, pages: map<nat, nat>)
    requires MappingOk(m) && 0 < newsize < m.length && m.length % PGSIZE == 0
    ensures CutFrom(m, newsize) == m.addr + RoundDown(newsize) && m.addr + RoundDown(m.length) == m.End()
    ensures NoneLeft(m, newsize, pages)
  {
    hide RoundDown, RoundUp;
    AlignedSum(m.addr, m.length);
    var rest := newsize % PGSIZE;
    assert (newsize - m.length) % PGSIZE == rest;
    RoundsTo(m.addr + newsize - rest, m.addr + newsize - rest, m.addr + newsize - rest);
    RoundsTo(m.length, m.length, m.length);
    RoundsTo(newsize, newsize - rest, RoundUp(newsize));
  }

  lemma SomethingFits(ms: seq<Mapping>, a: nat, len: nat)
    requires Least(ms, a, len) && a + len <= KERNBASE
    ensures a % PGSIZE == 0 && WBASE <= a && Fits(ms, a, len)
  {
  }

  ghost predicate CarriedAt(pages: map<nat, nat>, from: nat, pages': map<nat, nat>, to: nat, k: nat) {
    Agree(pages, from + k, pages', to + k)
  }

  /** What a caller of wremap keeps, for whole pages and whenever it grows in place: every page below both sizes, down to
      a whole page, has its frame at the same offset, and no page of another mapping or outside the window has changed. */
  lemma RemapKeeps(ms: seq<Mapping>, ms': seq<Mapping>, i: nat, r: nat, newsize: nat,
                   pages: map<nat, nat>, pages': map<nat, nat>, free: seq<nat>, free': seq<nat>)
    requires i < |ms| && Separate(ms) && ResidentOk(ms, pages) && FramesOk(pages, free)
    requires Remapped(ms, ms', i, ms[i].addr, r, newsize, pages, pages', free, free')
    requires newsize < ms[i].length || r != ms[i].addr ==> ms[i].length % PGSIZE == 0
    ensures forall k: nat | k < RoundDown(newsize) && k < ms[i].length :: CarriedAt(pages, ms[i].addr, pages', r, k)
    ensures forall p | p in pages && !Holds(ms[i], p) :: p in pages' && pages'[p] == pages[p]
  {
    hide FramesOk, MoveLoop, RoundDown, RoundUp;
    var m := ms[i];
    assert MappingOk(m);
    if newsize < m.length {
      WholeCut(m, newsize, pages);
    } else if r != m.addr {
      MovedKeeps(ms, i, r, newsize, pages, pages', free);
    }
  }

  lemma MovedKeeps(ms: seq<Mapping>, i: nat, r: nat, newsize: nat, pages: map<nat, nat>, pages': map<nat, nat>, free: seq<nat>)
    requires i < |ms| && Separate(ms) && ResidentOk(ms, pages) && FramesOk(pages, free) && MappingOk(ms[i])
    requires newsize > ms[i].length && ms[i].length % PGSIZE == 0 && Least(ms, r, newsize) && r + newsize <= KERNBASE
    requires MoveLoop(pages, ms[i].addr, r, ms[i].length) == Some(pages')
    ensures forall k: nat | k < ms[i].length :: CarriedAt(pages, ms[i].addr, pages', r, k)
    ensures forall p | p in pages && !Holds(ms[i], p) :: p in pages' && pages'[p] == pages[p]
  {
    hide FramesOk, MoveLoop, RoundDown, RoundUp;
    var m := ms[i];
    Entry(ms, i, pages);
    Vacant(ms, i, pages, r, newsize);
    WholeMove(pages, m.addr, r, m.length, newsize);
    forall k: nat | k < m.length ensures CarriedAt(pages, m.addr, pages', r, k) {
      assert MovedAt(pages, pages', m.addr, r, 0, m.length, r + k);
    }
    RoundUpLeast(m.End(), m.End());
    forall p | p in pages && !Holds(m, p) ensures p in pages' && pages'[p] == pages[p] {
      assert MovedAt(pages, pages', m.addr, r, 0, m.length, p);
    }
  }

  ghost function Resize(ms: seq<Mapping>, i: nat, newsize: nat): seq<Mapping>
    requires i < |ms|
  {
    ms[i := ms[i].(length := newsize)]
  }

  lemma CutDown(pages: map<nat, nat>, a: nat, hi: nat)
    requires Aligned(pages) && a % PGSIZE == 0 && PGSIZE <= a <= hi
    ensures Cut(pages, a - PGSIZE, hi) == Cut(pages, a, hi) - {a - PGSIZE}
    ensures Within(pages, a - PGSIZE, hi) == Within(pages, a, hi) + if a - PGSIZE in pages then {pages[a - PGSIZE]} else {}
    ensures a - PGSIZE in Cut(pages, a, hi) <==> a - PGSIZE in pages
    ensures a - PGSIZE in pages ==> Cut(pages, a, hi)[a - PGSIZE] == pages[a - PGSIZE]
  {
    var b := a - PGSIZE;
    forall p | p in pages && b <= p < a ensures p == b {
      SamePage(b, p);
    }
  }

  lemma ResizeSeparate(ms: seq<Mapping>, i: nat, newsize: nat)
    requires Separate(ms) && Sorted(ms) && i < |ms| && newsize > 0 && ms[i].addr + newsize <= KERNBASE
    requires i + 1 < |ms| ==> ms[i].addr + newsize <= ms[i + 1].addr
    ensures Separate(Resize(ms, i, newsize)) && Sorted(Resize(ms, i, newsize))
  {
    var r := Resize(ms, i, newsize);
    assert MappingOk(ms[i]);
    forall j, k | 0 <= j < k < |r| ensures PageApart(r[j], r[k]) {
      SortedApart(ms, j, k);
      if j == i {
        assert MappingOk(ms[k]) && ms[i + 1].addr <= ms[k].addr;
        RoundUpLeast(r[i].End(), ms[k].addr);
      }
    }
  }

  lemma Stretched(ms: seq<Mapping>, i: nat, newsize: nat, pages: map<nat, nat>)
    requires Separate(ms) && Sorted(ms) && ResidentOk(ms, pages) && i < |ms| && newsize > ms[i].length
    requires ms[i].addr + newsize <= KERNBASE && (i + 1 < |ms| ==> ms[i].addr + newsize <= ms[i + 1].addr)
    ensures var r := Resize(ms, i, newsize); Separate(r) && Sorted(r) && ResidentOk(r, pages)
  {
    var r := Resize(ms, i, newsize);
    assert MappingOk(ms[i]);
    ResizeSeparate(ms, i, newsize);
    RoundUpMonotone(ms[i].End(), r[i].End());
    forall p | p in pages && WBASE <= p < KERNBASE ensures Covered(r, p) {
      var j :| 0 <= j < |ms| && Holds(ms[j], p);
      assert Holds(r[j], p);
    }
  }

  lemma RoundUpMonotone(a: nat, b: nat)
    requires a <= b
    ensures RoundUp(a) <= RoundUp(b)
  {
  }

  /** The first page cleared when `m` shrinks: that of the last step of PGSIZE, down from its old end, that reaches the new size. */
  function CutFrom(m: Mapping, newsize: nat): nat
    requires MappingOk(m)
  {
    RoundDown(m.addr + newsize - (newsize - m.length) % PGSIZE)
  }

  lemma StopsAt(oldsize: nat, newsize: nat, temp: int)
    requires (oldsize - temp) % PGSIZE == 0 && temp <= newsize < temp + PGSIZE
    ensures temp == newsize - (newsize - oldsize) % PGSIZE
  {
  }

  lemma AlignedSum(a: nat, b: nat)
    requires a % PGSIZE == 0
    ensures RoundDown(a + b) == a + RoundDown(b) && RoundUp(a + b) == a + RoundUp(b)
  {
    hide RoundDown, RoundUp;
    RoundsTo(a + b, a + RoundDown(b), a + RoundUp(b));
  }

  lemma RoundsTo(a: nat, lo: nat, hi: nat)
    requires lo % PGSIZE == 0 && lo <= a < lo + PGSIZE && hi % PGSIZE == 0 && a <= hi < a + PGSIZE
    ensures RoundDown(a) == lo && RoundUp(a) == hi
  {
    hide RoundDown, RoundUp;
    if lo < RoundDown(a) {
      AlignedGap(lo, RoundDown(a));
    } else if RoundDown(a) < lo {
      AlignedGap(RoundDown(a), lo);
    }
    if hi < RoundUp(a) {
      AlignedGap(hi, RoundUp(a));
    } else if RoundUp(a) < hi {
      AlignedGap(RoundUp(a), hi);
    }
  }

  lemma PageBefore(a: nat)
    requires a >= PGSIZE
    ensures RoundDown(a - PGSIZE) == RoundDown(a) - PGSIZE
  {
  }

  /** No resident page of `m` beyond its new end is missed. */
  ghost predicate NoneLeft(m: Mapping, newsize: nat, pages: map<nat, nat>) {
    forall p | p in pages :: !(RoundUp(m.addr + newsize) <= p < m.PageEnd() && m.addr + RoundDown(m.length) <= p)
  }

  lemma Shrunk(ms: seq<Mapping>, i: nat, newsize: nat, pages: map<nat, nat>)
    requires Separate(ms) && Sorted(ms) && ResidentOk(ms, pages) && i < |ms| && MappingOk(ms[i])
    requires 0 < newsize < ms[i].length
    ensures var r := Resize(ms, i, newsize);
            && Separate(r) && Sorted(r)
            && (ResidentOk(r, Cut(pages, CutFrom(ms[i], newsize), ms[i].addr + RoundDown(ms[i].length))) <==>
                NoneLeft(ms[i], newsize, pages))
  {
    hide Separate, Sorted, Resize, ResidentOk, NoneLeft, Cut, RoundDown, RoundUp;
    if i + 1 < |ms| {
      SortedApart(ms, i, i + 1);
    }
    ResizeSeparate(ms, i, newsize);
    RoundUpMonotone(ms[i].addr + newsize, ms[i].End());
    var lo := CutFrom(ms[i], newsize);
    assert lo <= RoundUp(ms[i].addr + newsize);
    if NoneLeft(ms[i], newsize, pages) {
      ShrunkCovers(ms, i, newsize, pages, lo);
    } else {
      ShrunkMisses(ms, i, newsize, pages, lo);
    }
  }

  lemma ShrunkMisses(ms: seq<Mapping>, i: nat, newsize: nat, pages: map<nat, nat>, lo: nat)
    requires Separate(ms) && i < |ms| && MappingOk(ms[i]) && !NoneLeft(ms[i], newsize, pages)
    ensures !ResidentOk(Resize(ms, i, newsize), Cut(pages, lo, ms[i].addr + RoundDown(ms[i].length)))
  {
    hide Separate, Covered, Resize, RoundDown, RoundUp;
    var m, hi := ms[i], ms[i].addr + RoundDown(ms[i].length);
    var p :| p in pages && RoundUp(m.addr + newsize) <= p < m.PageEnd() && hi <= p;
    PageEndInWindow(m);
    assert p in Cut(pages, lo, hi);
    LostPage(ms, i, newsize, p);
  }

  lemma ShrunkCovers(ms: seq<Mapping>, i: nat, newsize: nat, pages: map<nat, nat>, lo: nat)
    requires ResidentOk(ms, pages) && i < |ms| && lo <= RoundUp(ms[i].addr + newsize) && NoneLeft(ms[i], newsize, pages)
    ensures ResidentOk(Resize(ms, i, newsize), Cut(pages, lo, ms[i].addr + RoundDown(ms[i].length)))
  {
    hide Covered, Resize, RoundDown, RoundUp;
    var hi := ms[i].addr + RoundDown(ms[i].length);
    forall p | p in Cut(pages, lo, hi) && WBASE <= p < KERNBASE ensures Covered(Resize(ms, i, newsize), p) {
      KeptPage(ms, i, newsize, p);
    }
  }

  lemma KeptPage(ms: seq<Mapping>, i: nat, newsize: nat, p: nat)
    requires i < |ms| && Covered(ms, p)
    requires !(RoundUp(ms[i].addr + newsize) <= p < ms[i].PageEnd())
    ensures Covered(Resize(ms, i, newsize), p)
  {
    var j :| 0 <= j < |ms| && Holds(ms[j], p);
    assert Holds(Resize(ms, i, newsize)[j], p);
  }

  lemma LostPage(ms: seq<Mapping>, i: nat, newsize: nat, p: nat)
    requires Separate(ms) && i < |ms| && Holds(ms[i], p) && p >= RoundUp(ms[i].addr + newsize)
    ensures !Covered(Resize(ms, i, newsize), p)
  {
    var r := Resize(ms, i, newsize);
    forall j | 0 <= j < |r| ensures !Holds(r[j], p) {
      if Holds(r[j], p) && j != i {
        ExactlyOne(ms, p, i, j);
      }
    }
  }

  /** Shrinking releases exactly the pages beyond the new end. */
  ghost predicate ShrinksExactly(m: Mapping, newsize: nat, pages: map<nat, nat>, pages': map<nat, nat>) {
    forall p | p in pages :: p in pages' <==> !(RoundUp(m.addr + newsize) <= p < m.PageEnd())
  }

  /** For a given set of resident pages: none is cleared too early, and none beyond the new end is missed. */
  lemma ShrinkExactOn(m: Mapping, newsize: nat, pages: map<nat, nat>)
    requires MappingOk(m) && 0 < newsize < m.length
    ensures ShrinksExactly(m, newsize, pages, Cut(pages, CutFrom(m, newsize), m.addr + RoundDown(m.length))) <==>
            && (forall p | p in pages :: !(CutFrom(m, newsize) <= p < RoundUp(m.addr + newsize) && p < m.addr + RoundDown(m.length)))
            && NoneLeft(m, newsize, pages)
  {
    hide RoundDown, RoundUp;
    var lo, hi := CutFrom(m, newsize), m.addr + RoundDown(m.length);
    RoundUpMonotone(m.addr + newsize, m.End());
    assert lo <= RoundUp(m.addr + newsize) && hi <= m.PageEnd() by {
      AlignedSum(m.addr, m.length);
    }
    CutExactIff(pages, lo, RoundUp(m.addr + newsize), hi, m.PageEnd());
  }

  lemma WholePagesShrinkExactly(m: Mapping, newsize: nat, pages: map<nat, nat>)
    requires MappingOk(m) && 0 < newsize < m.length && m.length % PGSIZE == 0 && newsize % PGSIZE == 0
    ensures ShrinksExactly(m, newsize, pages, Cut(pages, CutFrom(m, newsize), m.addr + RoundDown(m.length)))
  {
    hide RoundDown, RoundUp;
    ShrinkExactOn(m, newsize, pages);
    WholeCut(m, newsize, pages);
    RoundsTo(newsize, newsize, newsize);
    AlignedSum(m.addr, newsize);
  }

  /** Whatever pages are resident, shrinking releases exactly those beyond the new end. */
  ghost predicate AlwaysShrinksExactly(m: Mapping, newsize: nat)
    requires MappingOk(m)
  {
    forall pages: map<nat, nat> | Aligned(pages) ::
      ShrinksExactly(m, newsize, pages, Cut(pages, CutFrom(m, newsize), m.addr + RoundDown(m.length)))
  }

  /** The condition on the sizes. */
  lemma ShrinkExactIff(m: Mapping, newsize: nat)
    requires MappingOk(m) && 0 < newsize < m.length
    ensures AlwaysShrinksExactly(m, newsize) <==> m.length % PGSIZE == 0 && newsize % PGSIZE == 0
  {
    hide RoundDown, RoundUp, ShrinksExactly, Cut;
    if m.length % PGSIZE == 0 && newsize % PGSIZE == 0 {
      forall pages: map<nat, nat> | Aligned(pages)
        ensures ShrinksExactly(m, newsize, pages, Cut(pages, CutFrom(m, newsize), m.addr + RoundDown(m.length)))
      {
        WholePagesShrinkExactly(m, newsize, pages);
      }
    } else {
      var p := WrongPage(m, newsize);
      assert Aligned(map[p := 0]);
    }
  }

  /** With a size that is no whole number of pages there is a page that is cleared too early or never reached. */
  lemma WrongPage(m: Mapping, newsize: nat) returns (p: nat)
    requires MappingOk(m) && 0 < newsize < m.length && !(m.length % PGSIZE == 0 && newsize % PGSIZE == 0)
    ensures p % PGSIZE == 0
    ensures !ShrinksExactly(m, newsize, map[p := 0], Cut(map[p := 0], CutFrom(m, newsize), m.addr + RoundDown(m.length)))
  {
    hide RoundDown, RoundUp, ShrinksExactly, Cut;
    var hi := m.addr + RoundDown(m.length);
    AlignedSum(m.addr, m.length);
    AlignedSum(m.addr, newsize);
    if m.length % PGSIZE == 0 {
      p := CutFrom(m, newsize);
      WholeCut(m, newsize, map[p := 0]);
    } else if newsize <= RoundDown(m.length) {
      p := hi;
      RoundUpLeast(m.addr + newsize, hi);
    } else {
      p := hi - PGSIZE;
      LastPageCut(m, newsize);
    }
    ShrinkExactOn(m, newsize, map[p := 0]);
    assert p in map[p := 0];
  }

  /** Shrinking within the last, partial page clears the page before it. */
  lemma LastPageCut(m: Mapping, newsize: nat)
    requires MappingOk(m) && RoundDown(m.length) < newsize < m.length
    ensures CutFrom(m, newsize) == m.addr + RoundDown(m.length) - PGSIZE
  {
    hide RoundDown, RoundUp;
    assert (newsize - m.length) % PGSIZE == newsize - m.length + PGSIZE;
    AlignedSum(m.addr, m.length);
    PageBefore(m.addr + m.length);
  }

  lemma CutExactIff(pages: map<nat, nat>, lo: nat, end: nat, hi: nat, top: nat)
    requires lo <= end <= top && hi <= top
    ensures (forall p | p in pages :: p in Cut(pages, lo, hi) <==> !(end <= p < top)) <==>
            && (forall p | p in pages :: !(lo <= p < end && p < hi))
            && (forall p | p in pages :: !(end <= p < top && hi <= p))
  {
    forall p | p in pages ensures p in Cut(pages, lo, hi) <==> !(lo <= p < hi) {
    }
  }

  /** Shrinking a 5000-byte mapping to 100 bytes takes a page of the mapping below it, and keeps its own second page. */
  lemma ShrinkHitsNeighbour()
    ensures var below, m := Mapping(WBASE, PGSIZE, 0, 0, 1), Mapping(WBASE + PGSIZE, 5000, 0, 0, 2);
            var pages: map<nat, nat> := map[WBASE := 1, WBASE + PGSIZE := 2, WBASE + 2 * PGSIZE := 3];
            && Separate([below, m]) && Sorted([below, m]) && ResidentOk([below, m], pages)
            && Cut(pages, CutFrom(m, 100), m.addr + RoundDown(m.length)) == map[WBASE + 2 * PGSIZE := 3]
  {
    hide RoundDown;
    var below, m := Mapping(WBASE, PGSIZE, 0, 0, 1), Mapping(WBASE + PGSIZE, 5000, 0, 0, 2);
    RoundsTo(m.addr + 100 - 3292, WBASE, WBASE + PGSIZE);
    RoundsTo(5000, PGSIZE, 2 * PGSIZE);
    assert CutFrom(m, 100) == WBASE && RoundDown(m.length) == PGSIZE;
    assert Holds([below, m][0], WBASE) && Holds([below, m][1], WBASE + PGSIZE) && Holds([below, m][1], WBASE + 2 * PGSIZE);
  }

  /** Both maps say the same, one about `q` and the other about `p`. */
  ghost predicate Agree(m: map<nat, nat>, q: int, m': map<nat, nat>, p: int) {
    (q in m <==> p in m') && (q in m && p in m' ==> m[q] == m'[p])
  }

  ghost predicate MovedAt(was: map<nat, nat>, pages: map<nat, nat>, from: nat, to: nat, left: nat, size: nat, p: nat) {
    if to + left <= p < to + size then Agree(was, from + p - to, pages, p)
    else if from + left <= p < from + size then p !in pages
    else Agree(was, p, pages, p)
  }

  /** Pages at offsets `left` to `size` have moved from `from` to `to`, each with its frame; no other page has changed. */
  ghost predicate Moved(was: map<nat, nat>, pages: map<nat, nat>, from: nat, to: nat, left: nat, size: nat) {
    forall p: nat :: MovedAt(was, pages, from, to, left, size, p)
  }

  lemma MovedStart(was: map<nat, nat>, from: nat, to: nat, size: nat)
    ensures Moved(was, was, from, to, size, size)
  {
  }

  ghost predicate Empty(pages: map<nat, nat>, lo: nat, hi: nat) {
    forall p | p in pages :: !(lo <= p < hi)
  }

  ghost predicate Apart(from: nat, size: nat, to: nat, newsize: nat) {
    from + size <= to || to + newsize <= from
  }

  /** Take the page at `src`, if there is one, to `dst`. */
  ghost function Carry(pages: map<nat, nat>, src: nat, dst: nat): map<nat, nat> {
    if src in pages then pages[dst := pages[src]] - {src} else pages
  }

  lemma MovedStep(was: map<nat, nat>, pages: map<nat, nat>, from: nat, to: nat, left: nat, size: nat, newsize: nat)
    requires Moved(was, pages, from, to, left, size) && Aligned(was)
    requires from % PGSIZE == 0 && to % PGSIZE == 0 && left % PGSIZE == 0 && PGSIZE <= left <= size <= newsize
    requires Apart(from, size, to, newsize) && Empty(was, to, to + newsize)
    ensures var src, dst := from + left - PGSIZE, to + left - PGSIZE;
            && dst !in pages
            && Moved(was, Carry(pages, src, dst), from, to, left - PGSIZE, size)
  {
    var src, dst := from + left - PGSIZE, to + left - PGSIZE;
    var r, less := Carry(pages, src, dst), left - PGSIZE;
    assert MovedAt(was, pages, from, to, left, size, src);
    assert MovedAt(was, pages, from, to, left, size, dst);
    forall p: nat ensures MovedAt(was, r, from, to, less, size, p) {
      assert MovedAt(was, pages, from, to, left, size, p);
      if dst < p < dst + PGSIZE {
        Unaligned(src, from + p - to);
      } else if src < p < src + PGSIZE {
        Unaligned(src, p);
      }
    }
  }

  // ----- The loop that moves pages, for any size

  /** One page, or two and the frame after `frame` if `va` is inside a page; None is the panic "remap". */
  function MapAt(pages: map<nat, nat>, va: nat, frame: nat): Option<map<nat, nat>> {
    var first, last := RoundDown(va), RoundDown(va + PGSIZE - 1);
    if first in pages then None
    else if last == first then Some(pages[first := frame])
    else if last in pages then None
    else Some(pages[first := frame][last := frame + 1])
  }

  function MoveLoop(pages: map<nat, nat>, from: nat, to: nat, left: int): Option<map<nat, nat>>
    decreases left
  {
    if left <= 0 || from < PGSIZE || to < PGSIZE then Some(pages)
    else
      var src := RoundDown(from + left - PGSIZE);
      if src !in pages then MoveLoop(pages, from, to, left - PGSIZE)
      else
        match MapAt(pages, to + left - PGSIZE, pages[src])
        case None => None
        case Some(p) => MoveLoop(p - {src}, from, to, left - PGSIZE)
  }

  lemma RoundedPair(va: nat)
    ensures RoundDown(va + PGSIZE - 1) == if va % PGSIZE == 0 then va else RoundDown(va) + PGSIZE
    ensures va % PGSIZE == 0 ==> RoundDown(va) == va
  {
    hide RoundDown, RoundUp;
    var r := va % PGSIZE;
    if r == 0 {
      RoundsTo(va, va, va);
      RoundsTo(va + PGSIZE - 1, va, va + PGSIZE);
    } else {
      RoundsTo(va, va - r, va - r + PGSIZE);
      RoundsTo(va + PGSIZE - 1, va - r + PGSIZE, RoundUp(va + PGSIZE - 1));
    }
  }

  /** Between whole pages each round of the loop carries one page. */
  lemma WholeRound(pages: map<nat, nat>, from: nat, to: nat, left: nat)
    requires from % PGSIZE == 0 && to % PGSIZE == 0 && left % PGSIZE == 0 && left >= PGSIZE && from >= PGSIZE && to >= PGSIZE
    requires to + left - PGSIZE !in pages
    ensures MoveLoop(pages, from, to, left) ==
            MoveLoop(Carry(pages, from + left - PGSIZE, to + left - PGSIZE), from, to, left - PGSIZE)
  {
    hide RoundDown, MoveLoop;
    MoveUnfolds(pages, from, to, left);
    RoundedPair(from + left - PGSIZE);
    RoundedPair(to + left - PGSIZE);
  }

  lemma MoveUnfolds(pages: map<nat, nat>, from: nat, to: nat, left: nat)
    requires left > 0 && from >= PGSIZE && to >= PGSIZE
    ensures var src := RoundDown(from + left - PGSIZE);
            MoveLoop(pages, from, to, left) ==
            if src !in pages then MoveLoop(pages, from, to, left - PGSIZE)
            else match MapAt(pages, to + left - PGSIZE, pages[src])
                 case None => None
                 case Some(p) => MoveLoop(p - {src}, from, to, left - PGSIZE)
  {
  }

  lemma {:induction false} MovesFrom(was: map<nat, nat>, pages: map<nat, nat>, from: nat, to: nat, left: nat, size: nat, newsize: nat)
    requires Moved(was, pages, from, to, left, size) && Aligned(was) && from >= PGSIZE && to >= PGSIZE
    requires from % PGSIZE == 0 && to % PGSIZE == 0 && left % PGSIZE == 0 && left <= size <= newsize
    requires Apart(from, size, to, newsize) && Empty(was, to, to + newsize)
    ensures MoveLoop(pages, from, to, left).Some?
    ensures Moved(was, MoveLoop(pages, from, to, left).value, from, to, 0, size)
    ensures forall free | FramesOk(pages, free) :: FramesOk(MoveLoop(pages, from, to, left).value, free)
    decreases left
  {
    hide Moved, Aligned, FramesOk, Apart, Empty, Carry, RoundDown;
    if left > 0 {
      var src, dst := from + left - PGSIZE, to + left - PGSIZE;
      MovedStep(was, pages, from, to, left, size, newsize);
      WholeRound(pages, from, to, left);
      MovesFrom(was, Carry(pages, src, dst), from, to, left - PGSIZE, size, newsize);
      forall free | FramesOk(pages, free) ensures FramesOk(MoveLoop(pages, from, to, left).value, free) {
        CarryFrames(pages, free, src, dst);
      }
    }
  }

  /** A whole number of pages moves to an empty place without a panic, each page with its frame. */
  lemma WholeMove(pages: map<nat, nat>, from: nat, to: nat, size: nat, newsize: nat)
    requires Aligned(pages) && from % PGSIZE == 0 && to % PGSIZE == 0 && size % PGSIZE == 0
    requires from >= PGSIZE && to >= PGSIZE && size <= newsize
    requires Apart(from, size, to, newsize) && Empty(pages, to, to + newsize)
    ensures MovesExactly(pages, from, to, size)
    ensures forall free | FramesOk(pages, free) :: FramesOk(MoveLoop(pages, from, to, size).value, free)
  {
    hide Moved, MoveLoop, FramesOk;
    MovedStart(pages, from, to, size);
    MovesFrom(pages, pages, from, to, size, size, newsize);
  }

  /** Whatever pages are resident, those of the mapping and no others move, each to its offset. */
  ghost predicate AlwaysMoves(from: nat, to: nat, size: nat, newsize: nat) {
    forall pages: map<nat, nat> | Aligned(pages) && Empty(pages, to, to + newsize) :: MovesExactly(pages, from, to, size)
  }

  ghost predicate MovesExactly(pages: map<nat, nat>, from: nat, to: nat, size: nat) {
    && MoveLoop(pages, from, to, size).Some?
    && Moved(pages, MoveLoop(pages, from, to, size).value, from, to, 0, size)
  }

  /** The condition on the size. */
  lemma MoveExactIff(from: nat, to: nat, size: nat, newsize: nat)
    requires from % PGSIZE == 0 && to % PGSIZE == 0 && from >= PGSIZE && to >= PGSIZE && 0 < size <= newsize
    requires RoundUp(from + size) <= to || to + newsize <= from
    ensures AlwaysMoves(from, to, size, newsize) <==> size % PGSIZE == 0
  {
    hide RoundDown, RoundUp, MoveLoop, Moved;
    if size % PGSIZE == 0 {
      forall pages: map<nat, nat> | Aligned(pages) && Empty(pages, to, to + newsize) ensures MovesExactly(pages, from, to, size) {
        WholeMove(pages, from, to, size, newsize);
      }
    } else {
      var p := from + RoundDown(size);
      var pages: map<nat, nat> := map[p := 0];
      AlignedSum(from, size);
      NeverReached(pages, p, from, to, size);
      assert Aligned(pages) && Empty(pages, to, to + newsize);
      LeftBehind(pages, p, from, to, size, newsize);
    }
  }

  /** The last, partial page is never reached. */
  lemma {:induction false} NeverReached(pages: map<nat, nat>, p: nat, from: nat, to: nat, left: int)
    requires pages.Keys == {p} && from >= PGSIZE && from + left < p + PGSIZE
    ensures MoveLoop(pages, from, to, left) == Some(pages)
    decreases left
  {
    hide RoundDown;
    if left > 0 && to >= PGSIZE {
      NeverReached(pages, p, from, to, left - PGSIZE);
    }
  }

  lemma LeftBehind(pages: map<nat, nat>, p: nat, from: nat, to: nat, size: nat, newsize: nat)
    requires pages.Keys == {p} && from <= p < from + size && size <= newsize
    requires from + size <= to || to + newsize <= from
    ensures !Moved(pages, pages, from, to, 0, size)
  {
    assert !MovedAt(pages, pages, from, to, 0, size, p - from + to);
  }

  /** Moving 5000 bytes enters a second page with a frame that is not the mapping's, takes the page of the mapping below,
      and panics when that page meets the first. */
  lemma MovePanicsOnNeighbour()
    ensures var below, m := Mapping(WBASE, PGSIZE, 0, 0, 1), Mapping(WBASE + PGSIZE, 5000, 0, 0, 1);
            var pages: map<nat, nat> := map[WBASE := 1, WBASE + PGSIZE := 2];
            && Separate([below, m]) && Sorted([below, m]) && ResidentOk([below, m], pages)
            && MoveLoop(pages, m.addr, WBASE + 8 * PGSIZE, m.length) == None
  {
    hide MoveLoop;
    var below, m := Mapping(WBASE, PGSIZE, 0, 0, 1), Mapping(WBASE + PGSIZE, 5000, 0, 0, 1);
    assert Holds([below, m][0], WBASE) && Holds([below, m][1], WBASE + PGSIZE);
    TwoRounds(map[WBASE := 1, WBASE + PGSIZE := 2], WBASE + PGSIZE, WBASE + 8 * PGSIZE);
  }

  lemma TwoRounds(pages: map<nat, nat>, from: nat, to: nat)
    requires pages.Keys == {from - PGSIZE, from} && from % PGSIZE == 0 && to % PGSIZE == 0
    requires from >= 2 * PGSIZE && to >= from + 4 * PGSIZE
    ensures MoveLoop(pages, from, to, 5000) == None
  {
    hide MoveLoop, RoundDown, RoundUp;
    var f := pages[from];
    RoundsTo(from + 904, from, from + PGSIZE);
    RoundsTo(to + 904, to, to + PGSIZE);
    RoundedPair(to + 904);
    var mapped: map<nat, nat> := pages[to := f][to + PGSIZE := f + 1];
    var after := mapped - {from};
    MoveUnfolds(pages, from, to, 5000);
    assert MapAt(pages, to + 904, f) == Some(mapped);
    RoundsTo(from + 904 - PGSIZE, from - PGSIZE, from);
    RoundsTo(to + 904 - PGSIZE, to - PGSIZE, to);
    RoundedPair(to + 904 - PGSIZE);
    MoveUnfolds(after, from, to, 904);
    assert to in after;
  }

  lemma Unaligned(a: nat, p: nat)
    requires a % PGSIZE == 0 && a < p < a + PGSIZE
    ensures p % PGSIZE != 0
  {
  }

  lemma CarryFrames(pages: map<nat, nat>, free: seq<nat>, src: nat, dst: nat)
    requires FramesOk(pages, free) && dst !in pages
    ensures FramesOk(Carry(pages, src, dst), free)
  {
  }

  /** The place found is clear of every mapping, the moving one included, so no page is resident there. */
  lemma Vacant(ms: seq<Mapping>, i: nat, pages: map<nat, nat>, a: nat, newsize: nat)
    requires Separate(ms) && ResidentOk(ms, pages) && i < |ms| && newsize > ms[i].length
    requires Least(ms, a, newsize) && a + newsize <= KERNBASE
    ensures Apart(ms[i].addr, ms[i].length, a, newsize)
    ensures Empty(pages, a, a + newsize) && a % PGSIZE == 0
  {
    var m := Mapping(a, newsize, 0, 0, 0);
    assert MappingOk(ms[i]) && !Overlap(a, newsize, ms[i].addr, ms[i].End());
    FitsIsApart(ms, m);
    forall p | p in pages ensures !(a <= p < a + newsize) {
      if WBASE <= p < KERNBASE {
        assert Covered(ms, p);
        var j :| 0 <= j < |ms| && Holds(ms[j], p);
        assert PageApart(ms[j], m);
      }
    }
  }

  lemma NoneAtOld(ms: seq<Mapping>, i: nat, a: nat, newsize: nat)
    requires Separate(ms) && i < |ms| && Apart(ms[i].addr, ms[i].length, a, newsize) && newsize > 0
    ensures var r := ms[i := ms[i].(addr := a, length := newsize)];
            forall j | 0 <= j < |r| :: r[j].addr != ms[i].addr
  {
    assert MappingOk(ms[i]);
    OnlyOneAt(ms, i);
  }

  lemma Relocated(ms: seq<Mapping>, i: nat, a: nat, newsize: nat, was: map<nat, nat>, pages: map<nat, nat>)
    requires Separate(ms) && ResidentOk(ms, was) && i < |ms| && newsize > ms[i].length && ms[i].length % PGSIZE == 0
    requires Least(ms, a, newsize) && a + newsize <= KERNBASE
    requires Moved(was, pages, ms[i].addr, a, 0, ms[i].length)
    ensures var r := ms[i := ms[i].(addr := a, length := newsize)];
            && Separate(r) && ResidentOk(r, pages)
            && forall j | 0 <= j < |r| :: r[j].addr != ms[i].addr
  {
    var m := ms[i].(addr := a, length := newsize);
    var r := ms[i := m];
    assert MappingOk(ms[i]) && !Overlap(a, newsize, ms[i].addr, ms[i].End());
    FitsIsApart(ms, m);
    OnlyOneAt(ms, i);
    Vacant(ms, i, was, a, newsize);
    forall j, k | 0 <= j < k < |r| ensures PageApart(r[j], r[k]) {
      assert PageApart(ms[j], ms[k]);
    }
    forall p | p in pages ensures p % PGSIZE == 0 && (WBASE <= p < KERNBASE ==> Covered(r, p)) {
      assert MovedAt(was, pages, ms[i].addr, a, 0, ms[i].length, p);
      RelocatedPage(ms, i, a, newsize, was, pages, p);
    }
  }

  lemma RelocatedPage(ms: seq<Mapping>, i: nat, a: nat, newsize: nat, was: map<nat, nat>, pages: map<nat, nat>, p: nat)
    requires i < |ms| && MappingOk(ms[i]) && ResidentOk(ms, was) && newsize > ms[i].length && ms[i].length % PGSIZE == 0
    requires a % PGSIZE == 0 && MovedAt(was, pages, ms[i].addr, a, 0, ms[i].length, p) && p in pages
    ensures p % PGSIZE == 0
    ensures WBASE <= p < KERNBASE ==> Covered(ms[i := ms[i].(addr := a, length := newsize)], p)
  {
    hide RoundUp, RoundDown;
    var r := ms[i := ms[i].(addr := a, length := newsize)];
    if a <= p < a + ms[i].length {
      assert ms[i].addr + p - a in was;
      assert Holds(r[i], p);
    } else {
      assert p in was;
      if WBASE <= p < KERNBASE {
        assert Covered(ms, p);
        var j :| 0 <= j < |ms| && Holds(ms[j], p);
        RoundUpLeast(ms[i].End(), ms[i].End());
        assert Holds(r[j], p);
      }
    }
  }

  lemma Resorted(a: seq<Mapping>, b: seq<Mapping>, pages: map<nat, nat>)
    requires Separate(a) && ResidentOk(a, pages) && multiset(a) == multiset(b)
    requires forall i, j | 0 <= i < j < |b| :: b[i].addr <= b[j].addr
    ensures Separate(b) && Sorted(b) && ResidentOk(b, pages)
  {
    SeparateReordered(a, b);
    SortedStrictly(b);
    forall p | p in pages && WBASE <= p < KERNBASE ensures Covered(b, p) {
      CoveredReordered(a, b, p);
    }
  }

  lemma Entry(ms: seq<Mapping>, i: nat, pages: map<nat, nat>)
    requires Separate(ms) && i < |ms| && ResidentOk(ms, pages)
    ensures MappingOk(ms[i]) && ms[i].addr <= ms[i].PageEnd() <= KERNBASE && Aligned(pages)
    ensures forall j | 0 <= j < |ms| && ms[j].addr == ms[i].addr :: j == i
  {
    assert MappingOk(ms[i]);
    PageEndInWindow(ms[i]);
    OnlyOneAt(ms, i);
  }

  // ----- Removing a mapping

  predicate WriteBack(flags: bv32) {
    Has(flags, MAP_SHARED) && !Has(flags, MAP_ANONYMOUS)
  }

  ghost predicate NoneAt(ms: seq<Mapping>, addr: nat) {
    forall i | 0 <= i < |ms| :: ms[i].addr != addr
  }

  /** No mapping starts at `addr`, or its file could not be written back. */
  ghost predicate Refused(ms: seq<Mapping>, addr: nat, written: bool) {
    addr % PGSIZE != 0 || forall i | 0 <= i < |ms| && ms[i].addr == addr :: !written && WriteBack(ms[i].flags)
  }

  ghost function Without(ms: seq<Mapping>, i: nat): seq<Mapping>
    requires i < |ms|
  {
    ms[..i] + ms[i + 1..]
  }

  ghost predicate Aligned(pages: map<nat, nat>) {
    forall p | p in pages :: p % PGSIZE == 0
  }

  ghost function Cut(pages: map<nat, nat>, lo: nat, hi: nat): map<nat, nat> {
    map p | p in pages && !(lo <= p < hi) :: pages[p]
  }

  ghost function Within(pages: map<nat, nat>, lo: nat, hi: nat): set<nat> {
    set p | p in pages && lo <= p < hi :: pages[p]
  }

  ghost function Frames(free: seq<nat>): set<nat> {
    set f | f in free
  }

  /** Entry `i`, at `addr`, is gone with its resident pages; their frames, and no others, are free again. */
  ghost predicate Unmapped(ms: seq<Mapping>, ms': seq<Mapping>, i: int, addr: nat,
                           pages: map<nat, nat>, pages': map<nat, nat>, free: seq<nat>, free': seq<nat>)
  {
    && 0 <= i < |ms| && ms[i].addr == addr && ms' == Without(ms, i)
    && pages' == Cut(pages, addr, ms[i].PageEnd())
    && Frames(free') == Frames(free) + Within(pages, addr, ms[i].PageEnd())
  }

  lemma MultisetIn<T>(x: T, s: seq<T>)
    ensures x in multiset(s) <==> x in s
  {
  }

  lemma MultisetFirst<T>(s: seq<T>)
    requires s != []
    ensures multiset(s[1..]) == multiset(s) - multiset{s[0]}
  {
    assert s == [s[0]] + s[1..];
  }

  lemma SameSize<T>(a: seq<T>, b: seq<T>)
    requires multiset(a) == multiset(b)
    ensures |a| == |b|
  {
    assert |multiset(a)| == |a| && |multiset(b)| == |b|;
  }

  lemma SortedTail(a: seq<Mapping>)
    requires Sorted(a) && a != []
    ensures Sorted(a[1..])
  {
  }

  lemma SameFirst(a: seq<Mapping>, b: seq<Mapping>)
    requires Sorted(a) && Sorted(b) && a != [] && b != [] && a[0] in b && b[0] in a
    ensures a[0] == b[0]
  {
    var j :| 0 <= j < |b| && b[j] == a[0];
    var k :| 0 <= k < |a| && a[k] == b[0];
  }

  /** A table in order is determined by its entries. */
  lemma {:induction false} SortedUnique(a: seq<Mapping>, b: seq<Mapping>)
    requires Sorted(a) && Sorted(b) && multiset(a) == multiset(b)
    ensures a == b
    decreases |a|
  {
    hide Sorted;
    SameSize(a, b);
    if a != [] {
      MultisetIn(a[0], a);
      MultisetIn(a[0], b);
      MultisetIn(b[0], a);
      MultisetIn(b[0], b);
      SameFirst(a, b);
      MultisetFirst(a);
      MultisetFirst(b);
      SortedTail(a);
      SortedTail(b);
      SortedUnique(a[1..], b[1..]);
      assert a == [a[0]] + a[1..] && b == [b[0]] + b[1..];
    }
  }

  lemma EntryOut(ms: seq<Mapping>, ms1: seq<Mapping>, m: Mapping, i: nat)
    requires i < |ms1| && ms1[i] == m && multiset(ms1) == multiset(ms + [m])
    ensures multiset(Without(ms1, i)) == multiset(ms)
  {
    assert ms1 == ms1[..i] + ([m] + ms1[i + 1..]);
    var out := multiset(Without(ms1, i));
    assert multiset(ms1) == out + multiset{m} && multiset(ms + [m]) == multiset(ms) + multiset{m};
    assert out + multiset{m} - multiset{m} == out;
    assert multiset(ms) + multiset{m} - multiset{m} == multiset(ms);
  }

  lemma EntryIn(ms: seq<Mapping>, ms1: seq<Mapping>, m: Mapping, i: nat)
    requires multiset(ms1) == multiset(ms + [m]) && Sorted(ms1) && i < |ms1| && ms1[i].addr == m.addr
    ensures ms1[i] == m
  {
    assert (ms + [m])[|ms|] == m;
    MultisetIn(m, ms + [m]);
    MultisetIn(m, ms1);
    var k :| 0 <= k < |ms1| && ms1[k] == m;
  }

  lemma WithoutSorted(ms: seq<Mapping>, i: nat)
    requires Sorted(ms) && i < |ms|
    ensures Sorted(Without(ms, i))
  {
    var r := Without(ms, i);
    forall j, k | 0 <= j < k < |r| ensures r[j].addr < r[k].addr {
      assert r[j] == ms[if j < i then j else j + 1] && r[k] == ms[if k < i then k else k + 1];
    }
  }

  /** Unmapping what was just mapped is not refused, unless a shared file cannot be written back, and restores the table;
      pages of other mappings stay. */
  lemma UnmapUndoesMap(ms: seq<Mapping>, ms1: seq<Mapping>, ms2: seq<Mapping>, m: Mapping, i: nat, written: bool,
                       pages: map<nat, nat>, pages': map<nat, nat>, free: seq<nat>, free': seq<nat>)
    requires Sorted(ms) && Separate(ms1) && Sorted(ms1) && multiset(ms1) == multiset(ms + [m])
    requires Unmapped(ms1, ms2, i, m.addr, pages, pages', free, free')
    ensures Refused(ms1, m.addr, written) <==> !written && m.flags & 0x2 != 0 && m.flags & 0x4 == 0
    ensures ms2 == ms
    ensures forall p | p in pages && !(m.addr <= p < m.PageEnd()) :: p in pages' && pages'[p] == pages[p]
  {
    EntryIn(ms, ms1, m, i);
    assert MappingOk(ms1[i]);
    EntryOut(ms, ms1, m, i);
    WithoutSorted(ms1, i);
    SortedUnique(ms2, ms);
  }

  lemma CutNothing(pages: map<nat, nat>, a: nat)
    ensures Cut(pages, a, a) == pages && Within(pages, a, a) == {}
  {
  }

  lemma CutStep(pages: map<nat, nat>, lo: nat, a: nat)
    requires Aligned(pages) && a % PGSIZE == 0 && lo <= a
    ensures Cut(pages, lo, a + PGSIZE) == Cut(pages, lo, a) - {a}
    ensures Within(pages, lo, a + PGSIZE) == Within(pages, lo, a) + if a in pages then {pages[a]} else {}
    ensures a in Cut(pages, lo, a) <==> a in pages
  {
    forall p | p in pages && a <= p < a + PGSIZE ensures p == a {
      SamePage(a, p);
    }
  }

  lemma OnlyOneAt(ms: seq<Mapping>, i: nat)
    requires Separate(ms) && i < |ms|
    ensures forall j | 0 <= j < |ms| && ms[j].addr == ms[i].addr :: j == i
  {
    forall j | 0 <= j < |ms| && ms[j].addr == ms[i].addr ensures j == i {
      assert MappingOk(ms[i]) && MappingOk(ms[j]);
      ExactlyOne(ms, ms[i].addr, i, j);
    }
  }

  lemma Removed(ms: seq<Mapping>, i: nat, pages: map<nat, nat>)
    requires Separate(ms) && ResidentOk(ms, pages) && i < |ms|
    ensures var r := Without(ms, i);
            && Separate(r) && (Sorted(ms) ==> Sorted(r))
            && ResidentOk(r, Cut(pages, ms[i].addr, ms[i].PageEnd()))
  {
    hide RoundUp, Cut, ResidentOk;
    var r := Without(ms, i);
    forall j | 0 <= j < |r| ensures r[j] == ms[if j < i then j else j + 1] && MappingOk(r[j]) {
    }
    forall j, k | 0 <= j < k < |r| ensures PageApart(r[j], r[k]) {
      assert PageApart(ms[if j < i then j else j + 1], ms[if k < i then k else k + 1]);
    }
    RemovedPages(ms, i, pages);
  }

  lemma RemovedPages(ms: seq<Mapping>, i: nat, pages: map<nat, nat>)
    requires ResidentOk(ms, pages) && i < |ms|
    ensures ResidentOk(Without(ms, i), Cut(pages, ms[i].addr, ms[i].PageEnd()))
  {
    hide RoundUp;
    var r := Without(ms, i);
    forall p | p in Cut(pages, ms[i].addr, ms[i].PageEnd()) && WBASE <= p < KERNBASE ensures Covered(r, p) {
      assert Covered(ms, p);
      var j :| 0 <= j < |ms| && Holds(ms[j], p);
      assert r[if j < i then j else j - 1] == ms[j];
    }
  }

  lemma Added(a: seq<Mapping>, m: Mapping, b: seq<Mapping>, pages: map<nat, nat>)
    requires Separate(a) && ResidentOk(a, pages) && WBASE <= m.addr && m.addr % PGSIZE == 0 && m.length > 0
    requires Fits(a, m.addr, m.length) && multiset(b) == multiset(a + [m])
    requires forall i, j | 0 <= i < j < |b| :: b[i].addr <= b[j].addr
    ensures ResidentOk(b, pages)
    ensures Separate(b) && Sorted(b) <==> m.End() <= KERNBASE
  {
    AppendCovers(a, m, b, pages);
    if m.End() <= KERNBASE {
      SeparateAppend(a, m);
      SeparateReordered(a + [m], b);
      SortedStrictly(b);
    } else {
      assert (a + [m])[|a|] == m;
      assert m in multiset(b);
    }
  }

  lemma NothingFits(ms: seq<Mapping>, a: nat, len: nat)
    requires Least(ms, a, len) && a + len > KERNBASE
    ensures forall b: nat | b % PGSIZE == 0 && WBASE <= b && b + len <= KERNBASE :: !Fits(ms, b, len)
  {
  }
}
