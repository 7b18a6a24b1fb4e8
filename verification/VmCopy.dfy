/**
 New address spaces: the kernel half that every one has (setupkvm), and the copy that fork makes of
 its parent's pages (copyuvm).
 */
module VmCopy {
  import opened Params
  import opened PageTable
  import opened Vm

  /** A stretch of kernel addresses: `size` bytes from `virt`, mapped to the frames from `start` on. */
  datatype Region = Region(virt: nat, size: nat, start: nat, perm: nat) {
    function First(): nat {
      virt / PGSIZE
    }

    function Last(): nat
      requires size > 0
    {
      (virt + size - 1) / PGSIZE
    }
  }

  /** Regions in the kernel half that share no page. */
  ghost predicate KmapOk(kmap: seq<Region>) {
    && (forall i | 0 <= i < |kmap| ::
          && kmap[i].size > 0 && kmap[i].virt >= KERNBASE && kmap[i].virt + kmap[i].size <= NPAGES * PGSIZE
          && kmap[i].perm % 2 == 0 && kmap[i].perm < PGSIZE)
    && (forall i, j | 0 <= i < j < |kmap| :: kmap[i].Last() < kmap[j].First() || kmap[j].Last() < kmap[i].First())
  }

  /** What the first `n` regions map page `v` to. */
  ghost function KernelEntry(kmap: seq<Region>, n: nat, v: nat): nat
    requires n <= |kmap| && KmapOk(kmap)
  {
    if n == 0 then 0
    else
      var r := kmap[n - 1];
      if r.First() <= v <= r.Last() then Entry(r.start + v - r.First(), r.perm) else KernelEntry(kmap, n - 1, v)
  }

  /** Exactly the kernel's regions are mapped. */
  ghost predicate OnlyKernel(m: Mem, d: nat, kmap: seq<Region>, n: nat)
    requires n <= |kmap| && KmapOk(kmap)
  {
    forall v: nat :: Look(m, d, v) == KernelEntry(kmap, n, v)
  }

  lemma {:induction false} KernelOnly(kmap: seq<Region>, n: nat, v: nat)
    requires n <= |kmap| && KmapOk(kmap) && v < UPAGES
    ensures KernelEntry(kmap, n, v) == 0
    decreases n
  {
    if n > 0 {
      KernelOnly(kmap, n - 1, v);
    }
  }

  lemma {:induction false} NotYet(kmap: seq<Region>, n: nat, k: nat, v: nat)
    requires n <= k < |kmap| && KmapOk(kmap) && kmap[k].First() <= v <= kmap[k].Last()
    ensures KernelEntry(kmap, n, v) == 0
    decreases n
  {
    if n > 0 {
      NotYet(kmap, n - 1, k, v);
    }
  }

  /** Everything `d` uses came off the free list that was `free0`, and the rest of that list is still free. */
  ghost predicate From(free0: seq<nat>, free: seq<nat>, d: nat, tables: map<nat, nat>, leaves: map<nat, nat>) {
    Frames(free0) == Frames(free) + Used(d, tables, leaves)
  }

  /** No more frames than a directory, all its tables and `n` pages take. */
  ghost predicate Scarce(free: seq<nat>, n: nat) {
    |free| <= 1 + NPDENTRIES + n
  }

  lemma StillScarce(free: seq<nat>, n: nat, k: nat)
    requires Scarce(free, n) && n <= k
    ensures Scarce(free, k)
  {
  }

  /** A new directory with the kernel's regions mapped, or 0 and the free frames as they were. */
  method Setupkvm(k: Memory, kmap: seq<Region>) returns (d: nat, ghost tables: map<nat, nat>)
    requires Wf(k.mem) && Chain(k.mem, k.freelist, k.free) && FreeOk(k.mem, k.free, {}) && KmapOk(kmap)
    modifies k
    ensures d == 0 ==> Wf(k.mem) && Chain(k.mem, k.freelist, k.free) && FreeOk(k.mem, k.free, {})
    ensures d == 0 ==> Frames(k.free) == Frames(old(k.free)) && Scarce(old(k.free), 0)
    ensures d != 0 ==> k.Valid(d, tables, map[]) && OnlyKernel(k.mem, d, kmap, |kmap|)
    ensures d != 0 ==> From(old(k.free), k.free, d, tables, map[])
    ensures Untouched(old(k.mem), k.mem, Frames(old(k.free)))
  {
    hide Walkable, LeavesOk, FreeOk, Chain, Look, Untouched, OnlyKernel, Mapped, Tabled, From, Frames, KmapOk;
    tables := map[];
    ghost var m0, free0 := k.mem, k.free;
    UntouchedNone(m0, Frames(free0));
    d := k.Kalloc({});
    if d == 0 {
      return;
    }
    k.mem := k.mem[d := Filled(0)];
    NewDirectory(m0, k.mem, k.freelist, k.free, free0, d, kmap);
    assert {} + {d} == Used(d, map[], map[]);
    for i := 0 to |kmap|
      invariant d != 0 && k.Valid(d, tables, map[]) && OnlyKernel(k.mem, d, kmap, i)
      invariant From(free0, k.free, d, tables, map[]) && Untouched(m0, k.mem, Frames(free0))
    {
      ghost var m1, free1, t1 := k.mem, k.free, tables;
      var r := kmap[i];
      RegionFree(m1, d, kmap, i);
      ghost var n;
      var ok;
      ok, tables, n := k.Mappages(d, r.virt, r.size, r.start, r.perm, t1, Used(d, t1, map[]));
      MoreFrom(m0, m1, k.mem, free0, free1, k.free, d, t1, tables);
      RegionMapped(m1, k.mem, d, t1, tables, kmap, i, n);
      if !ok {
        ghost var m2 := k.mem;
        FromIs(free0, k.free, d, tables, map[]);
        SpentCount(m0, m2, free0, k.free, d, tables, map[], 0);
        k.Freevm(d, tables, map[]);
        UntouchedMore(m0, m2, k.mem, Frames(free0), Frames(free0)) by {
          UntouchedWider(m2, k.mem, Used(d, tables, map[]), Frames(free0));
        }
        return 0, tables;
      }
    }
  }

  lemma NewDirectory(m0: Mem, m: Mem, head: nat, free: seq<nat>, free0: seq<nat>, d: nat, kmap: seq<Region>)
    requires Wf(m0) && d in m0 && m == m0[d := Filled(0)] && FreeOk(m0, free, {} + {d}) && Chain(m0, head, free)
    requires Frames(free0) == Frames(free) + {d} && KmapOk(kmap)
    ensures Walkable(m, d, map[]) && LeavesOk(m, d, map[], map[]) && FreeOk(m, free, Used(d, map[], map[]))
    ensures Chain(m, head, free) && OnlyKernel(m, d, kmap, 0)
    ensures From(free0, free, d, map[], map[]) && Untouched(m0, m, Frames(free0))
  {
    forall v: nat ensures Look(m, d, v) == 0 {
    }
    assert Untouched(m0, m, {d});
    ChainKept(m0, m, head, free, {} + {d});
  }

  lemma RegionFree(m: Mem, d: nat, kmap: seq<Region>, i: nat)
    requires KmapOk(kmap) && i < |kmap| && OnlyKernel(m, d, kmap, i)
    ensures var r := kmap[i];
            && r.size > 0 && r.virt + r.size <= NPAGES * PGSIZE && r.perm % 2 == 0 && r.perm < PGSIZE
            && forall v | r.virt / PGSIZE <= v <= (r.virt + r.size - 1) / PGSIZE :: Look(m, d, v) == 0
  {
    hide Look;
    var r := kmap[i];
    forall v | r.virt / PGSIZE <= v <= (r.virt + r.size - 1) / PGSIZE ensures Look(m, d, v) == 0 {
      NotYet(kmap, i, i, v);
    }
  }

  lemma MoreFrom(m0: Mem, m1: Mem, m2: Mem, free0: seq<nat>, free1: seq<nat>, free2: seq<nat>, d: nat,
                 t1: map<nat, nat>, t2: map<nat, nat>)
    requires From(free0, free1, d, t1, map[]) && Tabled(t1, t2, free1, free2)
    requires Untouched(m0, m1, Frames(free0)) && Untouched(m1, m2, {d} + t2.Keys)
    ensures From(free0, free2, d, t2, map[]) && Untouched(m0, m2, Frames(free0))
    ensures Used(d, t1, map[]) + t2.Keys == Used(d, t2, map[])
  {
    hide Frames;
    assert Used(d, t2, map[]) == {d} + t2.Keys;
    assert Used(d, t1, map[]) == {d} + t1.Keys;
    UntouchedWider(m1, m2, {d} + t2.Keys, Frames(free0));
  }

  ghost predicate FewFree(free: seq<nat>) {
    |free| <= 1
  }

  lemma PageInside(v: nat, sz: nat)
    requires v * PGSIZE < sz <= KERNBASE
    ensures v < Pages(sz) && v < UPAGES
  {
    PagesIs(v, sz);
  }

  lemma AllInside(v: nat, sz: nat)
    requires v * PGSIZE >= sz && v <= Pages(sz)
    ensures v == Pages(sz)
  {
    PagesIs(v, sz);
  }

  lemma LastScarce(free: seq<nat>, v: nat, sz: nat)
    requires Scarce(free, v + 1) && v * PGSIZE < sz
    ensures Scarce(free, Pages(sz))
  {
    PagesIs(v, sz);
  }

  ghost predicate AtMost(leaves: map<nat, nat>, n: nat) {
    |leaves| <= n
  }

  lemma OneMore(leaves: map<nat, nat>, n: nat, f: nat, v: nat)
    requires AtMost(leaves, n)
    ensures AtMost(leaves[f := v], n + 1)
  {
  }

  /** What is missing from the free list is in use by `d`. */
  lemma SpentCount(m0: Mem, m: Mem, free0: seq<nat>, free: seq<nat>, d: nat, tables: map<nat, nat>, leaves: map<nat, nat>,
                   n: nat)
    requires From(free0, free, d, tables, leaves) && Walkable(m, d, tables) && AtMost(leaves, n)
    requires FreeOk(m0, free0, {}) && FreeOk(m, free, Used(d, tables, leaves))
    ensures free == [] ==> Scarce(free0, n)
    ensures FewFree(free) ==> Scarce(free0, n + 1)
  {
    hide Walkable, Used;
    FrameCount(free0);
    FrameCount(free);
    UnionCount(Frames(free), Used(d, tables, leaves));
    UsedCount(m, d, tables, leaves);
  }

  lemma FromIs(free0: seq<nat>, free: seq<nat>, d: nat, tables: map<nat, nat>, leaves: map<nat, nat>)
    requires From(free0, free, d, tables, leaves)
    ensures Frames(free0) == Frames(free) + Used(d, tables, leaves)
  {
  }

  lemma RegionMapped(m1: Mem, m2: Mem, d: nat, t1: map<nat, nat>, t2: map<nat, nat>, kmap: seq<Region>, i: nat, n: nat)
    requires KmapOk(kmap) && i < |kmap| && OnlyKernel(m1, d, kmap, i) && LeavesOk(m1, d, t1, map[])
    requires n <= kmap[i].Last() - kmap[i].First() + 1
    requires kmap[i].perm % 2 == 0 && kmap[i].perm < PGSIZE && Mapped(m1, m2, d, kmap[i].First(), n, kmap[i].start, kmap[i].perm)
    ensures LeavesOk(m2, d, t2, map[])
    ensures n == kmap[i].Last() - kmap[i].First() + 1 ==> OnlyKernel(m2, d, kmap, i + 1)
  {
    hide Look;
    forall v | 0 <= v < UPAGES ensures Look(m2, d, v) == 0 {
      KernelOnly(kmap, i, v);
    }
  }

  // ----- Copying a parent

  /** Page `v` of `d` has the flags and the contents that page `v` of `pd` had, in a frame of its own. */
  ghost predicate CopiedAt(m0: Mem, m: Mem, pd: nat, d: nat, v: nat) {
    var w0, w := Look(m0, pd, v), Look(m, d, v);
    && Present(w) && w % PGSIZE == w0 % PGSIZE
    && FrameOf(w) in m && FrameOf(w0) in m0 && m[FrameOf(w)] == m0[FrameOf(w0)]
  }

  /** The first `n` pages are copies of the parent's; beyond them only the kernel is mapped. */
  ghost predicate Copied(m0: Mem, m: Mem, pd: nat, d: nat, n: nat, kmap: seq<Region>)
    requires KmapOk(kmap)
  {
    forall v: nat :: if v < n then CopiedAt(m0, m, pd, d, v) else Look(m, d, v) == KernelEntry(kmap, |kmap|, v)
  }

  /** A child's directory with copies of the parent's pages below `sz`, or 0 and the free frames as they were. */
  method Copyuvm(k: Memory, pd: nat, sz: nat, kmap: seq<Region>, ghost tables: map<nat, nat>, ghost leaves: map<nat, nat>)
    returns (d: nat, ghost tables': map<nat, nat>, ghost leaves': map<nat, nat>)
    requires k.Valid(pd, tables, leaves) && KmapOk(kmap) && sz <= KERNBASE
    // the code panics on a parent page that is not present
    requires forall v | 0 <= v < Pages(sz) :: Look(k.mem, pd, v) != 0
    modifies k
    ensures k.Valid(pd, tables, leaves) && SameLook(old(k.mem), k.mem, pd)
    ensures d == 0 ==> Frames(k.free) == Frames(old(k.free)) && Scarce(old(k.free), Pages(sz))
    ensures d != 0 ==> k.Valid(d, tables', leaves') && From(old(k.free), k.free, d, tables', leaves')
    ensures d != 0 ==> Copied(old(k.mem), k.mem, pd, d, Pages(sz), kmap)
    ensures Untouched(old(k.mem), k.mem, Frames(old(k.free)))
  {
    hide Walkable, LeavesOk, FreeOk, Chain, Look, Untouched, OnlyKernel, Mapped, From, Frames, KmapOk, Copied, SameLook, AtMost, Pages, Scarce;
    ghost var m0, free0 := k.mem, k.free;
    leaves' := map[];
    WellFormed(m0, pd, tables);
    SubFree(m0, free0, Used(pd, tables, leaves), {});
    d, tables' := Setupkvm(k, kmap);
    if d == 0 {
      assert Scarce(free0, Pages(sz)) by {
        StillScarce(free0, 0, Pages(sz));
      }
      ParentOk(m0, k.mem, free0, k.free, pd, tables, leaves, {});
      return;
    }
    NoneCopied(m0, k.mem, pd, d, kmap);
    var v := 0;
    while v * PGSIZE < sz
      invariant v <= Pages(sz) && d != 0 && k.Valid(d, tables', leaves') && From(free0, k.free, d, tables', leaves')
      invariant Untouched(m0, k.mem, Frames(free0)) && Copied(m0, k.mem, pd, d, v, kmap) && AtMost(leaves', v)
    {
      PageInside(v, sz);
      var ok;
      ok, tables', leaves' := CopyPage(k, pd, d, v, kmap, m0, free0, tables, leaves, tables', leaves');
      if !ok {
        LastScarce(free0, v, sz);
        ParentOk(m0, k.mem, free0, k.free, pd, tables, leaves, {});
        return 0, tables', leaves';
      }
      v := v + 1;
    }
    AllInside(v, sz);
    FromIs(free0, k.free, d, tables', leaves');
    WellFormed(k.mem, d, tables');
    ParentOk(m0, k.mem, free0, k.free, pd, tables, leaves, Used(d, tables', leaves'));
  }

  /** Copy page `v` of the parent, or free the whole child. */
  method CopyPage(k: Memory, pd: nat, d: nat, v: nat, kmap: seq<Region>, ghost m0: Mem, ghost free0: seq<nat>,
                  ghost tables: map<nat, nat>, ghost leaves: map<nat, nat>, ghost t1: map<nat, nat>, ghost l1: map<nat, nat>)
    returns (ok: bool, ghost t2: map<nat, nat>, ghost l2: map<nat, nat>)
    requires Walkable(m0, pd, tables) && LeavesOk(m0, pd, tables, leaves) && FreeOk(m0, free0, Used(pd, tables, leaves))
    requires KmapOk(kmap) && v < UPAGES && Look(m0, pd, v) != 0
    requires k.Valid(d, t1, l1) && From(free0, k.free, d, t1, l1) && Untouched(m0, k.mem, Frames(free0))
    requires Copied(m0, k.mem, pd, d, v, kmap) && AtMost(l1, v)
    modifies k
    ensures ok ==> k.Valid(d, t2, l2) && From(free0, k.free, d, t2, l2) && Copied(m0, k.mem, pd, d, v + 1, kmap) && AtMost(l2, v + 1)
    ensures !ok ==> Wf(k.mem) && Chain(k.mem, k.freelist, k.free) && FreeOk(k.mem, k.free, {})
    ensures !ok ==> Frames(k.free) == Frames(free0) && Scarce(free0, v + 1)
    ensures Untouched(m0, k.mem, Frames(free0))
  {
    hide Walkable, LeavesOk, FreeOk, Chain, Look, Untouched, Mapped, From, Frames, KmapOk, Copied, SameLook, Entry, AtMost, PermIs, Scarce;
    ghost var m1, free1 := k.mem, k.free;
    SubFree(m0, free0, Used(pd, tables, leaves), {});
    FromIs(free0, k.free, d, t1, l1);
    WellFormed(m1, d, t1);
    ParentOk(m0, m1, free0, k.free, pd, tables, leaves, Used(d, t1, l1));
    SameAt(m0, m1, pd, v);
    var w, perm, page := ParentPage(k, pd, v, tables, leaves);
    ParentSame(m0, m1, free0, pd, tables, leaves, FrameOf(w));
    NextAbsent(m0, m1, pd, d, v, kmap);
    var f;
    f, ok, t2 := k.AddPage(d, v, page, perm, t1, l1);
    if !ok {
      SpentCount(m0, m1, free0, free1, d, t1, l1, v);
      GiveUp(k, d, f, m0, m1, free0, free1, t1, t2, l1);
      return false, t2, l1;
    }
    MoreCopied(m0, m1, k.mem, pd, d, v, kmap, f, w, perm, page, t1, t2, l1);
    AddedFrames(m0, m1, k.mem, free0, free1, k.free, d, f, t1, t2, l1, v);
    OneMore(l1, v, f, v);
    l2 := l1[f := v];
  }

  /** Free all of a copy that cannot be completed. */
  method GiveUp(k: Memory, d: nat, f: nat, ghost m0: Mem, ghost m1: Mem, ghost free0: seq<nat>, ghost free1: seq<nat>,
                ghost t1: map<nat, nat>, ghost tables: map<nat, nat>, ghost leaves: map<nat, nat>)
    requires k.Valid(d, tables, leaves) && (f != 0 ==> f in k.mem && f !in k.free && f !in Used(d, tables, leaves))
    requires From(free0, free1, d, t1, leaves) && Untouched(m0, m1, Frames(free0)) && Untouched(m1, k.mem, {d, f} + tables.Keys)
    requires if f == 0 then tables == t1 && k.free == free1 && k.mem == m1
             else Frames(free1) + t1.Keys == Frames(k.free) + tables.Keys + {f}
    modifies k
    ensures Wf(k.mem) && Chain(k.mem, k.freelist, k.free) && FreeOk(k.mem, k.free, {})
    ensures Frames(k.free) == Frames(free0) && Untouched(m0, k.mem, Frames(free0))
  {
    hide Walkable, LeavesOk, FreeOk, Chain, Look, Untouched, From, Frames;
    MissedFrames(m0, m1, k.mem, free0, free1, k.free, d, f, t1, tables, leaves);
    ghost var m2, free2 := k.mem, k.free;
    WellFormed(m2, d, tables);
    Discard(k, d, f, tables, leaves);
    Dropped(m0, m2, k.mem, free0, free2, k.free, d, f, tables, leaves);
  }

  /** The entry and the contents of a page that is present. */
  method ParentPage(k: Memory, pd: nat, v: nat, ghost tables: map<nat, nat>, ghost leaves: map<nat, nat>)
    returns (w: nat, perm: nat, page: seq<nat>)
    requires k.Valid(pd, tables, leaves) && v < UPAGES && Look(k.mem, pd, v) != 0
    modifies k
    ensures k.mem == old(k.mem) && k.free == old(k.free) && Chain(k.mem, k.freelist, k.free)
    ensures w == Look(k.mem, pd, v) && Present(w) && FrameOf(w) in leaves && FrameOf(w) in k.mem
    ensures perm % 2 == 0 && perm < PGSIZE && PermIs(w, perm)
    ensures page == k.mem[FrameOf(w)] && |page| == 1024
  {
    hide FreeOk, Chain, Look;
    EntryOf(k.mem, pd, tables, v);
    var t, tables' := k.Walkpgdir(pd, v, false, tables, Used(pd, tables, leaves));
    EntryOf(k.mem, pd, tables, v);
    w := k.mem[t][v % NPTENTRIES];
    page := k.mem[FrameOf(w)];
    PermOf(w);
    perm := w % PGSIZE - 1;
  }

  /** Give up a directory, and the frame in hand if there is one. */
  method Discard(k: Memory, d: nat, f: nat, ghost tables: map<nat, nat>, ghost leaves: map<nat, nat>)
    requires k.Valid(d, tables, leaves) && (f != 0 ==> f in k.mem && f !in k.free && f !in Used(d, tables, leaves))
    modifies k
    ensures Wf(k.mem) && Chain(k.mem, k.freelist, k.free) && FreeOk(k.mem, k.free, {})
    ensures Frames(k.free) == Frames(old(k.free)) + Used(d, tables, leaves) + (if f == 0 then {} else {f})
    ensures Untouched(old(k.mem), k.mem, Used(d, tables, leaves) + {f})
  {
    hide Walkable, LeavesOk, FreeOk, Chain, Look, Untouched;
    ghost var m0, used := k.mem, Used(d, tables, leaves);
    UntouchedNone(m0, used + {f});
    if f != 0 {
      WellFormed(m0, d, tables);
      InHand(m0, k.free, used, f);
      k.Kfree(f, used + {f});
      assert used + {f} - {f} == used;
      PageFilled(m0, d, tables, f, k.mem[f]);
      LeavesKept(m0, k.mem, d, tables, tables, leaves) by {
        TablesApart(m0, d, tables, leaves);
      }
      UntouchedWider(m0, k.mem, {f}, used + {f});
    }
    ghost var m1 := k.mem;
    k.Freevm(d, tables, leaves);
    UntouchedMore(m0, m1, k.mem, used + {f}, used + {f}) by {
      UntouchedWider(m1, k.mem, used, used + {f});
    }
  }

  lemma ParentOk(m0: Mem, m: Mem, free0: seq<nat>, free: seq<nat>, pd: nat, tables: map<nat, nat>, leaves: map<nat, nat>,
                 used: set<nat>)
    requires Walkable(m0, pd, tables) && LeavesOk(m0, pd, tables, leaves) && FreeOk(m0, free0, Used(pd, tables, leaves))
    requires Frames(free) <= Frames(free0) && FreeOk(m, free, used) && Untouched(m0, m, Frames(free0)) && Wf(m)
    ensures Walkable(m, pd, tables) && LeavesOk(m, pd, tables, leaves) && FreeOk(m, free, Used(pd, tables, leaves))
    ensures SameLook(m0, m, pd)
  {
    forall f | f in Used(pd, tables, leaves) && f in m0 ensures f in m && m[f] == m0[f] {
      assert f in m.Keys;
    }
    assert Walkable(m, pd, tables) by {
      SpaceSame(m0, m, pd, tables);
    }
    forall v: nat ensures Look(m, pd, v) == Look(m0, pd, v) {
      if v < NPAGES {
        EntryOf(m0, pd, tables, v);
        EntryOf(m, pd, tables, v);
      }
    }
    LeavesKept(m0, m, pd, tables, tables, leaves);
    forall f | f in free ensures f !in Used(pd, tables, leaves) {
      assert f in Frames(free);
    }
  }

  lemma SpaceSame(m0: Mem, m: Mem, pd: nat, tables: map<nat, nat>)
    requires Walkable(m0, pd, tables) && m.Keys == m0.Keys && m[pd] == m0[pd] && Wf(m)
    ensures Walkable(m, pd, tables)
  {
  }

  lemma ParentSame(m0: Mem, m: Mem, free0: seq<nat>, pd: nat, tables: map<nat, nat>, leaves: map<nat, nat>, f: nat)
    requires FreeOk(m0, free0, Used(pd, tables, leaves)) && Untouched(m0, m, Frames(free0)) && f in leaves && f in m
    ensures f in m0 && m[f] == m0[f]
  {
    assert f in m.Keys;
  }

  lemma NoneCopied(m0: Mem, m: Mem, pd: nat, d: nat, kmap: seq<Region>)
    requires KmapOk(kmap) && OnlyKernel(m, d, kmap, |kmap|)
    ensures Copied(m0, m, pd, d, 0, kmap) && AtMost(map[], 0)
  {
  }

  lemma NextAbsent(m0: Mem, m: Mem, pd: nat, d: nat, v: nat, kmap: seq<Region>)
    requires KmapOk(kmap) && Copied(m0, m, pd, d, v, kmap) && v < UPAGES
    ensures Look(m, d, v) == 0
  {
    KernelOnly(kmap, |kmap|, v);
  }

  /** The flags of a present entry without PTE_P. */
  ghost predicate PermIs(w: nat, perm: nat) {
    perm + PTE_P == w % PGSIZE
  }

  lemma PermOf(w: nat)
    requires Present(w)
    ensures w % PGSIZE >= 1 && (w % PGSIZE - 1) % 2 == 0 && w % PGSIZE - 1 < PGSIZE
  {
    var low := w % PGSIZE;
    assert w == 2 * (w / PGSIZE * 2048) + low;
    assert low % 2 == 1;
  }

  lemma LowBits(f: nat, perm: nat)
    requires perm % 2 == 0 && perm < PGSIZE
    ensures Entry(f, perm) % PGSIZE == perm + PTE_P
  {
    assert (f * PGSIZE + perm + PTE_P) % PGSIZE == perm + PTE_P;
  }

  lemma MoreCopied(m0: Mem, m1: Mem, m2: Mem, pd: nat, d: nat, n: nat, kmap: seq<Region>, f: nat, w: nat, perm: nat,
                   page: seq<nat>, t1: map<nat, nat>, t2: map<nat, nat>, l1: map<nat, nat>)
    requires KmapOk(kmap) && Copied(m0, m1, pd, d, n, kmap) && n < UPAGES && f !in l1
    requires Present(w) && w == Look(m0, pd, n) && FrameOf(w) in m0 && page == m0[FrameOf(w)]
    requires perm % 2 == 0 && perm < PGSIZE && PermIs(w, perm)
    requires Mapped(m1, m2, d, n, 1, f, perm) && f in m2 && m2[f] == page
    requires Untouched(m1, m2, {d, f} + t2.Keys) && LeavesOk(m1, d, t1, l1) && LeavesOk(m2, d, t2, l1[f := n])
    ensures Copied(m0, m2, pd, d, n + 1, kmap)
  {
    hide Look;
    LowBits(f, perm);
    forall v: nat
      ensures if v < n + 1 then CopiedAt(m0, m2, pd, d, v) else Look(m2, d, v) == KernelEntry(kmap, |kmap|, v)
    {
      if v < n {
        assert CopiedAt(m0, m1, pd, d, v);
        var g := FrameOf(Look(m1, d, v));
        assert g in l1 && g in l1[f := n];
      }
    }
  }

  // ----- Where the frames went

  lemma MissedFrames(m0: Mem, m1: Mem, m2: Mem, free0: seq<nat>, free1: seq<nat>, free2: seq<nat>, d: nat, f: nat,
                     t1: map<nat, nat>, t2: map<nat, nat>, l1: map<nat, nat>)
    requires From(free0, free1, d, t1, l1) && Untouched(m0, m1, Frames(free0)) && Untouched(m1, m2, {d, f} + t2.Keys)
    requires if f == 0 then t2 == t1 && free2 == free1 && m2 == m1
             else Frames(free1) + t1.Keys == Frames(free2) + t2.Keys + {f}
    ensures Frames(free0) == Frames(free2) + Used(d, t2, l1) + (if f == 0 then {} else {f})
    ensures Untouched(m0, m2, Frames(free0))
  {
    hide Frames;
    if f != 0 {
      assert Frames(free1) + Used(d, t1, l1) == (Frames(free1) + t1.Keys) + {d} + l1.Keys;
      UntouchedWider(m1, m2, {d, f} + t2.Keys, Frames(free0));
    }
  }

  lemma Dropped(m0: Mem, m2: Mem, m3: Mem, free0: seq<nat>, free2: seq<nat>, free3: seq<nat>, d: nat, f: nat,
                tables: map<nat, nat>, leaves: map<nat, nat>)
    requires Frames(free0) == Frames(free2) + Used(d, tables, leaves) + (if f == 0 then {} else {f})
    requires Frames(free3) == Frames(free2) + Used(d, tables, leaves) + (if f == 0 then {} else {f})
    requires Wf(m2) && Untouched(m0, m2, Frames(free0)) && Untouched(m2, m3, Used(d, tables, leaves) + {f})
    ensures Frames(free3) == Frames(free0) && Untouched(m0, m3, Frames(free0))
  {
    hide Frames;
    forall g | g in m2 && g !in Frames(free0) ensures m3[g] == m2[g] {
      assert g !in Used(d, tables, leaves) + {f};
    }
  }

  lemma AddedFrames(m0: Mem, m1: Mem, m2: Mem, free0: seq<nat>, free1: seq<nat>, free2: seq<nat>, d: nat, f: nat,
                    t1: map<nat, nat>, t2: map<nat, nat>, l1: map<nat, nat>, v: nat)
    requires From(free0, free1, d, t1, l1) && Untouched(m0, m1, Frames(free0)) && Untouched(m1, m2, {d, f} + t2.Keys)
    requires Frames(free1) + t1.Keys == Frames(free2) + t2.Keys + {f}
    ensures From(free0, free2, d, t2, l1[f := v]) && Untouched(m0, m2, Frames(free0))
  {
    hide Frames;
    assert l1[f := v].Keys == l1.Keys + {f};
    assert Frames(free1) + Used(d, t1, l1) == (Frames(free1) + t1.Keys) + {d} + l1.Keys;
    UntouchedWider(m1, m2, {d, f} + t2.Keys, Frames(free0));
  }
}
