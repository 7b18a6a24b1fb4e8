/**
 Page tables in physical memory: the frame allocator (kalloc.c) and the routines that walk,
 extend, empty and free an address space (vm.c).

 `d` is always the frame of a page directory.  The ghost parameters say which frames are its tables
 (and for which slot) and which are its user pages (and at which page).
 */
module Vm {
  import opened Params
  import opened PageTable


  /** A freed frame: every byte 1, then the link in its first word. */
  function Junk(next: nat): (page: seq<nat>)
    ensures |page| == 1024 && page[0] == next
  {
    Filled(0x0101_0101)[0 := next]
  }

  predicate Between(lo: nat, f: nat, hi: nat) {
    lo <= f < hi
  }

  ghost function Range(lo: nat, hi: nat): set<nat> {
    set f | 0 <= f < hi && Between(lo, f, hi)
  }

  const UPERM: nat := 6      // PTE_W | PTE_U

  /** Pages `first` to `first + k` map consecutive frames from `pf`; the others are as they were. */
  ghost predicate Mapped(m: Mem, m': Mem, d: nat, first: nat, k: nat, pf: nat, perm: nat)
    requires perm % 2 == 0 && perm < PGSIZE
  {
    forall v: nat :: Look(m', d, v) == if first <= v < first + k then Entry(pf + v - first, perm) else Look(m, d, v)
  }

  /** New tables came off the front of the free list, and nothing else did. */
  ghost predicate Tabled(tables: map<nat, nat>, tables': map<nat, nat>, free: seq<nat>, free': seq<nat>) {
    && tables.Keys <= tables'.Keys && Frames(free') <= Frames(free) && |free'| <= |free|
    && Frames(free) + tables.Keys == Frames(free') + tables'.Keys
  }

  class Memory {
    var mem: Mem
    var freelist: nat
    ghost var free: seq<nat>

    /** Directory `d` with its tables, and the free list, within the frames in use. */
    ghost predicate Base(d: nat, tables: map<nat, nat>, used: set<nat>)
      reads this
    {
      && Walkable(mem, d, tables) && d in used && tables.Keys <= used
      && FreeOk(mem, free, used) && Chain(mem, freelist, free)
    }

    ghost predicate Valid(d: nat, tables: map<nat, nat>, leaves: map<nat, nat>)
      reads this
    {
      LeavesOk(mem, d, tables, leaves) && Base(d, tables, Used(d, tables, leaves))
    }

    method Kalloc(ghost used: set<nat>) returns (r: nat)
      requires Wf(mem) && Chain(mem, freelist, free) && FreeOk(mem, free, used)
      modifies this`freelist, this`free
      ensures r == 0 <==> old(free) == []
      ensures r == 0 ==> free == old(free) && freelist == old(freelist)
      ensures r != 0 ==> r == old(free)[0] && free == old(free)[1..] && r in mem && r !in used
      ensures r != 0 ==> Frames(old(free)) == Frames(free) + {r} && FreeOk(mem, free, used + {r})
      ensures Chain(mem, freelist, free)
    {
      r := freelist;
      if r != 0 {
        TookFirst(mem, freelist, free, used);
        freelist := mem[r][0];
        free := free[1..];
      }
    }

    method Kfree(f: nat, ghost used: set<nat>)
      requires Wf(mem) && Chain(mem, freelist, free) && FreeOk(mem, free, used) && f in used && f in mem
      modifies this
      ensures free == [f] + old(free) && Frames(free) == Frames(old(free)) + {f}
      ensures Wf(mem) && Chain(mem, freelist, free) && FreeOk(mem, free, used - {f})
      ensures mem == old(mem)[f := Junk(old(freelist))]
    {
      GaveBack(mem, freelist, free, used, f, Junk(freelist));
      mem := mem[f := Junk(freelist)];
      freelist := f;
      free := [f] + free;
    }

    /** Free every whole frame between two addresses. */
    method Freerange(vstart: nat, vend: nat, ghost used: set<nat>)
      requires Wf(mem) && Chain(mem, freelist, free) && FreeOk(mem, free, used)
      requires forall f | Pages(vstart) <= f < vend / PGSIZE :: f in used && f in mem
      modifies this
      ensures Wf(mem) && Chain(mem, freelist, free) && FreeOk(mem, free, used - Range(Pages(vstart), vend / PGSIZE))
      ensures Frames(free) == Frames(old(free)) + Range(Pages(vstart), vend / PGSIZE)
    {
      hide Chain, FreeOk, Frames, Junk;
      var p := Pages(vstart);
      ghost var lo, hi := p, vend / PGSIZE;
      assert used - Range(lo, lo) == used;
      assert (p + 1) * PGSIZE <= vend <==> p < hi;
      while (p + 1) * PGSIZE <= vend
        invariant lo <= p && (p <= hi || p == lo) && ((p + 1) * PGSIZE <= vend <==> p < hi) && mem.Keys == old(mem).Keys
        invariant Wf(mem) && Chain(mem, freelist, free) && FreeOk(mem, free, used - Range(lo, p))
        invariant Frames(free) == Frames(old(free)) + Range(lo, p)
      {
        Kfree(p, used - Range(lo, p));
        assert Range(lo, p + 1) == Range(lo, p) + {p};
        assert used - Range(lo, p) - {p} == used - Range(lo, p + 1);
        p := p + 1;
      }
      assert Range(lo, p) == Range(lo, hi);
    }

    /** The table that holds the entry of page `v`, or 0; with `alloc`, add the table if it is missing. */
    method Walkpgdir(d: nat, v: nat, alloc: bool, ghost tables: map<nat, nat>, ghost used: set<nat>)
      returns (t: nat, ghost tables': map<nat, nat>)
      requires Base(d, tables, used) && v < NPAGES
      modifies this
      ensures Base(d, tables', used + tables'.Keys) && SameLook(old(mem), mem, d)
      ensures t == 0 <==> old(!Present(mem[d][v / NPTENTRIES])) && (!alloc || old(free) == [])
      ensures t == 0 || !alloc ==> mem == old(mem) && free == old(free) && tables' == tables
      ensures t != 0 ==> Present(mem[d][v / NPTENTRIES]) && FrameOf(mem[d][v / NPTENTRIES]) == t && t in tables'
      ensures Tabled(tables, tables', old(free), free) && |old(free)| <= |free| + 1
      ensures Untouched(old(mem), mem, {d} + tables'.Keys)
    {
      SlotOf(v);
      var pde := mem[d][v / NPTENTRIES];
      tables' := tables;
      if Present(pde) {
        t := FrameOf(pde);
        assert used + tables.Keys == used;
        return;
      }
      assert used + tables.Keys == used;
      if !alloc {
        return 0, tables;
      }
      t := Kalloc(used);
      if t == 0 {
        return;
      }
      tables' := tables[t := v / NPTENTRIES];
      OpenEntry(t);
      TableAdded(mem, d, tables, t, v / NPTENTRIES, PTE_W + PTE_U);
      ghost var m := mem;
      mem := mem[t := Filled(0)];
      var page: seq<nat> := mem[d][v / NPTENTRIES := Entry(t, PTE_W + PTE_U)];
      mem := mem[d := page];
      assert used + tables'.Keys == used + {t};
      ChainKept(m, mem, freelist, free, used + {t});
    }

    /** Map the pages from `va` to `va + size` to consecutive frames from `pf`.  `k` pages were mapped. */
    method Mappages(d: nat, va: nat, size: nat, pf: nat, perm: nat, ghost tables: map<nat, nat>, ghost used: set<nat>)
      returns (ok: bool, ghost tables': map<nat, nat>, ghost k: nat)
      requires Base(d, tables, used) && size > 0 && va + size <= NPAGES * PGSIZE && perm % 2 == 0 && perm < PGSIZE
      // the code panics on a page that is already mapped
      requires forall v | va / PGSIZE <= v <= (va + size - 1) / PGSIZE :: Look(mem, d, v) == 0
      modifies this
      ensures Base(d, tables', used + tables'.Keys)
      ensures Mapped(old(mem), mem, d, va / PGSIZE, k, pf, perm)
      ensures if ok then k == (va + size - 1) / PGSIZE - va / PGSIZE + 1
              else k <= (va + size - 1) / PGSIZE - va / PGSIZE && free == []
      ensures Tabled(tables, tables', old(free), free) && |old(free)| <= |free| + k
      ensures Untouched(old(mem), mem, {d} + tables'.Keys)
    {
      hide Walkable, FreeOk, Chain, Look, Mapped, Tabled, Untouched;
      ghost var m0, first := mem, va / PGSIZE;
      var a, last := va / PGSIZE, (va + size - 1) / PGSIZE;
      var pa := pf;
      tables' := tables;
      k := 0;
      MappedNone(mem, d, first, pf, perm, tables, free);
      assert used + tables.Keys == used;
      while true
        invariant first <= a <= last && k == a - first && pa == pf + k
        invariant Base(d, tables', used + tables'.Keys) && Mapped(m0, mem, d, first, k, pf, perm)
        invariant Tabled(tables, tables', old(free), free) && |old(free)| <= |free| + k
        invariant Untouched(m0, mem, {d} + tables'.Keys)
        decreases last - a
      {
        ghost var m1, t1, free1 := mem, tables', free;
        MappedBefore(m0, mem, d, first, k, pf, perm);
        ok, tables' := MapPage(d, a, pa, perm, t1, used + t1.Keys);
        TabledMore(tables, t1, tables', old(free), free1, free);
        assert used + t1.Keys + tables'.Keys == used + tables'.Keys;
        UntouchedMore(m0, m1, mem, {d} + t1.Keys, {d} + tables'.Keys);
        if !ok {
          MappedSame(m0, m1, mem, d, first, k, pf, perm);
          return;
        }
        MappedOne(m0, m1, mem, d, first, k, pf, perm);
        k := k + 1;
        if a == last {
          return;
        }
        a := a + 1;
        pa := pa + 1;
      }
    }

    /** Enter page `v` with frame `pf`, adding a table if need be; false if there is no frame for it. */
    method MapPage(d: nat, v: nat, pf: nat, perm: nat, ghost tables: map<nat, nat>, ghost used: set<nat>)
      returns (ok: bool, ghost tables': map<nat, nat>)
      requires Base(d, tables, used) && v < NPAGES && Look(mem, d, v) == 0 && perm % 2 == 0 && perm < PGSIZE
      modifies this
      ensures Base(d, tables', used + tables'.Keys) && tables.Keys <= tables'.Keys
      ensures ok ==> forall u: nat :: Look(mem, d, u) == if u == v then Entry(pf, perm) else Look(old(mem), d, u)
      ensures !ok ==> free == [] && SameLook(old(mem), mem, d)
      ensures Tabled(tables, tables', old(free), free) && |old(free)| <= |free| + (if ok then 1 else 0)
      ensures Untouched(old(mem), mem, {d} + tables'.Keys)
    {
      hide Walkable, FreeOk, Chain, Look, Tabled, Untouched;
      ghost var m0 := mem;
      var t;
      t, tables' := Walkpgdir(d, v, true, tables, used);
      TabledGrows(tables, tables', old(free), free);
      if t == 0 {
        return false, tables';
      }
      ghost var m1 := mem;
      TableFrame(mem, d, tables', v, t);
      NotPresent(mem, d, tables', v);
      assert !Present(mem[t][v % NPTENTRIES]);    // so there is no "remap" panic
      EntryWritten(mem, d, tables', v, Entry(pf, perm));
      var page: seq<nat> := mem[t][v % NPTENTRIES := Entry(pf, perm)];
      mem := mem[t := page];
      ChainKept(m1, mem, freelist, free, used + tables'.Keys) by {
        UntouchedWider(m1, mem, tables'.Keys, used + tables'.Keys);
      }
      UntouchedMore(m0, m1, mem, {d} + tables'.Keys, {d} + tables'.Keys) by {
        UntouchedWider(m1, mem, tables'.Keys, {d} + tables'.Keys);
      }
      return true, tables';
    }

    /** Remove the user pages between the two sizes; whole absent tables are skipped. */
    method Deallocuvm(d: nat, oldsz: nat, newsz: nat, ghost tables: map<nat, nat>, ghost leaves: map<nat, nat>)
      returns (r: nat, ghost leaves': map<nat, nat>)
      requires Valid(d, tables, leaves) && oldsz <= KERNBASE
      modifies this
      ensures Valid(d, tables, leaves')
      ensures r == if newsz >= oldsz then oldsz else newsz
      ensures newsz >= oldsz ==> mem == old(mem) && free == old(free) && leaves' == leaves
      ensures newsz < oldsz ==> Emptied(old(mem), mem, d, Pages(newsz), Pages(oldsz), leaves, leaves', old(free), free)
      ensures Untouched(old(mem), mem, tables.Keys + leaves.Keys)
    {
      hide Walkable, LeavesOk, FreeOk, Chain, Look, Emptied, Untouched;
      leaves' := leaves;
      EmptiedNone(mem, d, Pages(newsz), leaves, free, tables);
      if newsz >= oldsz {
        return oldsz, leaves;
      }
      ghost var m0, lo, hi := mem, Pages(newsz), Pages(oldsz);
      ghost var b := lo;
      var a := Pages(newsz);
      while a * PGSIZE < oldsz
        invariant lo <= a && b == (if a < hi then a else hi)
        invariant Valid(d, tables, leaves') && leaves'.Keys <= leaves.Keys
        invariant Emptied(m0, mem, d, lo, b, leaves, leaves', old(free), free)
        invariant Untouched(m0, mem, tables.Keys + leaves.Keys)
      {
        PagesIs(a, oldsz);
        ghost var m1, free1, l1 := mem, free, leaves';
        var t, tables' := Walkpgdir(d, a, false, tables, Used(d, tables, leaves'));
        if t == 0 {
          var next := (a / NPTENTRIES + 1) * NPTENTRIES;
          b := if next < hi then next else hi;
          NoTable(mem, d, tables, a, b);
          NothingThere(m0, mem, d, tables, lo, a, b, leaves, leaves', old(free), free);
          a := next - 1;
        } else {
          TableFrame(mem, d, tables, a, t);
          if Present(mem[t][a % NPTENTRIES]) {
            OneLeafEach(mem, d, tables, leaves');
            leaves' := ClearLeaf(d, a, t, tables, leaves');
            EmptiedOne(m0, m1, mem, d, lo, a, leaves, l1, leaves', old(free), free1, free);
            UntouchedMore(m0, m1, mem, tables.Keys + leaves.Keys, tables.Keys + leaves.Keys) by {
              UntouchedWider(m1, mem, tables.Keys + l1.Keys, tables.Keys + leaves.Keys);
            }
          } else {
            AbsentPage(mem, d, tables, a);
            NothingThere(m0, mem, d, tables, lo, a, a + 1, leaves, leaves', old(free), free);
          }
          b := b + 1;
        }
        a := a + 1;
      }
      PagesIs(a, oldsz);
      return newsz, leaves';
    }

    /** Map a fresh frame `f` holding `page` at page `v`.  If that fails, `f` is 0 or a frame that is still in hand. */
    method AddPage(d: nat, v: nat, page: seq<nat>, perm: nat, ghost tables: map<nat, nat>, ghost leaves: map<nat, nat>)
      returns (f: nat, ok: bool, ghost tables': map<nat, nat>)
      requires Valid(d, tables, leaves) && v < UPAGES && Look(mem, d, v) == 0
      requires |page| == 1024 && perm % 2 == 0 && perm < PGSIZE
      modifies this
      ensures tables.Keys <= tables'.Keys && tables'.Keys <= tables.Keys + Frames(old(free)) && Frames(free) <= Frames(old(free))
      ensures f == 0 ==> !ok && tables' == tables && mem == old(mem) && free == old(free) == [] && Valid(d, tables, leaves)
      ensures f != 0 ==> f in old(free) && f in mem && f !in Used(d, tables', leaves) && mem[f] == page
      ensures f != 0 ==> Frames(old(free)) + tables.Keys == Frames(free) + tables'.Keys + {f} && f !in free
      ensures ok ==> f != 0 && Valid(d, tables', leaves[f := v]) && |old(free)| <= |free| + 2
      ensures ok ==> Mapped(old(mem), mem, d, v, 1, f, perm)
      ensures f != 0 && !ok ==> |old(free)| == 1 && Valid(d, tables', leaves) && SameLook(old(mem), mem, d)
      ensures Untouched(old(mem), mem, {d, f} + tables'.Keys)
    {
      hide Walkable, LeavesOk, FreeOk, Chain, Look, Mapped, Tabled, Untouched, SameLook;
      tables' := tables;
      ghost var m0, free0, used := mem, free, Used(d, tables, leaves);
      UntouchedNone(mem, {d, 0} + tables.Keys);
      WellFormed(mem, d, tables);
      f := Kalloc(used);
      if f == 0 {
        return f, false, tables;
      }
      ghost var m1, free1 := mem, free;
      PageFilled(mem, d, tables, f, page);
      mem := mem[f := page];
      ghost var m2 := mem;
      ChainKept(m1, mem, freelist, free, used + {f}) by {
        UntouchedWider(m1, mem, {f}, used + {f});
      }
      OnePage(v);
      SameAt(m1, mem, d, v);
      ghost var k;
      ok, tables', k := Mappages(d, v * PGSIZE, PGSIZE, f, perm, tables, used + {f});
      AddedTables(m0, free0, free1, free, f, used, d, tables, tables', leaves);
      AddedMem(m0, m2, mem, {d, f}, {d}, tables', f);
      MappedIs(m0, m2, mem, d, v, k, f, perm);
      LeavesKept(m0, m2, d, tables, tables', leaves);
      SubFree(mem, free, used + {f} + tables'.Keys, Used(d, tables', leaves));
      if ok {
        LeafAdded(m2, mem, d, tables', leaves, f, v, perm);
        SubFree(mem, free, used + {f} + tables'.Keys, Used(d, tables', leaves[f := v]));
      } else {
        LeavesKept(m2, mem, d, tables', tables', leaves);
      }
    }

    /** Grow the user part from `oldsz` to `newsz` bytes, or leave the page map as it is. */
    method Allocuvm(d: nat, oldsz: nat, newsz: nat, ghost tables: map<nat, nat>, ghost leaves: map<nat, nat>)
      returns (r: nat, ghost tables': map<nat, nat>, ghost leaves': map<nat, nat>)
      requires Valid(d, tables, leaves)
      // the code panics on a page that is already mapped
      requires oldsz <= newsz < KERNBASE ==> forall v | Pages(oldsz) <= v < Pages(newsz) :: Look(mem, d, v) == 0
      modifies this
      ensures Valid(d, tables', leaves')
      ensures Frames(old(free)) + Used(d, tables, leaves) == Frames(free) + Used(d, tables', leaves')
      ensures newsz >= KERNBASE ==> r == 0 && mem == old(mem) && free == old(free)
      ensures newsz < oldsz && newsz < KERNBASE ==> r == oldsz && mem == old(mem) && free == old(free)
      ensures oldsz <= newsz < KERNBASE ==>
        || (&& r == newsz && Grown(old(mem), mem, d, Pages(oldsz), Pages(newsz), leaves, leaves', old(free))
            && forall v | Pages(oldsz) <= v < Pages(newsz) :: Writable(Look(mem, d, v)) && ForUser(Look(mem, d, v)))
        || (r == 0 && SameLook(old(mem), mem, d) && leaves' == leaves && |old(free)| < 2 * (Pages(newsz) - Pages(oldsz)))
      ensures Untouched(old(mem), mem, Used(d, tables, leaves) + Frames(old(free)))
    {
      hide Walkable, LeavesOk, FreeOk, Chain, Look, Mapped, Untouched, SameLook, Frames, Used, Grown, Conserved, Without, Within;
      tables', leaves' := tables, leaves;
      ghost var m0, free0, used0 := mem, free, Used(d, tables, leaves);
      UntouchedNone(mem, used0 + Frames(free));
      assert Conserved(free0, used0, free, d, tables, leaves) by {
        ConservedNone(free0, d, tables, leaves);
      }
      ConservedIs(free0, used0, free, d, tables, leaves);
      if newsz >= KERNBASE {
        return 0, tables, leaves;
      }
      if newsz < oldsz {
        return oldsz, tables, leaves;
      }
      ghost var lo, hi := Pages(oldsz), Pages(newsz);
      PagesMonotone(oldsz, newsz);
      PagesIs(0, newsz);
      GrownNone(mem, d, lo, leaves, free);
      NoneThere(mem, d, tables, leaves, lo, hi);
      var a := Pages(oldsz);
      while a * PGSIZE < newsz
        invariant lo <= a <= hi && Valid(d, tables', leaves') && |free0| <= |free| + 2 * (a - lo)
        invariant Conserved(free0, used0, free, d, tables', leaves') && Frames(free) <= Frames(free0)
        invariant Grown(m0, mem, d, lo, a, leaves, leaves', free0)
        invariant Untouched(m0, mem, used0 + Frames(free0))
      {
        PagesIs(a, newsz);
        ghost var m1, free1, t1 := mem, free, tables';
        GrownBeyond(m0, mem, d, lo, a, leaves, leaves', free0);
        var f, ok;
        f, ok, tables' := AddPage(d, a, Filled(0), UPERM, tables', leaves');
        StillUntouched(m0, m1, mem, d, f, free0, used0, free1, t1, tables', leaves');
        if !ok {
          GrownSame(m0, m1, mem, d, lo, a, leaves, leaves', free0);
          ghost var m2, l2, free2 := mem, leaves', free;
          WellFormed(mem, d, tables');
          PagesIs(a, oldsz);
          leaves' := Undo(d, f, oldsz, newsz, tables', l2);
          Restored(m0, m2, mem, d, lo, a, hi, leaves, l2, leaves', free0);
          ConservedBack(free0, used0, free1, free2, free, f, d, t1, tables', l2, leaves', lo, hi);
          ConservedIs(free0, used0, free, d, tables', leaves');
          UndoUntouched(m0, m2, mem, d, f, free0, used0, free1, t1, tables', l2);
          return 0, tables', leaves';
        }
        NotUsed(d, tables', leaves', f, free1, free0);
        GrownMore(m0, m1, mem, d, lo, a, leaves, leaves', free0, f, t1, tables');
        ConservedMore(free0, used0, free1, free, d, t1, tables', leaves', f, a);
        leaves' := leaves'[f := a];
        a := a + 1;
      }
      PagesIs(a, newsz);
      GrownIsOpen(m0, mem, d, lo, a, leaves, leaves', free0);
      ConservedIs(free0, used0, free, d, tables', leaves');
      return newsz, tables', leaves';
    }

    /** Give up growing: remove the pages added, and free the frame in hand if there is one. */
    method Undo(d: nat, f: nat, oldsz: nat, newsz: nat, ghost tables: map<nat, nat>, ghost leaves: map<nat, nat>)
      returns (ghost leaves': map<nat, nat>)
      requires Valid(d, tables, leaves) && oldsz < newsz <= KERNBASE
      requires f != 0 ==> f in mem && f !in free && f !in Used(d, tables, leaves)
      modifies this
      ensures Valid(d, tables, leaves') && leaves' == Without(leaves, Pages(oldsz), Pages(newsz))
      ensures forall v: nat :: Look(mem, d, v) == if Pages(oldsz) <= v < Pages(newsz) then 0 else Look(old(mem), d, v)
      ensures Frames(free) == Frames(old(free)) + Within(leaves, Pages(oldsz), Pages(newsz)) + (if f == 0 then {} else {f})
      ensures Untouched(old(mem), mem, tables.Keys + leaves.Keys + {f})
    {
      hide Walkable, LeavesOk, FreeOk, Chain, Look, Untouched, Without;
      var r;
      r, leaves' := Deallocuvm(d, newsz, oldsz, tables, leaves);
      UntouchedWider(old(mem), mem, tables.Keys + leaves.Keys, tables.Keys + leaves.Keys + {f});
      if f != 0 {
        ghost var m1, used := mem, Used(d, tables, leaves');
        WellFormed(mem, d, tables);
        StillInHand(d, tables, leaves, Pages(oldsz), Pages(newsz), old(free), free, f);
        InHand(mem, free, used, f);
        Kfree(f, used + {f});
        PageFilled(m1, d, tables, f, mem[f]);
        LeavesKept(m1, mem, d, tables, tables, leaves') by {
          TablesApart(m1, d, tables, leaves');
        }
        assert used + {f} - {f} == used;
        UntouchedMore(old(mem), m1, mem, tables.Keys + leaves.Keys + {f}, tables.Keys + leaves.Keys + {f}) by {
          UntouchedWider(m1, mem, {f}, tables.Keys + leaves.Keys + {f});
        }
      }
    }

    /** Free an address space: its pages, then every table its directory names, then the directory. */
    method Freevm(d: nat, ghost tables: map<nat, nat>, ghost leaves: map<nat, nat>)
      requires Valid(d, tables, leaves)
      modifies this
      ensures Wf(mem) && Chain(mem, freelist, free) && FreeOk(mem, free, {})
      ensures Frames(free) == Frames(old(free)) + Used(d, tables, leaves)
      ensures Untouched(old(mem), mem, Used(d, tables, leaves))
    {
      hide Walkable, LeavesOk, FreeOk, Chain, Look, Untouched, Rest, Before, Junk;
      ghost var m0 := mem;
      var r, leaves' := Deallocuvm(d, KERNBASE, 0, tables, leaves);
      ghost var m1, all := mem, Used(d, tables, leaves);
      AllLeaves(m0, d, tables, leaves);
      assert leaves' == map[];
      UntouchedWider(m0, m1, tables.Keys + leaves.Keys, all);
      FreeTables(d, tables);
      UntouchedMore(m0, m1, mem, all, all) by {
        UntouchedWider(m1, mem, tables.Keys, all);
      }
      ghost var m2 := mem;
      Kfree(d, {d});
      FilledInside(m0, m2, d, mem[d], all);
      assert {d} - {d} == {};
    }

    method FreeTables(d: nat, ghost tables: map<nat, nat>)
      requires Base(d, tables, Used(d, tables, map[]))
      modifies this
      ensures Wf(mem) && d in mem && Chain(mem, freelist, free) && FreeOk(mem, free, {d})
      ensures Frames(free) == Frames(old(free)) + tables.Keys && Untouched(old(mem), mem, tables.Keys)
    {
      hide Walkable, FreeOk, Chain, Look, Untouched, Rest, Before, Frames, Junk;
      ghost var m0 := mem;
      RestStart(d, tables);
      WellFormed(mem, d, tables);
      DirectoryIn(mem, d, tables);
      UntouchedNone(mem, tables.Keys);
      for i := 0 to NPDENTRIES
        invariant Wf(mem) && Chain(mem, freelist, free) && FreeOk(mem, free, Rest(d, tables, i))
        invariant d in mem && mem[d] == m0[d] && Untouched(m0, mem, tables.Keys)
        invariant Frames(free) == Frames(old(free)) + Before(tables, i)
      {
        SlotStep(m0, d, tables, i);
        if Present(mem[d][i]) {
          ghost var m1 := mem;
          var t := FrameOf(mem[d][i]);
          SameKeys(m0, mem, tables.Keys, t);
          Kfree(t, Rest(d, tables, i));
          FilledInside(m0, m1, t, mem[t], tables.Keys);
        }
      }
      RestEnd(m0, d, tables);
    }

    /** Free the frame of page `v` and clear its entry in table `t`. */
    method ClearLeaf(d: nat, v: nat, t: nat, ghost tables: map<nat, nat>, ghost leaves: map<nat, nat>)
      returns (ghost leaves': map<nat, nat>)
      requires Valid(d, tables, leaves) && v < UPAGES && t in mem && |mem[t]| == 1024 && |mem[d]| == 1024
      requires Present(mem[d][v / NPTENTRIES]) && FrameOf(mem[d][v / NPTENTRIES]) == t && Present(mem[t][v % NPTENTRIES])
      modifies this
      ensures Valid(d, tables, leaves')
      ensures LeafCleared(old(mem), mem, d, v, leaves, leaves', old(free), free)
      ensures Untouched(old(mem), mem, tables.Keys + leaves.Keys)
    {
      hide Walkable, LeavesOk, FreeOk, Chain, Look, Untouched;
      var f := FrameOf(mem[t][v % NPTENTRIES]);
      ghost var m0 := mem;
      IsLeaf(mem, d, tables, leaves, v);
      Kfree(f, Used(d, tables, leaves));
      ghost var m1 := mem;
      PageFilled(m0, d, tables, f, mem[f]);
      TableFrame(mem, d, tables, v, t);
      EntryWritten(mem, d, tables, v, 0);
      var page: seq<nat> := mem[t][v % NPTENTRIES := 0];
      mem := mem[t := page];
      leaves' := leaves - {f};
      LeafGone(m0, mem, d, tables, leaves, f, v);
      ChainKept(m1, mem, freelist, free, Used(d, tables, leaves')) by {
        assert Used(d, tables, leaves') == Used(d, tables, leaves) - {f};
        UntouchedWider(m1, mem, tables.Keys, Used(d, tables, leaves'));
      }
      UntouchedMore(m0, m1, mem, tables.Keys + leaves.Keys, tables.Keys + leaves.Keys) by {
        UntouchedWider(m0, m1, {f}, tables.Keys + leaves.Keys);
        UntouchedWider(m1, mem, tables.Keys, tables.Keys + leaves.Keys);
      }
    }
  }

  lemma MappedNone(m: Mem, d: nat, first: nat, pf: nat, perm: nat, tables: map<nat, nat>, free: seq<nat>)
    requires perm % 2 == 0 && perm < PGSIZE
    ensures Mapped(m, m, d, first, 0, pf, perm) && Tabled(tables, tables, free, free) && Untouched(m, m, {d} + tables.Keys)
  {
  }

  lemma TabledMore(t0: map<nat, nat>, t1: map<nat, nat>, t2: map<nat, nat>, f0: seq<nat>, f1: seq<nat>, f2: seq<nat>)
    requires Tabled(t0, t1, f0, f1) && Tabled(t1, t2, f1, f2)
    ensures Tabled(t0, t2, f0, f2)
  {
  }

  lemma TabledGrows(t0: map<nat, nat>, t1: map<nat, nat>, f0: seq<nat>, f1: seq<nat>)
    requires Tabled(t0, t1, f0, f1)
    ensures t0.Keys <= t1.Keys
  {
  }

  lemma UntouchedWider(m: Mem, m': Mem, s: set<nat>, w: set<nat>)
    requires Untouched(m, m', s) && s <= w
    ensures Untouched(m, m', w)
  {
  }

  lemma UntouchedMore(m0: Mem, m1: Mem, m2: Mem, s: set<nat>, w: set<nat>)
    requires Untouched(m0, m1, s) && Untouched(m1, m2, w) && s <= w
    ensures Untouched(m0, m2, w)
  {
  }

  lemma MappedSame(m0: Mem, m1: Mem, m2: Mem, d: nat, first: nat, k: nat, pf: nat, perm: nat)
    requires perm % 2 == 0 && perm < PGSIZE && Mapped(m0, m1, d, first, k, pf, perm) && SameLook(m1, m2, d)
    ensures Mapped(m0, m2, d, first, k, pf, perm)
  {
  }

  lemma MappedOne(m0: Mem, m1: Mem, m2: Mem, d: nat, first: nat, k: nat, pf: nat, perm: nat)
    requires perm % 2 == 0 && perm < PGSIZE && Mapped(m0, m1, d, first, k, pf, perm)
    requires forall u: nat :: Look(m2, d, u) == if u == first + k then Entry(pf + k, perm) else Look(m1, d, u)
    ensures Mapped(m0, m2, d, first, k + 1, pf, perm)
  {
  }

  lemma MappedBefore(m0: Mem, m: Mem, d: nat, first: nat, k: nat, pf: nat, perm: nat)
    requires perm % 2 == 0 && perm < PGSIZE && Mapped(m0, m, d, first, k, pf, perm)
    ensures Look(m, d, first + k) == Look(m0, d, first + k)
  {
  }

  lemma NotPresent(m: Mem, d: nat, tables: map<nat, nat>, v: nat)
    requires Walkable(m, d, tables) && v < NPAGES && Look(m, d, v) == 0 && Present(m[d][v / NPTENTRIES])
    ensures !Present(m[FrameOf(m[d][v / NPTENTRIES])][v % NPTENTRIES])
  {
    EntryOf(m, d, tables, v);
  }

  lemma TableFrame(m: Mem, d: nat, tables: map<nat, nat>, v: nat, t: nat)
    requires Walkable(m, d, tables) && t in tables && v < NPAGES
    ensures t in m && |m[t]| == 1024 && v % NPTENTRIES < 1024 && d in m && |m[d]| == 1024
  {
  }

  // ----- Emptying a range of pages

  /** The number of pages that `bytes` bytes reach into. */
  function Pages(bytes: nat): nat {
    (bytes + PGSIZE - 1) / PGSIZE
  }

  lemma PagesIs(a: nat, bytes: nat)
    ensures a * PGSIZE < bytes <==> a < Pages(bytes)
    ensures bytes <= KERNBASE ==> Pages(bytes) <= UPAGES
  {
  }

  ghost function Without(leaves: map<nat, nat>, lo: nat, hi: nat): map<nat, nat> {
    map f | f in leaves && !(lo <= leaves[f] < hi) :: leaves[f]
  }

  ghost function Within(leaves: map<nat, nat>, lo: nat, hi: nat): set<nat> {
    set f | f in leaves && lo <= leaves[f] < hi
  }

  /** A page-by-page clear of `lo` to `hi`: those pages are absent, their frames free again, and all else unchanged. */
  ghost predicate Emptied(m: Mem, m': Mem, d: nat, lo: nat, hi: nat, leaves: map<nat, nat>, leaves': map<nat, nat>,
                          free: seq<nat>, free': seq<nat>)
  {
    && (forall v: nat :: Look(m', d, v) == if lo <= v < hi then 0 else Look(m, d, v))
    && leaves' == Without(leaves, lo, hi)
    && Frames(free') == Frames(free) + Within(leaves, lo, hi)
  }

  /** The frame of page `v` is free and its entry clear. */
  ghost predicate LeafCleared(m: Mem, m': Mem, d: nat, v: nat, leaves: map<nat, nat>, leaves': map<nat, nat>,
                              free: seq<nat>, free': seq<nat>)
  {
    && (forall u: nat :: Look(m', d, u) == if u == v then 0 else Look(m, d, u))
    && exists f :: f in leaves && leaves[f] == v && leaves' == leaves - {f} && Frames(free') == Frames(free) + {f}
  }

  lemma EmptiedNone(m: Mem, d: nat, lo: nat, leaves: map<nat, nat>, free: seq<nat>, tables: map<nat, nat>)
    ensures Emptied(m, m, d, lo, lo, leaves, leaves, free, free)
    ensures Untouched(m, m, tables.Keys + leaves.Keys)
  {
  }

  lemma EmptiedOne(m0: Mem, m1: Mem, m2: Mem, d: nat, lo: nat, v: nat, leaves: map<nat, nat>,
                   l1: map<nat, nat>, l2: map<nat, nat>, f0: seq<nat>, f1: seq<nat>, f2: seq<nat>)
    requires Emptied(m0, m1, d, lo, v, leaves, l1, f0, f1) && LeafCleared(m1, m2, d, v, l1, l2, f1, f2) && lo <= v
    requires forall f, g | f in l1 && g in l1 && l1[f] == l1[g] :: f == g
    ensures Emptied(m0, m2, d, lo, v + 1, leaves, l2, f0, f2)
  {
    hide Look;
    var f :| f in l1 && l1[f] == v && l2 == l1 - {f} && Frames(f2) == Frames(f1) + {f};
    forall g | g in leaves ensures g in Without(leaves, lo, v + 1) <==> g in l1 && g != f {
      assert g in l1 && leaves[g] == v ==> l1[g] == l1[f];
    }
    assert Without(leaves, lo, v + 1) == l1 - {f};
    assert Within(leaves, lo, v + 1) == Within(leaves, lo, v) + {f};
  }

  /** Pages that are absent anyway need no clearing. */
  lemma NothingThere(m0: Mem, m: Mem, d: nat, tables: map<nat, nat>, lo: nat, a: nat, b: nat, leaves: map<nat, nat>,
                     leaves': map<nat, nat>, f0: seq<nat>, f1: seq<nat>)
    requires Emptied(m0, m, d, lo, a, leaves, leaves', f0, f1) && LeavesOk(m, d, tables, leaves') && lo <= a <= b
    requires forall v | a <= v < b :: Look(m, d, v) == 0
    ensures Emptied(m0, m, d, lo, b, leaves, leaves', f0, f1)
  {
    hide Look;
    forall f | f in leaves ensures lo <= leaves[f] < b <==> lo <= leaves[f] < a {
      assert f in leaves' ==> Present(Look(m, d, leaves[f]));
    }
    assert Without(leaves, lo, b) == Without(leaves, lo, a);
    assert Within(leaves, lo, b) == Within(leaves, lo, a);
  }

  /** Without a table none of its 1024 pages is present. */
  lemma NoTable(m: Mem, d: nat, tables: map<nat, nat>, a: nat, b: nat)
    requires Walkable(m, d, tables) && a < NPAGES && !Present(m[d][a / NPTENTRIES])
    requires b <= (a / NPTENTRIES + 1) * NPTENTRIES && b <= NPAGES
    ensures forall v | a <= v < b :: Look(m, d, v) == 0
  {
    forall v | a <= v < b ensures Look(m, d, v) == 0 {
      SameSlot(a, v);
      EntryOf(m, d, tables, v);
    }
  }

  lemma AbsentPage(m: Mem, d: nat, tables: map<nat, nat>, v: nat)
    requires Walkable(m, d, tables) && v < NPAGES && Present(m[d][v / NPTENTRIES])
    requires FrameOf(m[d][v / NPTENTRIES]) in m && !Present(m[FrameOf(m[d][v / NPTENTRIES])][v % NPTENTRIES])
    ensures Look(m, d, v) == 0
  {
    EntryOf(m, d, tables, v);
  }

  lemma SameSlot(a: nat, v: nat)
    requires a <= v < (a / NPTENTRIES + 1) * NPTENTRIES
    ensures v / NPTENTRIES == a / NPTENTRIES
  {
  }

  lemma IsLeaf(m: Mem, d: nat, tables: map<nat, nat>, leaves: map<nat, nat>, v: nat)
    requires Walkable(m, d, tables) && LeavesOk(m, d, tables, leaves) && v < UPAGES && Present(m[d][v / NPTENTRIES])
    requires FrameOf(m[d][v / NPTENTRIES]) in m && Present(m[FrameOf(m[d][v / NPTENTRIES])][v % NPTENTRIES])
    ensures var f := FrameOf(m[FrameOf(m[d][v / NPTENTRIES])][v % NPTENTRIES]);
            f in leaves && leaves[f] == v && f in m && f != d && f !in tables
    ensures Wf(m) && FrameOf(m[d][v / NPTENTRIES]) in tables
  {
    EntryOf(m, d, tables, v);
    assert Present(Look(m, d, v));
  }

  lemma LeafGone(m: Mem, m': Mem, d: nat, tables: map<nat, nat>, leaves: map<nat, nat>, f: nat, v: nat)
    requires LeavesOk(m, d, tables, leaves) && f in leaves && leaves[f] == v && m'.Keys == m.Keys
    requires forall u: nat :: Look(m', d, u) == if u == v then 0 else Look(m, d, u)
    ensures LeavesOk(m', d, tables, leaves - {f})
  {
    hide Look;
    forall g | g in leaves && g != f ensures leaves[g] != v {
      assert FrameOf(Look(m, d, leaves[g])) == g;
    }
  }

  lemma OneLeafEach(m: Mem, d: nat, tables: map<nat, nat>, leaves: map<nat, nat>)
    requires LeavesOk(m, d, tables, leaves)
    ensures forall f, g | f in leaves && g in leaves && leaves[f] == leaves[g] :: f == g
  {
  }

  // ----- Adding pages

  lemma UntouchedNone(m: Mem, s: set<nat>)
    ensures Untouched(m, m, s)
  {
  }

  lemma SameAt(m: Mem, m': Mem, d: nat, v: nat)
    requires SameLook(m, m', d)
    ensures Look(m', d, v) == Look(m, d, v)
  {
  }

  lemma WellFormed(m: Mem, d: nat, tables: map<nat, nat>)
    requires Walkable(m, d, tables)
    ensures Wf(m)
  {
  }

  lemma OnePage(v: nat)
    ensures v * PGSIZE / PGSIZE == v && (v * PGSIZE + PGSIZE - 1) / PGSIZE == v
  {
  }

  lemma SubFree(m: Mem, free: seq<nat>, used: set<nat>, s: set<nat>)
    requires FreeOk(m, free, used) && s <= used
    ensures FreeOk(m, free, s)
  {
  }

  /** The tables added came off the free list, so they are neither pages in use nor the frame in hand. */
  lemma AddedTables(m: Mem, free0: seq<nat>, free1: seq<nat>, free: seq<nat>, f: nat, used: set<nat>,
                    d: nat, tables: map<nat, nat>, tables': map<nat, nat>, leaves: map<nat, nat>)
    requires used == Used(d, tables, leaves) && FreeOk(m, free0, used) && f !in used && LeavesOk(m, d, tables, leaves)
    requires Frames(free0) == Frames(free1) + {f} && f !in Frames(free1) && Tabled(tables, tables', free1, free)
    ensures tables.Keys <= tables'.Keys && tables'.Keys <= tables.Keys + Frames(free0) && Frames(free) <= Frames(free0)
    ensures tables'.Keys !! leaves.Keys && f !in tables' && f !in free
    ensures Frames(free0) + tables.Keys == Frames(free) + tables'.Keys + {f}
    ensures used + {f} + tables'.Keys == Used(d, tables', leaves) + {f}
  {
    forall t | t in tables' ensures t !in leaves {
      assert t in Frames(free1) || t in tables;
    }
  }

  lemma AddedMem(m0: Mem, m1: Mem, m2: Mem, s: set<nat>, s1: set<nat>, tables: map<nat, nat>, f: nat)
    requires Untouched(m0, m1, {f}) && Untouched(m1, m2, s1 + tables.Keys) && f in s && s1 <= s
    requires f in m1 && f !in s1 && f !in tables
    ensures Untouched(m0, m2, s + tables.Keys) && f in m2 && m2[f] == m1[f]
  {
  }

  lemma MappedIs(m0: Mem, m: Mem, m': Mem, d: nat, v: nat, k: nat, f: nat, perm: nat)
    requires perm % 2 == 0 && perm < PGSIZE && SameLook(m0, m, d) && Mapped(m, m', d, v, k, f, perm) && k <= 1
    ensures k == 0 ==> SameLook(m, m', d) && SameLook(m0, m', d)
    ensures k == 1 ==> Mapped(m0, m', d, v, 1, f, perm)
  {
  }

  lemma LeavesKept(m: Mem, m': Mem, d: nat, tables: map<nat, nat>, tables': map<nat, nat>, leaves: map<nat, nat>)
    requires LeavesOk(m, d, tables, leaves) && SameLook(m, m', d) && m'.Keys == m.Keys && tables'.Keys !! leaves.Keys
    ensures LeavesOk(m', d, tables', leaves)
  {
    hide Look;
  }

  lemma LeafAdded(m: Mem, m': Mem, d: nat, tables: map<nat, nat>, leaves: map<nat, nat>, f: nat, v: nat, perm: nat)
    requires LeavesOk(m, d, tables, leaves) && m'.Keys == m.Keys && perm % 2 == 0 && perm < PGSIZE && v < UPAGES
    requires Look(m, d, v) == 0 && f in m && f != d && f !in tables && f !in leaves
    requires Mapped(m, m', d, v, 1, f, perm)
    ensures LeavesOk(m', d, tables, leaves[f := v])
  {
    hide Look;
  }

  /** Pages `lo` to `hi` are new, each a zeroed frame off the free list, mapped writable for the user; the others are as they were. */
  ghost predicate Grown(m: Mem, m': Mem, d: nat, lo: nat, hi: nat, leaves: map<nat, nat>, leaves': map<nat, nat>, free: seq<nat>) {
    && (forall v: nat :: if lo <= v < hi then FreshPage(m', free, Look(m', d, v)) else Look(m', d, v) == Look(m, d, v))
    && Without(leaves', lo, hi) == leaves
  }

  ghost predicate FreshPage(m: Mem, free: seq<nat>, w: nat) {
    var f := FrameOf(w);
    w == Entry(f, UPERM) && f in free && f in m && m[f] == Filled(0)
  }

  /** The user may read and write the new pages. */
  lemma GrownIsOpen(m: Mem, m': Mem, d: nat, lo: nat, hi: nat, leaves: map<nat, nat>, leaves': map<nat, nat>, free: seq<nat>)
    requires Grown(m, m', d, lo, hi, leaves, leaves', free)
    ensures forall v | lo <= v < hi :: Open(Look(m', d, v))
  {
    hide Look;
    forall v | lo <= v < hi ensures Open(Look(m', d, v)) {
      assert FreshPage(m', free, Look(m', d, v));
      OpenEntry(FrameOf(Look(m', d, v)));
    }
  }

  lemma GrownNone(m: Mem, d: nat, lo: nat, leaves: map<nat, nat>, free: seq<nat>)
    ensures Grown(m, m, d, lo, lo, leaves, leaves, free)
  {
  }

  lemma PagesMonotone(a: nat, b: nat)
    requires a <= b
    ensures Pages(a) <= Pages(b)
  {
  }

  lemma InHand(m: Mem, free: seq<nat>, used: set<nat>, f: nat)
    requires FreeOk(m, free, used) && f !in free
    ensures FreeOk(m, free, used + {f})
  {
  }

  lemma StillInHand(d: nat, tables: map<nat, nat>, leaves: map<nat, nat>, lo: nat, hi: nat, free0: seq<nat>, free: seq<nat>, f: nat)
    requires f !in free0 && f !in Used(d, tables, leaves) && Frames(free) == Frames(free0) + Within(leaves, lo, hi)
    ensures f !in free && f !in Used(d, tables, Without(leaves, lo, hi))
  {
    assert f !in Frames(free);
  }

  lemma TablesApart(m: Mem, d: nat, tables: map<nat, nat>, leaves: map<nat, nat>)
    requires LeavesOk(m, d, tables, leaves)
    ensures tables.Keys !! leaves.Keys
  {
  }

  lemma NoneThere(m: Mem, d: nat, tables: map<nat, nat>, leaves: map<nat, nat>, lo: nat, hi: nat)
    requires LeavesOk(m, d, tables, leaves) && forall v | lo <= v < hi :: Look(m, d, v) == 0
    ensures Without(leaves, lo, hi) == leaves
  {
    forall f | f in leaves ensures !(lo <= leaves[f] < hi) {
      assert Present(Look(m, d, leaves[f]));
    }
  }

  lemma GrownBeyond(m0: Mem, m: Mem, d: nat, lo: nat, a: nat, leaves: map<nat, nat>, leaves': map<nat, nat>, free: seq<nat>)
    requires Grown(m0, m, d, lo, a, leaves, leaves', free)
    ensures forall v: nat | v >= a :: Look(m, d, v) == Look(m0, d, v)
  {
  }

  // ----- Conservation of frames

  ghost predicate Conserved(free0: seq<nat>, used0: set<nat>, free: seq<nat>, d: nat, tables: map<nat, nat>, leaves: map<nat, nat>) {
    Frames(free0) + used0 == Frames(free) + Used(d, tables, leaves)
  }

  lemma ConservedNone(free: seq<nat>, d: nat, tables: map<nat, nat>, leaves: map<nat, nat>)
    ensures Conserved(free, Used(d, tables, leaves), free, d, tables, leaves)
  {
  }

  lemma ConservedIs(free0: seq<nat>, used0: set<nat>, free: seq<nat>, d: nat, tables: map<nat, nat>, leaves: map<nat, nat>)
    requires Conserved(free0, used0, free, d, tables, leaves)
    ensures Frames(free0) + used0 == Frames(free) + Used(d, tables, leaves)
  {
  }

  lemma ConservedMore(free0: seq<nat>, used0: set<nat>, free1: seq<nat>, free: seq<nat>, d: nat,
                      t1: map<nat, nat>, tables: map<nat, nat>, leaves: map<nat, nat>, f: nat, v: nat)
    requires Conserved(free0, used0, free1, d, t1, leaves) && Frames(free1) + t1.Keys == Frames(free) + tables.Keys + {f}
    ensures Conserved(free0, used0, free, d, tables, leaves[f := v])
  {
    hide Frames;
    assert leaves[f := v].Keys == leaves.Keys + {f};
    assert Frames(free1) + Used(d, t1, leaves) == (Frames(free1) + t1.Keys) + {d} + leaves.Keys;
  }

  lemma ConservedBack(free0: seq<nat>, used0: set<nat>, free1: seq<nat>, free2: seq<nat>, free3: seq<nat>, f: nat, d: nat,
                      t1: map<nat, nat>, tables: map<nat, nat>, l2: map<nat, nat>, l3: map<nat, nat>, lo: nat, hi: nat)
    requires Conserved(free0, used0, free1, d, t1, l2)
    requires Frames(free1) + t1.Keys == Frames(free2) + tables.Keys + (if f == 0 then {} else {f})
    requires l3 == Without(l2, lo, hi)
    requires Frames(free3) == Frames(free2) + Within(l2, lo, hi) + (if f == 0 then {} else {f})
    ensures Conserved(free0, used0, free3, d, tables, l3)
  {
    hide Frames;
    assert l2.Keys == l3.Keys + Within(l2, lo, hi);
    assert Frames(free1) + Used(d, t1, l2) == (Frames(free1) + t1.Keys) + {d} + l2.Keys;
  }

  // ----- What growing touches and keeps

  lemma StillUntouched(m0: Mem, m1: Mem, m2: Mem, d: nat, f: nat, free0: seq<nat>, used0: set<nat>, free1: seq<nat>,
                       t1: map<nat, nat>, tables: map<nat, nat>, leaves: map<nat, nat>)
    requires Untouched(m0, m1, used0 + Frames(free0)) && Conserved(free0, used0, free1, d, t1, leaves)
    requires tables.Keys <= t1.Keys + Frames(free1) && Untouched(m1, m2, {d, f} + tables.Keys)
    requires f == 0 ==> m2 == m1
    requires f != 0 ==> f in free1
    ensures Untouched(m0, m2, used0 + Frames(free0))
  {
    if f != 0 {
      assert f in Frames(free1);
      UntouchedWider(m1, m2, {d, f} + tables.Keys, used0 + Frames(free0));
    }
  }

  lemma UndoUntouched(m0: Mem, m1: Mem, m2: Mem, d: nat, f: nat, free0: seq<nat>, used0: set<nat>, free1: seq<nat>,
                      t1: map<nat, nat>, tables: map<nat, nat>, leaves: map<nat, nat>)
    requires Untouched(m0, m1, used0 + Frames(free0)) && Conserved(free0, used0, free1, d, t1, leaves)
    requires tables.Keys <= t1.Keys + Frames(free1) && Untouched(m1, m2, tables.Keys + leaves.Keys + {f})
    requires f == 0 ==> Wf(m1)
    requires f != 0 ==> f in free1
    ensures Untouched(m0, m2, used0 + Frames(free0))
  {
    assert f != 0 ==> f in Frames(free1);
    forall g | g in m1 && g !in used0 + Frames(free0) ensures m2[g] == m1[g] {
      assert g !in tables.Keys + leaves.Keys + {f};
    }
  }

  lemma GrownSame(m0: Mem, m1: Mem, m2: Mem, d: nat, lo: nat, a: nat, leaves: map<nat, nat>, leaves': map<nat, nat>, free: seq<nat>)
    requires Grown(m0, m1, d, lo, a, leaves, leaves', free) && SameLook(m1, m2, d)
    ensures forall v: nat :: lo <= v < a || Look(m2, d, v) == Look(m0, d, v)
    ensures Without(leaves', lo, a) == leaves
  {
  }

  lemma Restored(m0: Mem, m2: Mem, m3: Mem, d: nat, lo: nat, a: nat, hi: nat, leaves: map<nat, nat>,
                 l2: map<nat, nat>, l3: map<nat, nat>, free: seq<nat>)
    requires lo <= a <= hi && (forall v: nat :: lo <= v < a || Look(m2, d, v) == Look(m0, d, v))
    requires Without(l2, lo, a) == leaves && Without(leaves, lo, hi) == leaves && l3 == Without(l2, lo, hi)
    requires forall v: nat :: Look(m3, d, v) == if lo <= v < hi then 0 else Look(m2, d, v)
    requires forall v | lo <= v < hi :: Look(m0, d, v) == 0
    ensures SameLook(m0, m3, d) && l3 == leaves
  {
    hide Look;
    forall f | f in l2 ensures f in l3 <==> f in leaves {
      assert f in leaves ==> f in Without(leaves, lo, hi);
    }
  }

  lemma NotUsed(d: nat, tables: map<nat, nat>, leaves: map<nat, nat>, f: nat, free1: seq<nat>, free0: seq<nat>)
    requires f !in Used(d, tables, leaves) && f in free1 && Frames(free1) <= Frames(free0)
    ensures f !in leaves && f in free0
  {
    assert f in Frames(free1);
  }

  lemma GrownMore(m0: Mem, m1: Mem, m2: Mem, d: nat, lo: nat, a: nat, leaves: map<nat, nat>, leaves': map<nat, nat>,
                  free0: seq<nat>, f: nat, t1: map<nat, nat>, tables: map<nat, nat>)
    requires Grown(m0, m1, d, lo, a, leaves, leaves', free0) && Mapped(m1, m2, d, a, 1, f, UPERM) && lo <= a < UPAGES
    requires Untouched(m1, m2, {d, f} + tables.Keys) && f in m2 && m2[f] == Filled(0) && f in free0 && f !in leaves'
    requires LeavesOk(m1, d, t1, leaves') && LeavesOk(m2, d, tables, leaves'[f := a]) && Look(m1, d, a) == 0
    ensures Grown(m0, m2, d, lo, a + 1, leaves, leaves'[f := a], free0)
  {
    hide Look, Filled;
    forall v: nat
      ensures if lo <= v < a + 1 then FreshPage(m2, free0, Look(m2, d, v)) else Look(m2, d, v) == Look(m0, d, v)
    {
      if lo <= v < a {
        var g := FrameOf(Look(m1, d, v));
        assert FreshPage(m1, free0, Look(m1, d, v));
        assert g in leaves' && g in leaves'[f := a];
      }
    }
    assert Without(leaves'[f := a], lo, a + 1) == leaves by {
      GrownLeaves(m1, d, t1, leaves', f, lo, a);
    }
  }

  lemma GrownLeaves(m: Mem, d: nat, tables: map<nat, nat>, leaves: map<nat, nat>, f: nat, lo: nat, a: nat)
    requires LeavesOk(m, d, tables, leaves) && Look(m, d, a) == 0 && f !in leaves && lo <= a
    ensures Without(leaves[f := a], lo, a + 1) == Without(leaves, lo, a)
  {
    hide Look;
    forall g | g in leaves ensures leaves[g] != a {
      assert Present(Look(m, d, leaves[g]));
    }
  }

  // ----- Freeing an address space

  /** The directory and the tables of slots from `i` on. */
  ghost function Rest(d: nat, tables: map<nat, nat>, i: nat): set<nat> {
    {d} + set t | t in tables && tables[t] >= i
  }

  ghost function Before(tables: map<nat, nat>, i: nat): set<nat> {
    set t | t in tables && tables[t] < i
  }

  lemma AllLeaves(m: Mem, d: nat, tables: map<nat, nat>, leaves: map<nat, nat>)
    requires LeavesOk(m, d, tables, leaves)
    ensures Without(leaves, Pages(0), Pages(KERNBASE)) == map[] && Within(leaves, Pages(0), Pages(KERNBASE)) == leaves.Keys
  {
    assert Pages(0) == 0 && Pages(KERNBASE) == UPAGES;
  }

  lemma RestStart(d: nat, tables: map<nat, nat>)
    ensures Rest(d, tables, 0) == Used(d, tables, map[]) && Before(tables, 0) == {}
  {
    assert (set t | t in tables && tables[t] >= 0) == tables.Keys;
  }

  lemma RestEnd(m: Mem, d: nat, tables: map<nat, nat>)
    requires Walkable(m, d, tables)
    ensures Rest(d, tables, NPDENTRIES) == {d} && Before(tables, NPDENTRIES) == tables.Keys
  {
  }

  lemma DirectoryIn(m: Mem, d: nat, tables: map<nat, nat>)
    requires Walkable(m, d, tables)
    ensures d in m && |m[d]| == 1024
  {
  }

  lemma SlotStep(m: Mem, d: nat, tables: map<nat, nat>, i: nat)
    requires Walkable(m, d, tables) && i < NPDENTRIES
    ensures if Present(m[d][i]) then
              var t := FrameOf(m[d][i]);
              && t in Rest(d, tables, i) && t in tables && t in m && t != d
              && Rest(d, tables, i + 1) == Rest(d, tables, i) - {t} && Before(tables, i + 1) == Before(tables, i) + {t}
            else Rest(d, tables, i + 1) == Rest(d, tables, i) && Before(tables, i + 1) == Before(tables, i)
  {
    forall t | t in tables && tables[t] == i ensures Present(m[d][i]) && FrameOf(m[d][i]) == t {
    }
  }

  lemma SameKeys(m: Mem, m': Mem, s: set<nat>, f: nat)
    requires Untouched(m, m', s) && f in m
    ensures f in m'
  {
    assert f in m'.Keys;
  }

  lemma FilledInside(m0: Mem, m: Mem, f: nat, page: seq<nat>, s: set<nat>)
    requires Untouched(m0, m, s) && f in s && f in m
    ensures Untouched(m0, m[f := page], s)
  {
    assert m[f := page].Keys == m.Keys;
  }
}
