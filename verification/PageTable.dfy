/**
 Two-level page tables as values: frames of physical memory hold words, a directory frame names
 table frames, and their entries name page frames.  `Look` is the flat page map they refine.

 Virtual pages are numbered (address / PGSIZE), and so are frames (physical address / PGSIZE).
 */
module PageTable {
  import opened Params

  const NPDENTRIES := 1024
  const NPTENTRIES := 1024
  const NPAGES := NPDENTRIES * NPTENTRIES
  const UPAGES := KERNBASE / PGSIZE     // user pages come first
  const PTE_P := 1
  const PTE_W := 2
  const PTE_U := 4

  type Mem = map<nat, seq<nat>>

  predicate Present(w: nat) {
    w % 2 == 1
  }

  /** PTE_ADDR, as a frame number. */
  function FrameOf(w: nat): nat {
    w / PGSIZE
  }

  /** The word for a present page; flag bits other than PTE_P are even and below PGSIZE. */
  function Entry(frame: nat, perm: nat): (w: nat)
    requires perm % 2 == 0 && perm < PGSIZE
    ensures Present(w) && FrameOf(w) == frame
  {
    Parts(frame, perm + PTE_P);
    frame * PGSIZE + perm + PTE_P
  }

  lemma Parts(frame: nat, low: nat)
    requires low < PGSIZE
    ensures (frame * PGSIZE + low) / PGSIZE == frame
    ensures (frame * PGSIZE + low) % 2 == low % 2
  {
    var half := low / 2;
    assert frame * PGSIZE + low == 2 * (frame * 2048 + half) + low % 2;
  }

  /** Every managed frame holds 1024 words; frame 0 is not managed. */
  ghost predicate Wf(m: Mem) {
    0 !in m && forall f | f in m :: |m[f]| == 1024
  }

  function Filled(w: nat): (s: seq<nat>)
    ensures |s| == 1024 && forall i | 0 <= i < 1024 :: s[i] == w
  {
    seq(1024, _ => w)
  }

  function Shown(w: nat): nat {
    if Present(w) then w else 0
  }

  predicate Writable(w: nat) {
    w / PTE_W % 2 == 1
  }

  predicate ForUser(w: nat) {
    w / PTE_U % 2 == 1
  }

  /** The entry that takes effect: the processor lets a page be written, or used by the user, only if the directory
      entry and the table entry both do. */
  function Both(pde: nat, w: nat): nat {
    if !Present(w) then 0
    else w - (if Writable(w) && !Writable(pde) then PTE_W else 0) - (if ForUser(w) && !ForUser(pde) then PTE_U else 0)
  }

  /** The user may read and write; a directory entry like this leaves all permissions to the table. */
  predicate Open(pde: nat) {
    Present(pde) && Writable(pde) && ForUser(pde)
  }

  lemma OpenEntry(frame: nat)
    ensures Open(Entry(frame, PTE_W + PTE_U))
  {
    assert Entry(frame, PTE_W + PTE_U) == 8 * (frame * 512) + 7;
    LowThree(frame * 512);
  }

  lemma LowThree(k: nat)
    ensures Open(8 * k + 7)
  {
    var w := 8 * k + 7;
    assert w == 2 * (4 * k + 3) + 1 && w / 2 == 4 * k + 3;
    assert w / 2 == 2 * (2 * k + 1) + 1;
    assert w / 4 == 2 * k + 1;
  }

  /** The flat page map: the entry in effect for page `v` under directory `d`, or zero if the page or its table is not
      present. */
  ghost function Look(m: Mem, d: nat, v: nat): nat {
    if !Wf(m) || d !in m || v >= NPAGES then 0 else
    var pde := m[d][v / NPTENTRIES];
    if Present(pde) && FrameOf(pde) in m then Both(pde, m[FrameOf(pde)][v % NPTENTRIES]) else 0
  }

  ghost function SetWord(m: Mem, f: nat, i: nat, w: nat): Mem {
    if f in m && i < |m[f]| then
      var page: seq<nat> := m[f][i := w];
      m[f := page]
    else m
  }

  // ----- Ownership

  /** The present slots of directory `d` name exactly the frames of `tables`, each from the slot it is recorded for, and
      leave all permissions to them. */
  ghost predicate Walkable(m: Mem, d: nat, tables: map<nat, nat>) {
    && Wf(m) && d in m && d !in tables
    && (forall i | 0 <= i < NPDENTRIES && Present(m[d][i]) :: 
          Open(m[d][i]) && FrameOf(m[d][i]) in tables && tables[FrameOf(m[d][i])] == i)
    && (forall t | t in tables ::
          t in m && tables[t] < NPDENTRIES && Present(m[d][tables[t]]) && FrameOf(m[d][tables[t]]) == t)
  }

  /** The present user entries name exactly the frames of `leaves`, none of which is a directory or table. */
  ghost predicate LeavesOk(m: Mem, d: nat, tables: map<nat, nat>, leaves: map<nat, nat>) {
    && (forall v | 0 <= v < UPAGES && Present(Look(m, d, v)) ::
          FrameOf(Look(m, d, v)) in leaves && leaves[FrameOf(Look(m, d, v))] == v)
    && (forall f | f in leaves ::
          && f in m && f != d && f !in tables && leaves[f] < UPAGES
          && Present(Look(m, d, leaves[f])) && FrameOf(Look(m, d, leaves[f])) == f)
  }

  ghost function Used(d: nat, tables: map<nat, nat>, leaves: map<nat, nat>): set<nat> {
    {d} + tables.Keys + leaves.Keys
  }

  /** The free list has no frame twice and none in use. */
  ghost predicate FreeOk(m: Mem, free: seq<nat>, used: set<nat>) {
    && (forall i, j | 0 <= i < j < |free| :: free[i] != free[j])
    && (forall f | f in free :: f in m && f !in used)
  }

  /** The list in memory: word 0 of each free frame names the next, and 0 ends it. */
  ghost predicate Chain(m: Mem, head: nat, free: seq<nat>)
    decreases |free|
  {
    if free == [] then head == 0
    else head == free[0] && head in m && |m[head]| == 1024 && Chain(m, m[head][0], free[1..])
  }

  lemma {:induction false} SameChain(m: Mem, m': Mem, head: nat, free: seq<nat>)
    requires Chain(m, head, free) && forall f | f in free && f in m :: f in m' && m'[f] == m[f]
    ensures Chain(m', head, free)
    decreases |free|
  {
    if free != [] {
      SameChain(m, m', m[head][0], free[1..]);
    }
  }

  lemma ChainKept(m: Mem, m': Mem, head: nat, free: seq<nat>, used: set<nat>)
    requires Chain(m, head, free) && FreeOk(m, free, used) && Untouched(m, m', used)
    ensures Chain(m', head, free) && FreeOk(m', free, used)
  {
    SameChain(m, m', head, free);
  }

  ghost function Frames(free: seq<nat>): set<nat> {
    set f | f in free
  }

  ghost predicate SameLook(m: Mem, m': Mem, d: nat) {
    forall v: nat :: Look(m', d, v) == Look(m, d, v)
  }

  /** Frames outside `s` are as they were. */
  ghost predicate Untouched(m: Mem, m': Mem, s: set<nat>) {
    m'.Keys == m.Keys && forall f | f in m && f !in s :: m'[f] == m[f]
  }

  // ----- Writing entries, filling pages and adding tables

  lemma SlotOf(v: nat)
    requires v < NPAGES
    ensures v / NPTENTRIES < NPDENTRIES && v % NPTENTRIES < NPTENTRIES
    ensures v == v / NPTENTRIES * NPTENTRIES + v % NPTENTRIES
  {
  }

  /** Writing one entry of a table changes the flat map at that page only. */
  lemma EntryWritten(m: Mem, d: nat, tables: map<nat, nat>, v: nat, w: nat)
    requires Walkable(m, d, tables) && v < NPAGES && Present(m[d][v / NPTENTRIES])
    ensures var m' := SetWord(m, FrameOf(m[d][v / NPTENTRIES]), v % NPTENTRIES, w);
            && Walkable(m', d, tables)
            && Untouched(m, m', tables.Keys)
            && forall u: nat :: Look(m', d, u) == if u == v then Shown(w) else Look(m, d, u)
  {
    var t := FrameOf(m[d][v / NPTENTRIES]);
    var m' := SetWord(m, t, v % NPTENTRIES, w);
    assert t in tables;
    SlotOf(v);
    forall u: nat ensures Look(m', d, u) == if u == v then Shown(w) else Look(m, d, u) {
      if u < NPAGES {
        SlotOf(u);
        EntryOf(m, d, tables, u);
        EntryOf(m', d, tables, u);
        if u != v && Present(m[d][u / NPTENTRIES]) {
          if u / NPTENTRIES == v / NPTENTRIES {
            assert u % NPTENTRIES != v % NPTENTRIES;
          } else {
            assert FrameOf(m[d][u / NPTENTRIES]) != t;
          }
        }
      }
    }
  }

  lemma EntryOf(m: Mem, d: nat, tables: map<nat, nat>, v: nat)
    requires Walkable(m, d, tables) && v < NPAGES
    ensures v / NPTENTRIES < 1024
    ensures if Present(m[d][v / NPTENTRIES]) then
              FrameOf(m[d][v / NPTENTRIES]) in m && Look(m, d, v) == Shown(m[FrameOf(m[d][v / NPTENTRIES])][v % NPTENTRIES])
            else Look(m, d, v) == 0
  {
    SlotOf(v);
  }

  /** What a frame outside the tables holds does not matter to the flat map. */
  lemma PageFilled(m: Mem, d: nat, tables: map<nat, nat>, f: nat, s: seq<nat>)
    requires Walkable(m, d, tables) && f in m && f != d && f !in tables && |s| == 1024
    ensures Walkable(m[f := s], d, tables) && SameLook(m, m[f := s], d) && Untouched(m, m[f := s], {f})
  {
    var m' := m[f := s];
    forall v: nat ensures Look(m', d, v) == Look(m, d, v) {
      if v < NPAGES {
        EntryOf(m, d, tables, v);
        EntryOf(m', d, tables, v);
      }
    }
  }

  /** A zeroed table in an empty slot leaves the flat map as it is. */
  lemma TableAdded(m: Mem, d: nat, tables: map<nat, nat>, f: nat, i: nat, perm: nat)
    requires Walkable(m, d, tables) && f in m && f != d && f !in tables && i < NPDENTRIES && !Present(m[d][i])
    requires perm % 2 == 0 && perm < PGSIZE && Open(Entry(f, perm))
    ensures var m' := SetWord(m[f := Filled(0)], d, i, Entry(f, perm));
            && Walkable(m', d, tables[f := i]) && SameLook(m, m', d)
            && Untouched(m, m', {d, f})
            && m'[d] == m[d][i := Entry(f, perm)]
  {
    var m' := SetWord(m[f := Filled(0)], d, i, Entry(f, perm));
    forall v: nat ensures Look(m', d, v) == Look(m, d, v) {
      if v < NPAGES {
        EntryOf(m, d, tables, v);
        EntryOf(m', d, tables[f := i], v);
      }
    }
  }

  // ----- Using up and giving back frames

  lemma TookFirst(m: Mem, head: nat, free: seq<nat>, used: set<nat>)
    requires Chain(m, head, free) && FreeOk(m, free, used) && free != [] && Wf(m)
    ensures Chain(m, m[head][0], free[1..]) && FreeOk(m, free[1..], used + {head})
    ensures head == free[0] && head != 0 && head in m && head !in used
    ensures Frames(free) == Frames(free[1..]) + {head} && head !in Frames(free[1..])
  {
    var rest := free[1..];
    assert free == [free[0]] + rest;
  }

  lemma GaveBack(m: Mem, head: nat, free: seq<nat>, used: set<nat>, f: nat, page: seq<nat>)
    requires Chain(m, head, free) && FreeOk(m, free, used) && f in used && f in m && |page| == 1024 && page[0] == head
    ensures Chain(m[f := page], f, [f] + free) && FreeOk(m[f := page], [f] + free, used - {f})
    ensures Frames([f] + free) == Frames(free) + {f} && f !in free
  {
    assert f !in free;
    SameChain(m, m[f := page], head, free);
    assert ([f] + free)[1..] == free;
  }

  // ----- How many frames an address space takes

  lemma {:induction false} Pigeonhole(slots: map<nat, nat>, n: nat)
    requires forall t | t in slots :: slots[t] < n
    requires forall t, u | t in slots && u in slots && slots[t] == slots[u] :: t == u
    ensures |slots| <= n
    decreases n
  {
    if t :| t in slots && slots[t] == n - 1 {
      var rest := slots - {t};
      assert slots == rest[t := n - 1];
      Pigeonhole(rest, n - 1);
    } else if n > 0 {
      Pigeonhole(slots, n - 1);
    } else {
      assert slots == map[];
    }
  }

  lemma TableCount(m: Mem, d: nat, tables: map<nat, nat>)
    requires Walkable(m, d, tables)
    ensures |tables| <= NPDENTRIES
  {
    Pigeonhole(tables, NPDENTRIES);
  }

  lemma {:induction false} FrameCount(free: seq<nat>)
    requires forall i, j | 0 <= i < j < |free| :: free[i] != free[j]
    ensures |Frames(free)| == |free|
  {
    if free == [] {
      assert Frames(free) == {};
    } else {
      var n := |free| - 1;
      FrameCount(free[..n]);
      assert free == free[..n] + [free[n]];
      assert Frames(free) == Frames(free[..n]) + {free[n]};
    }
  }

  lemma UnionCount(a: set<nat>, b: set<nat>)
    ensures |a + b| <= |a| + |b|
  {
    assert a + b == a + (b - a);
    assert |a + (b - a)| == |a| + |b - a|;
    assert |b| == |b - a| + |b * a|;
  }

  lemma UsedCount(m: Mem, d: nat, tables: map<nat, nat>, leaves: map<nat, nat>)
    requires Walkable(m, d, tables)
    ensures |Used(d, tables, leaves)| <= 1 + NPDENTRIES + |leaves|
  {
    TableCount(m, d, tables);
    UnionCount({d}, tables.Keys);
    UnionCount({d} + tables.Keys, leaves.Keys);
    assert |tables.Keys| == |tables| && |leaves.Keys| == |leaves|;
  }
}
