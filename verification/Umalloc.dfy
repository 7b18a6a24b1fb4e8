/**
 The user-level memory allocator: `malloc`, `free` and `morecore` on a circular list of headers.

 Memory is a map from addresses (in header-sized units) to headers.  The ghost fields say what
 the pointers mean: `free` is the list of free extents, `live` the blocks handed out, `arena`
 every unit ever obtained from sbrk.
 */
module Umalloc {
  import opened Params
  import opened FreeList

  datatype Header = Header(ptr: nat, size: nat)

  type Memory = map<nat, Header>

  const HEADER_BYTES := 8
  const MIN_CORE := 4096
  const MAX_CORE := 0x2000_0000 // no request for less than 2^32 bytes needs more units

  /** Units for a request: 32-bit arithmetic, one unit extra for the header. */
  function Nunits(nbytes: nat): (n: nat)
    ensures n >= 1
  {
    (nbytes + HEADER_BYTES - 1) % U32 / HEADER_BYTES + 1
  }

  /** A block of `Nunits` holds the request after its header exactly when the rounding does not wrap. */
  lemma EnoughIff(nbytes: nat)
    requires nbytes < U32
    ensures (Nunits(nbytes) - 1) * HEADER_BYTES >= nbytes <==> nbytes <= U32 - HEADER_BYTES
  {
    if nbytes <= U32 - HEADER_BYTES {
      assert (nbytes + HEADER_BYTES - 1) % U32 == nbytes + HEADER_BYTES - 1;
    } else {
      assert (nbytes + HEADER_BYTES - 1) % U32 == nbytes + HEADER_BYTES - 1 - U32;
    }
  }

  /** Asked for all but one byte of the address space, malloc makes a block with no room at all. */
  lemma LastByteCount()
    ensures Nunits(0xFFFF_FFFF) == 1
  {
  }

  function CoreUnits(n: nat): nat {
    if n < MIN_CORE then MIN_CORE else n
  }

  /** The byte count passed to sbrk, a signed 32-bit int. */
  function SbrkBytes(nu: nat): int {
    var w := nu * HEADER_BYTES % U32;
    if w < U32 / 2 then w else w - U32
  }

  /** sbrk is asked for as many bytes as `morecore` then records exactly below 2^28 units. */
  lemma RequestExactIff(nu: nat)
    ensures SbrkBytes(nu) == nu * HEADER_BYTES <==> nu < 0x1000_0000
  {
    if nu < 0x1000_0000 {
      assert nu * HEADER_BYTES < U32 / 2;
    }
  }

  /** Byte counts for which sbrk, if malloc turns to it, is asked for the memory that is then recorded. */
  predicate AsksRight(nbytes: nat) {
    nbytes <= 0x7FFF_FFF0 || nbytes > U32 - HEADER_BYTES
  }

  /** sbrk is asked for the memory recorded, or else for none at all. */
  lemma AsksRightIff(nbytes: nat)
    requires nbytes < U32
    ensures var nu := CoreUnits(Nunits(nbytes));
            && Nunits(nbytes) <= MAX_CORE && (AsksRight(nbytes) <==> Nunits(nbytes) < 0x1000_0000)
            && (SbrkBytes(nu) == nu * HEADER_BYTES <==> AsksRight(nbytes))
            && (SbrkBytes(nu) <= 0 <==> !AsksRight(nbytes))
  {
    RequestExactIff(CoreUnits(Nunits(nbytes)));
    AllOrNothing(CoreUnits(Nunits(nbytes)));
  }

  lemma AllOrNothing(nu: nat)
    requires 0 < nu <= MAX_CORE
    ensures SbrkBytes(nu) <= 0 <==> nu >= 0x1000_0000
  {
    if nu < 0x1000_0000 {
      assert nu * HEADER_BYTES < U32 / 2;
    } else if nu < MAX_CORE {
      assert U32 / 2 <= nu * HEADER_BYTES < U32;
    }
  }

  /** malloc can keep its promise exactly for requests of at most 2^31 - 16 bytes: the block is large enough, and sbrk is
      asked for what is recorded. */
  lemma PromiseIff(nbytes: nat)
    requires nbytes < U32
    ensures var nu := CoreUnits(Nunits(nbytes));
            (Nunits(nbytes) - 1) * HEADER_BYTES >= nbytes && SbrkBytes(nu) == nu * HEADER_BYTES <==> nbytes <= 0x7FFF_FFF0
  {
    EnoughIff(nbytes);
    AsksRightIff(nbytes);
  }

  /** Asked for 2 GB, morecore calls sbrk with a negative number, which gives memory back, and records 2 GB as its own. */
  lemma HugeRequest()
    ensures SbrkBytes(CoreUnits(Nunits(0x8000_0000))) < 0
  {
  }

  // ----- The circular list

  /** Node 0 is the static `base`, node k > 0 the k-th free extent. */
  function Addr(free: seq<Extent>, k: nat): nat
    requires k <= |free|
  {
    if k == 0 then BASE else free[k - 1].start
  }

  function NextAddr(free: seq<Extent>, k: nat): nat
    requires k <= |free|
  {
    if k < |free| then free[k].start else BASE
  }

  function NextIndex(free: seq<Extent>, k: nat): (j: nat)
    requires k <= |free|
    ensures j <= |free|
  {
    if k < |free| then k + 1 else 0
  }

  function SizeAt(free: seq<Extent>, k: nat): nat
    requires k <= |free|
  {
    if k == 0 then 0 else free[k - 1].size
  }

  ghost predicate Node(mem: Memory, free: seq<Extent>, k: nat)
    requires k <= |free|
  {
    Addr(free, k) in mem && mem[Addr(free, k)] == Header(NextAddr(free, k), SizeAt(free, k))
  }

  /** The headers in memory link base and the free extents, in address order, into one cycle. */
  ghost predicate Ring(mem: Memory, free: seq<Extent>) {
    forall k: nat | k <= |free| :: Node(mem, free, k)
  }

  lemma RingAt(mem: Memory, free: seq<Extent>, k: nat)
    requires Ring(mem, free) && k <= |free|
    ensures Node(mem, free, k) && Node(mem, free, NextIndex(free, k))
  {
  }

  /** Steps along the ring from node `a` to node `f`. */
  function Dist(free: seq<Extent>, a: nat, f: nat): nat
    requires a <= |free| && f <= |free|
  {
    if a <= f then f - a else f + |free| + 1 - a
  }

  // ----- What stays true

  ghost predicate LiveHeaders(mem: Memory, live: map<nat, nat>) {
    forall b | b in live :: b in mem && mem[b].size == live[b] && live[b] > 0 && b > BASE
  }

  ghost predicate LiveHas(live: map<nat, nat>, u: int) {
    exists b :: b in live && Extent(b, live[b]).Has(u)
  }

  /** Live blocks overlap neither each other nor free memory. */
  ghost predicate Disjoint(free: seq<Extent>, live: map<nat, nat>) {
    && (forall b | b in live :: AllApart(free, Extent(b, live[b])))
    && (forall b, c | b in live && c in live && b != c :: Apart(Extent(b, live[b]), Extent(c, live[c])))
  }

  ghost predicate Tiles(free: seq<Extent>, live: map<nat, nat>, arena: set<nat>) {
    forall u: nat :: u in arena <==> Contains(free, u) || LiveHas(live, u)
  }

  // ----- Relinking memory

  /** The headers that `free` writes when it links `e` in after node `k`. */
  ghost function Linked(mem: Memory, free: seq<Extent>, e: Extent, k: nat): Memory
    requires k <= |free| && Ring(mem, free)
  {
    var p, q := Addr(free, k), NextAddr(free, k);
    assert Node(mem, free, k) && Node(mem, free, NextIndex(free, k));
    var h := if e.End() == q then Header(mem[q].ptr, e.size + mem[q].size) else Header(q, e.size);
    var mem1 := mem[e.start := h];
    if p + mem1[p].size == e.start then mem1[p := Header(h.ptr, mem1[p].size + h.size)]
    else mem1[p := Header(e.start, mem1[p].size)]
  }

  lemma AddrsDistinct(free: seq<Extent>, i: nat, j: nat)
    requires Canonical(free) && i <= |free| && j <= |free| && i != j
    ensures Addr(free, i) != Addr(free, j)
  {
  }

  lemma StartNotNode(free: seq<Extent>, e: Extent, k: nat)
    requires Canonical(free) && AllApart(free, e) && e.size > 0 && e.start > BASE && k <= |free|
    ensures Addr(free, k) != e.start
  {
    if k > 0 {
      assert Apart(free[k - 1], e);
    }
  }

  lemma LinkedHeader(mem: Memory, free: seq<Extent>, e: Extent, k: nat)
    requires Ring(mem, free) && Canonical(free) && AllApart(free, e) && e.size > 0 && e.start > BASE
    requires k == Below(free, e.start)
    ensures var r := Linked(mem, free, e, k);
            && e.start in r && Addr(free, k) in r
            && (!JoinsPrev(free, e) ==>
                  && r[e.start] == Header(if JoinsNext(free, e) then NextAddr(free, k + 1) else NextAddr(free, k),
                                          Merged(free, e).size)
                  && r[Addr(free, k)] == Header(e.start, SizeAt(free, k)))
            && (JoinsPrev(free, e) ==>
                  r[Addr(free, k)] == Header(if JoinsNext(free, e) then NextAddr(free, k + 1) else NextAddr(free, k),
                                             Merged(free, e).size))
            && forall a | a != e.start && a != Addr(free, k) :: (a in r <==> a in mem) && (a in mem ==> r[a] == mem[a])
  {
    assert Node(mem, free, k) && Node(mem, free, NextIndex(free, k));
    StartNotNode(free, e, k);
    InsertBounds(free, e);
  }

  /** Which nodes the list after an insertion has, in terms of the list before. */
  lemma InsertNodes(free: seq<Extent>, e: Extent, j: nat)
    requires j <= |Insert(free, e)|
    ensures var list, lo, hi, m := Insert(free, e), Low(free, e), High(free, e), Merged(free, e);
            && |list| == lo + 1 + |free| - hi
            && (j <= lo ==> Addr(list, j) == Addr(free, j) && SizeAt(list, j) == SizeAt(free, j))
            && (j < lo ==> NextAddr(list, j) == NextAddr(free, j))
            && (j == lo ==> NextAddr(list, j) == m.start)
            && (j == lo + 1 ==> Addr(list, j) == m.start && SizeAt(list, j) == m.size &&
                                NextAddr(list, j) == NextAddr(free, hi))
            && (j > lo + 1 ==>
                  var i := j - lo - 1 + hi;
                  && Addr(list, j) == Addr(free, i) && SizeAt(list, j) == SizeAt(free, i)
                  && NextAddr(list, j) == NextAddr(free, i))
  {
    hide Merged, Low, High;
  }

  lemma LinkedNode(mem: Memory, free: seq<Extent>, e: Extent, k: nat, j: nat)
    requires Ring(mem, free) && Canonical(free) && AllApart(free, e) && e.size > 0 && e.start > BASE
    requires k == Below(free, e.start) && j <= |Insert(free, e)|
    ensures Node(Linked(mem, free, e, k), Insert(free, e), j)
  {
    hide Insert, Linked, Canonical, AllApart;
    var lo, hi := Low(free, e), High(free, e);
    LinkedHeader(mem, free, e, k);
    InsertNodes(free, e, j);
    if j <= lo {
      assert Node(mem, free, j);
      StartNotNode(free, e, j);
      if j < k {
        AddrsDistinct(free, j, k);
      }
    } else if j > lo + 1 {
      var i := j - lo - 1 + hi;
      assert Node(mem, free, i);
      StartNotNode(free, e, i);
      AddrsDistinct(free, i, k);
    }
  }

  lemma LinkedRing(mem: Memory, free: seq<Extent>, e: Extent, k: nat)
    requires Ring(mem, free) && Canonical(free) && AllApart(free, e) && e.size > 0 && e.start > BASE
    requires k == Below(free, e.start)
    ensures Ring(Linked(mem, free, e, k), Insert(free, e))
  {
    forall j: nat | j <= |Insert(free, e)| ensures Node(Linked(mem, free, e, k), Insert(free, e), j) {
      LinkedNode(mem, free, e, k, j);
    }
  }

  /** The headers that `malloc` writes when it takes `n` units from node `k`. */
  ghost function Carved(mem: Memory, free: seq<Extent>, k: nat, n: nat): Memory
    requires 1 <= k <= |free| && SizeAt(free, k) >= n && Ring(mem, free)
  {
    var p, q := Addr(free, k), Addr(free, k - 1);
    assert Node(mem, free, k) && Node(mem, free, k - 1);
    if SizeAt(free, k) == n then mem[q := Header(mem[p].ptr, mem[q].size)]
    else
      var t := p + mem[p].size - n;
      mem[p := Header(mem[p].ptr, mem[p].size - n)][t := Header(Stale(mem, t), n)]
  }

  /** The pointer field of a block carved from the inside of a free extent is not written. */
  function Stale(mem: Memory, a: nat): nat {
    if a in mem then mem[a].ptr else NULL
  }

  lemma TakenNotNode(free: seq<Extent>, k: nat, n: nat, j: nat)
    requires Canonical(free) && k < |free| && 1 <= n < free[k].size && j <= |free|
    ensures Addr(free, j) != Taken(free, k, n).start
  {
  }

  lemma CarveNodes(free: seq<Extent>, k: nat, n: nat, j: nat)
    requires 1 <= k <= |free| && SizeAt(free, k) >= n && j <= |Carve(free, k - 1, n)|
    ensures var list := Carve(free, k - 1, n);
            if SizeAt(free, k) == n then
              var i := if j < k then j else j + 1;
              && |list| == |free| - 1
              && Addr(list, j) == Addr(free, i) && SizeAt(list, j) == SizeAt(free, i)
              && NextAddr(list, j) == if j == k - 1 then NextAddr(free, k) else NextAddr(free, i)
            else
              && |list| == |free|
              && Addr(list, j) == Addr(free, j) && NextAddr(list, j) == NextAddr(free, j)
              && SizeAt(list, j) == if j == k then SizeAt(free, k) - n else SizeAt(free, j)
  {
  }

  lemma CarvedRing(mem: Memory, free: seq<Extent>, k: nat, n: nat)
    requires Ring(mem, free) && Canonical(free) && 1 <= k <= |free| && 1 <= n <= SizeAt(free, k)
    ensures Ring(Carved(mem, free, k, n), Carve(free, k - 1, n))
  {
    hide Carve, Canonical;
    var r, list := Carved(mem, free, k, n), Carve(free, k - 1, n);
    assert Node(mem, free, k) && Node(mem, free, k - 1);
    forall j: nat | j <= |list| ensures Node(r, list, j) {
      CarveNodes(free, k, n, j);
      if SizeAt(free, k) == n {
        var i := if j < k then j else j + 1;
        assert Node(mem, free, i);
        if i != k - 1 {
          AddrsDistinct(free, i, k - 1);
        }
      } else {
        assert Node(mem, free, j);
        TakenNotNode(free, k - 1, n, j);
        if j != k {
          AddrsDistinct(free, j, k);
        }
      }
    }
  }

  // ----- Tiling

  lemma LiveRemove(live: map<nat, nat>, b: nat, u: int)
    requires b in live
    ensures LiveHas(live, u) <==> LiveHas(live - {b}, u) || Extent(b, live[b]).Has(u)
  {
    if c :| c in live && Extent(c, live[c]).Has(u) {
      if c != b {
        assert c in live - {b};
      }
    }
    if c :| c in live - {b} && Extent(c, live[c]).Has(u) {
      assert c in live;
    }
  }

  lemma LiveAdd(live: map<nat, nat>, b: nat, n: nat, u: int)
    requires b !in live
    ensures LiveHas(live[b := n], u) <==> LiveHas(live, u) || Extent(b, n).Has(u)
  {
    LiveRemove(live[b := n], b, u);
    assert live[b := n] - {b} == live;
  }

  lemma InsertApart(free: seq<Extent>, e: Extent, x: Extent)
    requires Canonical(free) && AllApart(free, e) && e.size > 0 && e.start > BASE
    requires AllApart(free, x) && Apart(e, x) && x.size > 0
    ensures AllApart(Insert(free, e), x)
  {
    var r := Insert(free, e);
    InsertBounds(free, e);
    forall i | 0 <= i < |r| ensures Apart(r[i], x) {
      if !Apart(r[i], x) {
        var u := if r[i].start >= x.start then r[i].start else x.start;
        InsertCanonical(free, e);
        assert r[i].Has(u);
        InsertContains(free, e, u);
        assert false;
      }
    }
  }

  lemma CarveApart(free: seq<Extent>, k: nat, n: nat, x: Extent)
    requires Canonical(free) && k < |free| && 1 <= n <= free[k].size
    requires AllApart(free, x)
    ensures AllApart(Carve(free, k, n), x) && Apart(Taken(free, k, n), x)
  {
    var r := Carve(free, k, n);
    assert Apart(free[k], x);
    forall i | 0 <= i < |r| ensures Apart(r[i], x) {
      assert Apart(free[if free[k].size == n && i >= k then i + 1 else i], x);
    }
  }

  lemma TakenApart(free: seq<Extent>, k: nat, n: nat)
    requires Canonical(free) && k < |free| && 1 <= n <= free[k].size
    ensures AllApart(Carve(free, k, n), Taken(free, k, n))
  {
  }

  lemma FreedTiles(free: seq<Extent>, live: map<nat, nat>, arena: set<nat>, b: nat)
    requires Canonical(free) && Disjoint(free, live) && Tiles(free, live, arena)
    requires b in live && live[b] > 0 && b > BASE && forall c | c in live :: live[c] > 0
    ensures var list := Insert(free, Extent(b, live[b]));
            Disjoint(list, live - {b}) && Tiles(list, live - {b}, arena)
  {
    var e := Extent(b, live[b]);
    var list := Insert(free, e);
    forall c | c in live - {b} ensures AllApart(list, Extent(c, live[c])) {
      InsertApart(free, e, Extent(c, live[c]));
    }
    forall u: nat ensures u in arena <==> Contains(list, u) || LiveHas(live - {b}, u) {
      InsertContains(free, e, u);
      LiveRemove(live, b, u);
    }
  }

  lemma TakenTiles(free: seq<Extent>, live: map<nat, nat>, arena: set<nat>, k: nat, n: nat)
    requires Canonical(free) && Disjoint(free, live) && Tiles(free, live, arena)
    requires k < |free| && 1 <= n <= free[k].size && forall c | c in live :: live[c] > 0
    ensures var t := Taken(free, k, n).start;
            && t !in live && t > BASE
            && Disjoint(Carve(free, k, n), live[t := n]) && Tiles(Carve(free, k, n), live[t := n], arena)
  {
    var t, list := Taken(free, k, n).start, Carve(free, k, n);
    forall c | c in live ensures c != t && AllApart(list, Extent(c, live[c])) && Apart(Extent(t, n), Extent(c, live[c])) {
      CarveApart(free, k, n, Extent(c, live[c]));
    }
    TakenApart(free, k, n);
    forall u: nat ensures u in arena <==> Contains(list, u) || LiveHas(live[t := n], u) {
      CarveContains(free, k, n, u);
      LiveAdd(live, t, n, u);
      if Taken(free, k, n).Has(u) {
        assert free[k].Has(u);
      }
    }
  }

  /** What the allocator's memory means: free extents, blocks handed out (with their sizes), all units
      obtained from sbrk, and the node from which the next search starts. */
  datatype Heap = Heap(free: seq<Extent>, live: map<nat, nat>, arena: set<nat>, at: nat)

  /** The heap after sbrk has given `n` units at `c`. */
  ghost function Grown(h: Heap, c: nat, n: nat): Heap {
    Heap(Insert(h.free, Extent(c, n)), h.live, h.arena + Region(c, n), Below(h.free, c))
  }

  /** `n` units are taken from the end of the first extent that has them, searching from node `at` on. */
  ghost predicate Allocates(h: Heap, h': Heap, n: nat, r: nat) {
    && FirstFit(h.free, h.at, h'.at + 1, n)
    && h'.free == Carve(h.free, h'.at, n)
    && r == Taken(h.free, h'.at, n).start + 1
    && r - 1 !in h.live && h'.live == h.live[r - 1 := n]
    && h'.arena == h.arena
  }

  ghost predicate Mallocs(h: Heap, h': Heap, n: nat, core: Option<nat>, r: nat) {
    if !NoneFits(h.free, n) then Allocates(h, h', n, r)
    else if core.Some? then Allocates(Grown(h, core.value, CoreUnits(n)), h', n, r)
    else h' == h && r == NULL
  }

  class Allocator {
    var mem: Memory
    var freep: nat
    ghost var free: seq<Extent>
    ghost var live: map<nat, nat>
    ghost var arena: set<nat>
    ghost var at: nat              // the node that freep points to

    ghost predicate Valid()
      reads this
    {
      && LiveHeaders(mem, live) && Disjoint(free, live) && Tiles(free, live, arena) && Canonical(free)
      && (freep == NULL ==> free == [] && live == map[])
      && (freep != NULL ==> Ring(mem, free) && at <= |free| && freep == Addr(free, at))
    }

    ghost function Abs(): Heap
      reads this
    {
      Heap(free, live, arena, if freep == NULL then 0 else at)
    }

    constructor ()
      ensures Valid() && free == [] && live == map[] && arena == {}
    {
      mem, freep := map[], NULL;
      free, live, arena, at := [], map[], {}, 0;
    }

    /** The search loop of `free`: the node after which `bp` belongs. */
    method FindSlot(bp: nat) returns (p: nat)
      requires Valid() && freep != NULL && bp in live
      ensures p == Addr(free, Below(free, bp))
    {
      ghost var e := Extent(bp, live[bp]);
      p := freep;
      ghost var k: nat := at;
      assert Node(mem, free, k);
      while !(bp > p && bp < mem[p].ptr)
        invariant k <= |free| && p == Addr(free, k) && Node(mem, free, k)
        decreases Dist(free, k, Below(free, bp))
      {
        StopsAt(mem, free, e, k);
        if p >= mem[p].ptr && (bp > p || bp < mem[p].ptr) {
          break;
        }
        k := NextIndex(free, k);
        p := mem[p].ptr;
        assert Node(mem, free, k);
      }
      StopsAt(mem, free, e, k);
    }

    /** Give back the block at `ap`, merging it with the free extents it touches. */
    method Free(ap: nat)
      requires Valid() && ap >= 1 && ap - 1 in live
      modifies this
      ensures Valid() && freep != NULL
      ensures free == Insert(old(free), Extent(ap - 1, old(live)[ap - 1]))
      ensures live == old(live) - {ap - 1} && arena == old(arena)
      ensures at == Below(old(free), ap - 1)
    {
      hide Disjoint, Tiles, Canonical, Insert, LiveHeaders, Below, Ring, AllApart, SizeAt;
      var bp := ap - 1;
      LiveIsApart(mem, free, live, bp);
      var p := FindSlot(bp);
      ghost var e, k, was := Extent(bp, live[bp]), Below(free, bp), mem;
      RingAt(mem, free, k);
      var next := mem[p].ptr;
      if bp + mem[bp].size == next {
        mem := mem[bp := Header(mem[next].ptr, mem[bp].size + mem[next].size)];
      } else {
        mem := mem[bp := Header(next, mem[bp].size)];
      }
      if p + mem[p].size == bp {
        mem := mem[p := Header(mem[bp].ptr, mem[p].size + mem[bp].size)];
      } else {
        mem := mem[p := Header(bp, mem[p].size)];
      }
      freep := p;
      assert mem == Linked(was, free, e, k);
      FreedValid(was, free, live, arena, bp);
      free, live, at := Insert(free, e), live - {bp}, k;
    }

    /** Ask sbrk for at least `nu` units and free them into the list.  `core` is its answer.  The call goes `stray`
        if sbrk answers but was not asked for memory: the header of the new block is stored where there is none. */
    method Morecore(nu: nat, core: Option<nat>) returns (r: nat, stray: bool)
      requires Valid() && freep != NULL && nu <= MAX_CORE
      requires core.Some? ==> Granted(arena, core.value, SbrkBytes(CoreUnits(nu)))
      modifies this
      ensures Valid() && freep != NULL
      ensures stray <==> core.Some? && nu >= 0x1000_0000
      ensures core.None? || stray ==> r == NULL && Abs() == old(Abs())
      ensures core.Some? && !stray ==> r == freep && Abs() == Grown(old(Abs()), core.value, CoreUnits(nu))
    {
      hide Disjoint, Tiles, Canonical, Insert, LiveHeaders, Below, Ring, Contains, LiveHas;
      var n := if nu < MIN_CORE then MIN_CORE else nu;
      AllOrNothing(n);
      RequestExactIff(n);
      if core.None? {
        return NULL, false;
      }
      if SbrkBytes(n) <= 0 {
        return NULL, true;
      }
      var hp := core.value;
      RegionJoins(mem, free, live, arena, hp, n);
      ghost var was := live;
      mem := mem[hp := Header(Stale(mem, hp), n)];
      live, arena := live[hp := n], arena + Region(hp, n);
      Free(hp + 1);
      assert live == was;
      return freep, false;
    }

    /** Unlink the block at node `k`, or cut its tail off; `prevp` is the node before it. */
    method Take(prevp: nat, p: nat, n: nat, ghost k: nat) returns (r: nat)
      requires Valid() && freep != NULL && n >= 1
      requires 1 <= k <= |free| && prevp == Addr(free, k - 1) && p == Addr(free, k) && SizeAt(free, k) >= n
      modifies this
      ensures Valid() && freep != NULL && at == k - 1
      ensures FirstFit(old(free), old(at), k, n) ==> Allocates(old(Abs()), Abs(), n, r)
    {
      hide Disjoint, Tiles, Canonical, LiveHeaders, Carve;
      ghost var was := mem;
      assert Node(mem, free, k) && Node(mem, free, k - 1);
      var q := p;
      if mem[p].size == n {
        mem := mem[prevp := Header(mem[p].ptr, mem[prevp].size)];
      } else {
        mem := mem[p := Header(mem[p].ptr, mem[p].size - n)];
        q := p + mem[p].size;
        mem := mem[q := Header(Stale(mem, q), n)];
      }
      freep := prevp;
      TakenValid(was, free, live, arena, k, n);
      assert mem == Carved(was, free, k, n);
      live := live[q := n];
      free, at := Carve(free, k - 1, n), k - 1;
      return q + 1;
    }

    /** First fit, searching the ring from the node after `freep`; asks for more memory after one full round. */
    method Malloc(nbytes: nat, core: Option<nat>) returns (r: nat, stray: bool)
      requires Valid() && nbytes < U32
      requires core.Some? ==> Granted(arena, core.value, SbrkBytes(CoreUnits(Nunits(nbytes))))
      modifies this
      ensures Valid() && freep != NULL
      ensures stray <==> core.Some? && !AsksRight(nbytes) && NoneFits(old(free), Nunits(nbytes))
      ensures stray ==> Abs() == old(Abs())
      ensures !stray ==> Mallocs(old(Abs()), Abs(), Nunits(nbytes), core, r)
    {
      hide Disjoint, Tiles, Canonical, LiveHeaders, Grown, Passed, FirstFit, Carve, NoneFits, Nunits, SbrkBytes, Granted;
      AsksRightIff(nbytes);
      ghost var h0 := Abs();
      var n := Nunits(nbytes);
      var prevp := freep;
      if prevp == NULL {
        prevp := BASE;
        freep := BASE;
        mem := mem[BASE := Header(BASE, 0)];
        at := 0;
        NoLive(mem);
      }
      ghost var k: nat, grown := at, false;
      RoundStarts(free, at, n);
      assert Node(mem, free, k);
      var p := mem[prevp].ptr;
      while true
        invariant Valid() && freep != NULL && k <= |free|
        invariant prevp == Addr(free, k) && p == NextAddr(free, k)
        invariant if grown then core.Some? && AsksRight(nbytes) && NoneFits(h0.free, n) && !NoneFits(free, n) &&
                                Abs() == Grown(h0, core.value, CoreUnits(n))
                  else Abs() == h0
        invariant Passed(free, at, NextIndex(free, k), n)
        decreases !grown, Dist(free, NextIndex(free, k), at)
      {
        ghost var j := NextIndex(free, k);
        assert Node(mem, free, j);
        if mem[p].size >= n {
          Fits(free, at, j, n);
          stray := false;
          r := Take(prevp, p, n, j);
          return;
        }
        if p == freep {
          RoundDone(free, at, j, n);
          p, stray := Morecore(n, core);
          if p == NULL {
            return NULL, stray;
          }
          CoreFits(h0, core.value, n);
          RoundStarts(free, at, n);
          grown, k := true, at;
        } else {
          PassedNext(free, at, j, n);
          k := j;
        }
        assert Node(mem, free, k);
        prevp := p;
        p := mem[p].ptr;
      }
    }
  }

  // ----- First fit

  ghost predicate NoneFits(free: seq<Extent>, n: nat) {
    forall i | 0 <= i < |free| :: free[i].size < n
  }

  /** Every node met between leaving node `f` and reaching node `k` is too small. */
  ghost predicate Passed(free: seq<Extent>, f: nat, k: nat, n: nat)
    requires f <= |free| && k <= |free|
  {
    forall j: nat | j <= |free| && Dist(free, j, f) > Dist(free, k, f) :: SizeAt(free, j) < n
  }

  /** Node `k` is the first one after node `f`, along the ring, that has `n` units. */
  ghost predicate FirstFit(free: seq<Extent>, f: nat, k: nat, n: nat) {
    f <= |free| && 1 <= k <= |free| && SizeAt(free, k) >= n && Passed(free, f, k, n)
  }

  lemma Fits(free: seq<Extent>, f: nat, k: nat, n: nat)
    requires n >= 1 && f <= |free| && k <= |free| && Passed(free, f, k, n) && SizeAt(free, k) >= n
    ensures 1 <= k && FirstFit(free, f, k, n) && !NoneFits(free, n)
  {
    assert free[k - 1].size >= n;
  }

  lemma RoundStarts(free: seq<Extent>, f: nat, n: nat)
    requires f <= |free|
    ensures Passed(free, f, NextIndex(free, f), n)
  {
  }

  lemma RoundDone(free: seq<Extent>, f: nat, k: nat, n: nat)
    requires f <= |free| && k <= |free| && Passed(free, f, k, n) && SizeAt(free, k) < n
    requires Canonical(free) && Addr(free, k) == Addr(free, f)
    ensures NoneFits(free, n)
  {
    if k != f {
      AddrsDistinct(free, k, f);
    }
    forall i | 0 <= i < |free| ensures free[i].size < n {
      var j: nat := i + 1;
      assert j != f ==> Dist(free, j, f) > Dist(free, f, f);
      assert SizeAt(free, j) < n;
    }
  }

  lemma PassedNext(free: seq<Extent>, f: nat, k: nat, n: nat)
    requires f <= |free| && k <= |free| && k != f && Passed(free, f, k, n) && SizeAt(free, k) < n
    ensures Passed(free, f, NextIndex(free, k), n)
    ensures Dist(free, NextIndex(free, k), f) < Dist(free, k, f)
  {
  }

  lemma FreedValid(mem: Memory, free: seq<Extent>, live: map<nat, nat>, arena: set<nat>, bp: nat)
    requires Ring(mem, free) && Canonical(free) && LiveHeaders(mem, live)
    requires Disjoint(free, live) && Tiles(free, live, arena) && bp in live
    ensures var e, k := Extent(bp, live[bp]), Below(free, bp);
            var r, list := Linked(mem, free, e, k), Insert(free, e);
            && Ring(r, list) && Canonical(list) && LiveHeaders(r, live - {bp})
            && Disjoint(list, live - {bp}) && Tiles(list, live - {bp}, arena)
            && k <= |list| && Addr(list, k) == Addr(free, k) != NULL
  {
    hide Canonical, Disjoint, Tiles, Ring, Linked, Insert, LiveHeaders;
    var e, k := Extent(bp, live[bp]), Below(free, bp);
    LiveIsApart(mem, free, live, bp);
    LinkedRing(mem, free, e, k);
    LinkedKeepsLive(mem, free, live, e, k);
    FreedTiles(free, live, arena, bp);
    InsertCanonical(free, e);
    SlotSurvives(free, e);
  }

  lemma LiveIsApart(mem: Memory, free: seq<Extent>, live: map<nat, nat>, b: nat)
    requires LiveHeaders(mem, live) && Disjoint(free, live) && b in live
    ensures AllApart(free, Extent(b, live[b])) && live[b] > 0 && b > BASE && forall c | c in live :: live[c] > 0
    ensures b in mem && mem[b].size == live[b]
  {
  }

  lemma SlotSurvives(free: seq<Extent>, e: Extent)
    requires Canonical(free)
    ensures var k, list := Below(free, e.start), Insert(free, e);
            k <= |list| && Addr(list, k) == Addr(free, k) != NULL
  {
    var k := Below(free, e.start);
    if JoinsPrev(free, e) {
      InsertNodes(free, e, k);
    } else {
      InsertNodes(free, e, k);
    }
  }

  /** The search of `free` stops exactly at the node after which the block belongs. */
  lemma StopsAt(mem: Memory, free: seq<Extent>, e: Extent, k: nat)
    requires Ring(mem, free) && Canonical(free) && AllApart(free, e) && e.size > 0 && e.start > BASE && k <= |free|
    ensures Node(mem, free, k)
    ensures var p, q, bp := Addr(free, k), NextAddr(free, k), e.start;
            (bp > p && bp < q) || (p >= q && (bp > p || bp < q)) <==> k == Below(free, bp)
    ensures k != Below(free, e.start) ==>
              Dist(free, NextIndex(free, k), Below(free, e.start)) < Dist(free, k, Below(free, e.start))
  {
    var p, q, bp := Addr(free, k), NextAddr(free, k), e.start;
    assert Node(mem, free, k);
    StartNotNode(free, e, k);
    StartNotNode(free, e, NextIndex(free, k));
    if k > 0 && k < |free| {
      assert free[k - 1].End() < free[k].start;
    }
    if (bp > p && bp < q) || (p >= q && (bp > p || bp < q)) {
      BelowIs(free, bp, k);
    }
  }

  lemma LinkedKeepsLive(mem: Memory, free: seq<Extent>, live: map<nat, nat>, e: Extent, k: nat)
    requires Ring(mem, free) && Canonical(free) && LiveHeaders(mem, live) && Disjoint(free, live)
    requires e.start in live && live[e.start] == e.size && k == Below(free, e.start)
    ensures LiveHeaders(Linked(mem, free, e, k), live - {e.start})
    ensures forall b | b in live - {e.start} :: Linked(mem, free, e, k)[b].size == mem[b].size
  {
    LinkedHeader(mem, free, e, k);
    forall b | b in live - {e.start} ensures b != Addr(free, k) {
      StartNotNode(free, Extent(b, live[b]), k);
    }
  }

  // ----- What allocation does to the free units

  /** The block is cut out of free memory: its units were free, and every other unit stays as it was. */
  lemma AllocatesUnits(h: Heap, h': Heap, n: nat, r: nat, u: int)
    requires Canonical(h.free) && Allocates(h, h', n, r)
    ensures Extent(r - 1, n).Has(u) ==> Contains(h.free, u)
    ensures Contains(h'.free, u) <==> Contains(h.free, u) && !Extent(r - 1, n).Has(u)
  {
    CarveContains(h.free, h'.at, n, u);
    if Extent(r - 1, n).Has(u) {
      assert h.free[h'.at].Has(u);
    }
  }

  /** Freeing the block just allocated restores the free list exactly, whatever was split or unlinked. */
  lemma FreeUndoesMalloc(h: Heap, h': Heap, n: nat, r: nat)
    requires Canonical(h.free) && n >= 1 && Allocates(h, h', n, r)
    ensures Insert(h'.free, Extent(r - 1, n)) == h.free
  {
    var k, e := h'.at, Extent(r - 1, n);
    CarveCanonical(h.free, k, n);
    TakenApart(h.free, k, n);
    InsertCanonical(h'.free, e);
    forall u ensures Contains(Insert(h'.free, e), u) <==> Contains(h.free, u) {
      InsertContains(h'.free, e, u);
      AllocatesUnits(h, h', n, r, u);
    }
    CanonicalIsUnique(Insert(h'.free, e), h.free);
  }

  // ----- More memory

  ghost function Region(c: nat, n: nat): set<nat> {
    set u: nat | c <= u < c + n && Extent(c, n).Has(u)
  }

  /** What sbrk promises for a non-negative number of bytes: that much memory that the allocator does not have yet, above the
      program's data. */
  ghost predicate Granted(arena: set<nat>, c: nat, bytes: int) {
    bytes >= 0 ==> FreshRegion(arena, c, bytes / HEADER_BYTES)
  }

  ghost predicate FreshRegion(arena: set<nat>, c: nat, n: nat) {
    c > BASE && Region(c, n) !! arena
  }

  lemma FreshApart(arena: set<nat>, c: nat, n: nat, x: Extent)
    requires FreshRegion(arena, c, n) && n > 0 && x.size > 0
    requires forall u: nat | x.Has(u) :: u in arena
    ensures Apart(x, Extent(c, n))
  {
    var u := if x.start >= c then x.start else c;
    assert Apart(x, Extent(c, n)) || (x.Has(u) && u in Region(c, n));
  }

  lemma RegionApart(mem: Memory, free: seq<Extent>, live: map<nat, nat>, arena: set<nat>, c: nat, n: nat)
    requires LiveHeaders(mem, live) && Canonical(free) && Tiles(free, live, arena)
    requires FreshRegion(arena, c, n) && n > 0
    ensures AllApart(free, Extent(c, n)) && c !in live
    ensures forall b | b in live :: Apart(Extent(b, live[b]), Extent(c, n))
  {
    forall i | 0 <= i < |free| ensures Apart(free[i], Extent(c, n)) {
      forall u: nat | free[i].Has(u) ensures u in arena {
        assert Contains(free, u);
      }
      FreshApart(arena, c, n, free[i]);
    }
    forall b | b in live ensures b != c && Apart(Extent(b, live[b]), Extent(c, n)) {
      forall u: nat | Extent(b, live[b]).Has(u) ensures u in arena {
        assert LiveHas(live, u);
      }
      FreshApart(arena, c, n, Extent(b, live[b]));
    }
  }

  /** A fresh region may be treated as a block handed out, which `free` then takes back. */
  lemma RegionJoins(mem: Memory, free: seq<Extent>, live: map<nat, nat>, arena: set<nat>, c: nat, n: nat)
    requires Ring(mem, free) && LiveHeaders(mem, live) && Canonical(free) && Disjoint(free, live) && Tiles(free, live, arena)
    requires FreshRegion(arena, c, n) && n > 0
    ensures var mem' := mem[c := Header(Stale(mem, c), n)];
            && c !in live && live[c := n] - {c} == live
            && Ring(mem', free) && LiveHeaders(mem', live[c := n])
            && Disjoint(free, live[c := n]) && Tiles(free, live[c := n], arena + Region(c, n))
  {
    hide Contains, LiveHas;
    RegionApart(mem, free, live, arena, c, n);
    var mem' := mem[c := Header(Stale(mem, c), n)];
    forall k: nat | k <= |free| ensures Node(mem', free, k) {
      assert Node(mem, free, k);
      StartNotNode(free, Extent(c, n), k);
    }
    forall u: nat ensures u in arena + Region(c, n) <==> Contains(free, u) || LiveHas(live[c := n], u) {
      LiveAdd(live, c, n, u);
    }
  }

  lemma CoreFits(h: Heap, c: nat, n: nat)
    ensures !NoneFits(Grown(h, c, CoreUnits(n)).free, n)
  {
    var free, e := h.free, Extent(c, CoreUnits(n));
    assert Merged(free, e).size >= e.size;
    assert Insert(free, e)[Low(free, e)] == Merged(free, e);
  }

  lemma NoLive(mem: Memory)
    ensures LiveHeaders(mem, map[])
  {
  }

  lemma CarvedKeepsLive(mem: Memory, free: seq<Extent>, live: map<nat, nat>, k: nat, n: nat)
    requires Ring(mem, free) && Canonical(free) && LiveHeaders(mem, live) && Disjoint(free, live)
    requires 1 <= k <= |free| && 1 <= n <= SizeAt(free, k)
    ensures LiveHeaders(Carved(mem, free, k, n), live[Taken(free, k - 1, n).start := n])
  {
    assert Node(mem, free, k) && Node(mem, free, k - 1);
    forall b | b in live ensures b != Addr(free, k) && b != Addr(free, k - 1) && b != Taken(free, k - 1, n).start {
      StartNotNode(free, Extent(b, live[b]), k);
      StartNotNode(free, Extent(b, live[b]), k - 1);
      CarveApart(free, k - 1, n, Extent(b, live[b]));
    }
  }

  lemma TakenValid(mem: Memory, free: seq<Extent>, live: map<nat, nat>, arena: set<nat>, k: nat, n: nat)
    requires Ring(mem, free) && Canonical(free) && LiveHeaders(mem, live)
    requires Disjoint(free, live) && Tiles(free, live, arena)
    requires 1 <= k <= |free| && 1 <= n <= SizeAt(free, k)
    ensures var t, list, r := Taken(free, k - 1, n).start, Carve(free, k - 1, n), Carved(mem, free, k, n);
            && t !in live && Ring(r, list) && Canonical(list) && LiveHeaders(r, live[t := n])
            && Disjoint(list, live[t := n]) && Tiles(list, live[t := n], arena)
            && k - 1 <= |list| && Addr(list, k - 1) == Addr(free, k - 1) != NULL
  {
    CarvedRing(mem, free, k, n);
    CarvedKeepsLive(mem, free, live, k, n);
    LivePositive(mem, live);
    TakenTiles(free, live, arena, k - 1, n);
    CarveCanonical(free, k - 1, n);
    CarveNodes(free, k, n, k - 1);
    hide Canonical, Disjoint, Tiles, Ring, Carved, Carve, LiveHeaders;
    NodeNotNull(free, k - 1);
  }

  lemma NodeNotNull(free: seq<Extent>, k: nat)
    requires Canonical(free) && k <= |free|
    ensures Addr(free, k) != NULL
  {
  }

  lemma LivePositive(mem: Memory, live: map<nat, nat>)
    requires LiveHeaders(mem, live)
    ensures forall c | c in live :: live[c] > 0
  {
  }
}
