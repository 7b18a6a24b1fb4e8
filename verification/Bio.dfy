/**
 The buffer cache: NBUF buffers on a doubly linked list, most recently used first.

 Buffers are numbered below NBUF and HEAD is the list head.  Each method is one critical
 section under the cache lock, or one use of a buffer by the holder of its sleep-lock, so an
 interleaving of processes is a sequence of method calls.
 */
module Bio {
  import opened Params

  const HEAD: nat := NBUF

  type Block = seq<int>

  datatype Buf = Buf(dev: nat, blockno: nat, refcnt: nat, valid: bool, dirty: bool, locked: bool, data: Block)

  // ----- Doubly linked lists through `next` and `prev`

  ghost predicate Distinct(s: seq<nat>) {
    && (forall i | 0 <= i < |s| :: s[i] < HEAD)
    && (forall i, j | 0 <= i < j < |s| :: s[i] != s[j])
  }

  /** The list in order, with the head at both ends. */
  ghost function Cycle(order: seq<nat>): seq<nat> {
    [HEAD] + order + [HEAD]
  }

  /** `next` and `prev` link exactly `order`, consistently in both directions. */
  ghost predicate Linked(next: seq<nat>, prev: seq<nat>, order: seq<nat>) {
    && |next| == |prev| == NBUF + 1
    && Distinct(order)
    && var c := Cycle(order);
       && (forall i | 0 <= i < |c| - 1 :: next[c[i]] == c[i + 1])
       && (forall i | 0 < i < |c| :: prev[c[i]] == c[i - 1])
  }

  ghost function Without(order: seq<nat>, k: nat): seq<nat>
    requires k < |order|
  {
    order[..k] + order[k + 1..]
  }

  lemma LinksAt(next: seq<nat>, prev: seq<nat>, order: seq<nat>, k: nat)
    requires Linked(next, prev, order) && k < |order|
    ensures next[order[k]] == if k + 1 < |order| then order[k + 1] else HEAD
    ensures prev[order[k]] == if k > 0 then order[k - 1] else HEAD
    ensures next[HEAD] == order[0] && prev[HEAD] == order[|order| - 1]
  {
    var c := Cycle(order);
    assert c[k + 1] == order[k];
    assert next[c[k + 1]] == c[k + 2] && prev[c[k + 1]] == c[k];
    assert next[c[0]] == c[1] && prev[c[|c| - 1]] == c[|c| - 2];
  }

  /** The two pointer updates that take a buffer out of the list. */
  lemma Unlink(next: seq<nat>, prev: seq<nat>, order: seq<nat>, k: nat)
    requires Linked(next, prev, order) && k < |order|
    ensures var b := order[k];
            && next[b] <= HEAD && prev[b] <= HEAD
            && Linked(next[prev[b] := next[b]], prev[next[b] := prev[b]], Without(order, k))
  {
    var b, c := order[k], Cycle(order);
    var o := Without(order, k);
    var d := Cycle(o);
    LinksAt(next, prev, order, k);
    assert forall i | 0 <= i <= k :: d[i] == c[i];
    assert forall i | k < i < |d| :: d[i] == c[i + 1];
    assert c[k + 1] == b;
    var next', prev' := next[prev[b] := next[b]], prev[next[b] := prev[b]];
    forall i | 0 <= i < |d| - 1 ensures next'[d[i]] == d[i + 1] {
      if i < k {
        assert c[i] != c[k] by { CycleDistinct(order, i, k); }
      } else if i > k {
        assert c[i + 1] != c[k] by { CycleDistinct(order, i + 1, k); }
      }
    }
    forall i | 0 < i < |d| ensures prev'[d[i]] == d[i - 1] {
      if i <= k {
        assert c[i] != c[k + 2] by { CycleDistinct'(order, i, k + 2); }
      } else if i > k + 1 {
        assert c[i + 1] != c[k + 2] by { CycleDistinct'(order, i + 1, k + 2); }
      }
    }
  }

  /** Positions before the closing head hold different buffers. */
  lemma CycleDistinct(order: seq<nat>, i: nat, j: nat)
    requires Distinct(order) && i != j && i <= |order| && j <= |order|
    ensures Cycle(order)[i] != Cycle(order)[j]
  {
  }

  /** Positions after the opening head hold different buffers. */
  lemma CycleDistinct'(order: seq<nat>, i: nat, j: nat)
    requires Distinct(order) && i != j && 1 <= i <= |order| + 1 && 1 <= j <= |order| + 1
    ensures Cycle(order)[i] != Cycle(order)[j]
  {
  }

  /** The four pointer updates that put a buffer at the front of the list. */
  lemma PushFront(next: seq<nat>, prev: seq<nat>, order: seq<nat>, b: nat)
    requires Linked(next, prev, order) && b < HEAD && b !in order
    ensures var first := next[HEAD];
            && first <= HEAD
            && Linked(next[b := first][HEAD := b], prev[b := HEAD][first := b], [b] + order)
  {
    var c, d := Cycle(order), Cycle([b] + order);
    var first := next[HEAD];
    assert next[c[0]] == c[1];
    assert forall i | 2 <= i < |d| :: d[i] == c[i - 1];
    assert d[1] == b;
    var next', prev' := next[b := first][HEAD := b], prev[b := HEAD][first := b];
    forall i | 0 <= i < |d| - 1 ensures next'[d[i]] == d[i + 1] {
      if i >= 2 {
        assert c[i - 1] != c[0] by { CycleDistinct(order, i - 1, 0); }
      }
    }
    forall i | 0 < i < |d| ensures prev'[d[i]] == d[i - 1] {
      if i > 2 {
        assert c[i - 1] != c[1] by { CycleDistinct'(order, i - 1, 1); }
      }
    }
  }

  // ----- What stays true of the buffers

  predicate Holds(b: Buf, dev: nat, blockno: nat) {
    b.dev == dev && b.blockno == blockno
  }

  /** A buffer that may be given to another block. */
  predicate Eligible(b: Buf) {
    b.refcnt == 0 && !b.dirty
  }

  /** No block of a real device is in two buffers (device 0 marks buffers never used). */
  ghost predicate Unique(bufs: seq<Buf>) {
    forall i, j | 0 <= i < j < |bufs| && bufs[i].dev != 0 :: !Holds(bufs[j], bufs[i].dev, bufs[i].blockno)
  }

  /** Every buffer is on the list; with `Distinct`, exactly once. */
  ghost predicate Complete(order: seq<nat>) {
    |order| == NBUF && forall b: nat | b < NBUF :: b in order
  }

  lemma Where(order: seq<nat>, b: nat) returns (k: nat)
    requires Complete(order) && b < NBUF
    ensures k < NBUF == |order| && order[k] == b
  {
    assert b in order;
    k :| k < |order| && order[k] == b;
  }

  /** Each list position was released later than the next one. */
  ghost predicate Recency(order: seq<nat>, stamp: seq<int>, clock: int) {
    && |stamp| == NBUF && Distinct(order)
    && (forall i, j | 0 <= i < j < |order| :: stamp[order[i]] > stamp[order[j]])
    && (forall b | 0 <= b < NBUF :: stamp[b] < clock)
  }

  ghost predicate UseOk(b: Buf, blocks: nat, modified: bool) {
    && (b.locked ==> b.refcnt > 0 && b.valid)
    && (modified ==> b.locked)
    && (b.dirty ==> b.valid)
    && (b.valid ==> b.dev == 1 && b.blockno < blocks)
  }

  /** A buffer that nobody is changing holds the current contents of its block; a disk block is out of date
      only while a dirty buffer holds it. */
  ghost predicate Coherent(bufs: seq<Buf>, disk: seq<Block>, view: seq<Block>, modified: set<nat>, pinned: map<nat, nat>) {
    && |view| == |disk|
    && (forall i | 0 <= i < |bufs| :: UseOk(bufs[i], |disk|, i in modified))
    && (forall i | 0 <= i < |bufs| && bufs[i].valid && i !in modified :: bufs[i].data == view[bufs[i].blockno])
    && (forall b | 0 <= b < |disk| && disk[b] != view[b] :: b in pinned)
    && (forall b | b in pinned :: pinned[b] < |bufs| && bufs[pinned[b]].dirty && Holds(bufs[pinned[b]], 1, b))
  }

  function Zeroed(): (bufs: seq<Buf>)
    ensures |bufs| == NBUF && forall i | 0 <= i < NBUF :: bufs[i] == Buf(0, 0, 0, false, false, false, [])
  {
    seq(NBUF, i => Buf(0, 0, 0, false, false, false, []))
  }

  lemma FreshBuffers(disk: seq<Block>)
    ensures Unique(Zeroed()) && Coherent(Zeroed(), disk, disk, {}, map[])
  {
  }

  lemma FreshOrder(order: seq<nat>, stamp: seq<int>)
    requires Distinct(order) && |order| == NBUF && forall i | 0 <= i < NBUF :: order[i] == NBUF - 1 - i
    requires |stamp| == NBUF && forall i | 0 <= i < NBUF :: stamp[i] == i
    ensures Complete(order) && Recency(order, stamp, NBUF)
  {
    forall b: nat | b < NBUF ensures b in order {
      assert order[NBUF - 1 - b] == b;
    }
  }

  class Cache {
    var next: seq<nat>
    var prev: seq<nat>
    var bufs: seq<Buf>
    var disk: seq<Block>
    ghost var order: seq<nat>          // the list, most recently released first
    ghost var stamp: seq<int>          // when each buffer was last released
    ghost var clock: int
    ghost var view: seq<Block>         // the latest contents written or logged, block by block
    ghost var modified: set<nat>       // buffers whose holder has changed data without writing or logging it
    ghost var pinned: map<nat, nat>    // the dirty buffer of each block that has one

    ghost predicate Valid()
      reads this
    {
      && |bufs| == NBUF
      && Linked(next, prev, order) && Complete(order)
      && Recency(order, stamp, clock)
      && Unique(bufs)
      && Coherent(bufs, disk, view, modified, pinned)
    }

    /** `binit` on zeroed buffers. */
    constructor (disk: seq<Block>)
      ensures Valid() && this.disk == disk && view == disk && modified == {} && pinned == map[]
      ensures bufs == Zeroed()
    {
      this.disk := disk;
      bufs := Zeroed();
      next := seq(NBUF + 1, i => HEAD);
      prev := seq(NBUF + 1, i => HEAD);
      order, view, modified, pinned := [], disk, {}, map[];
      stamp, clock := seq(NBUF, i => i), NBUF;
      new;
      for b := 0 to NBUF
        modifies this`next, this`prev, this`order
        invariant Linked(next, prev, order) && |order| == b
        invariant forall i | 0 <= i < b :: order[i] == b - 1 - i
      {
        PushFront(next, prev, order, b);
        var first := next[HEAD];
        next := next[b := first];
        prev := prev[b := HEAD];
        prev := prev[first := b];
        next := next[HEAD := b];
        order := [b] + order;
      }
      FreshOrder(order, stamp);
      FreshBuffers(disk);
    }

    /** The first scan of `bget`. */
    method FindCached(dev: nat, blockno: nat) returns (r: Option<nat>)
      requires Valid()
      ensures r.Some? ==> r.value < NBUF && Holds(bufs[r.value], dev, blockno)
      ensures r.None? ==> forall i | 0 <= i < NBUF :: !Holds(bufs[i], dev, blockno)
    {
      ghost var k := 0;
      var b := next[HEAD];
      LinksAt(next, prev, order, 0);
      while b != HEAD
        invariant 0 <= k <= NBUF && b == if k < NBUF then order[k] else HEAD
        invariant forall i | 0 <= i < k :: !Holds(bufs[order[i]], dev, blockno)
        decreases NBUF - k
      {
        if bufs[b].dev == dev && bufs[b].blockno == blockno {
          return Some(b);
        }
        LinksAt(next, prev, order, k);
        b := next[b];
        k := k + 1;
      }
      forall i | 0 <= i < NBUF ensures !Holds(bufs[i], dev, blockno) {
        var j := Where(order, i);
      }
      return None;
    }

    /** The second scan of `bget`: from the tail, so the least recently released eligible buffer is found. */
    method FindVictim() returns (r: Option<nat>)
      requires Valid()
      ensures r.Some? ==>
        && r.value < NBUF && Eligible(bufs[r.value])
        && forall i | 0 <= i < NBUF && Eligible(bufs[i]) :: stamp[r.value] <= stamp[i]
      ensures r.None? ==> forall i | 0 <= i < NBUF :: !Eligible(bufs[i])
    {
      ghost var k := NBUF - 1;
      var b := prev[HEAD];
      LinksAt(next, prev, order, 0);
      while b != HEAD
        invariant -1 <= k < NBUF && b == if k >= 0 then order[k] else HEAD
        invariant forall i | k < i < NBUF :: !Eligible(bufs[order[i]])
        decreases k
      {
        if bufs[b].refcnt == 0 && !bufs[b].dirty {
          forall i | 0 <= i < NBUF && Eligible(bufs[i]) ensures stamp[b] <= stamp[i] {
            var j := Where(order, i);
          }
          return Some(b);
        }
        LinksAt(next, prev, order, k);
        b := prev[b];
        k := k - 1;
      }
      forall i | 0 <= i < NBUF ensures !Eligible(bufs[i]) {
        var j := Where(order, i);
      }
      return None;
    }

    /** `bget` up to the acquisition of the sleep-lock.  None is the source's panic "no buffers". */
    method Bget(dev: nat, blockno: nat) returns (r: Option<nat>)
      requires Valid() && dev != 0
      modifies this`bufs
      ensures Valid()
      ensures r.Some? ==>
        && r.value < NBUF && Holds(bufs[r.value], dev, blockno) && bufs[r.value].refcnt > 0
        && (if exists i :: 0 <= i < NBUF && Holds(old(bufs)[i], dev, blockno) then
              bufs == old(bufs)[r.value := old(bufs)[r.value].(refcnt := old(bufs)[r.value].refcnt + 1)]
            else
              && Eligible(old(bufs)[r.value])
              && (forall i | 0 <= i < NBUF && Eligible(old(bufs)[i]) :: stamp[r.value] <= stamp[i])
              && bufs == old(bufs)[r.value := Buf(dev, blockno, 1, false, false, old(bufs)[r.value].locked,
                                                  old(bufs)[r.value].data)])
      ensures r.None? ==>
        && bufs == old(bufs)
        && (forall i | 0 <= i < NBUF :: !Holds(bufs[i], dev, blockno) && (bufs[i].refcnt > 0 || bufs[i].dirty))
    {
      hide Linked, Recency;
      var hit := FindCached(dev, blockno);
      if hit.Some? {
        var b := hit.value;
        bufs := bufs[b := bufs[b].(refcnt := bufs[b].refcnt + 1)];
        return hit;
      }
      var victim := FindVictim();
      if victim.Some? {
        var b := victim.value;
        Recycled(bufs, disk, view, modified, pinned, b, dev, blockno);
        bufs := bufs[b := bufs[b].(dev := dev, blockno := blockno, valid := false, dirty := false, refcnt := 1)];
      }
      return victim;
    }

    /** `bread` once the sleep-lock is free: the holder sees the latest contents of the block. */
    method LockAndFill(b: nat)
      requires Valid() && b < NBUF && bufs[b].refcnt > 0 && !bufs[b].locked
      requires bufs[b].dev == 1 && bufs[b].blockno < |disk|
      modifies this`bufs
      ensures Valid()
      ensures bufs == old(bufs)[b := old(bufs)[b].(locked := true, valid := true, data := view[old(bufs)[b].blockno])]
    {
      hide Linked, Recency;
      if !bufs[b].valid {
        DiskIsCurrent(bufs, disk, view, modified, pinned, b);
        bufs := bufs[b := bufs[b].(valid := true, data := disk[bufs[b].blockno])];
      }
      bufs := bufs[b := bufs[b].(locked := true)];
      assert bufs == old(bufs)[b := old(bufs)[b].(locked := true, valid := true, data := view[old(bufs)[b].blockno])];
    }

    /** The holder changes the data; it must call `Bwrite` or `LogPin` before it releases the buffer. */
    method Modify(b: nat, data: Block)
      requires Valid() && b < NBUF && bufs[b].locked
      modifies this`bufs, this`modified
      ensures Valid() && modified == old(modified) + {b}
      ensures bufs == old(bufs)[b := old(bufs)[b].(data := data)]
    {
      hide Linked, Recency;
      bufs := bufs[b := bufs[b].(data := data)];
      modified := modified + {b};
    }

    /** Write through to the disk, which clears B_DIRTY. */
    method Bwrite(b: nat)
      requires Valid() && b < NBUF && bufs[b].locked
      modifies this`bufs, this`disk, this`view, this`modified, this`pinned
      ensures Valid() && modified == old(modified) - {b}
      ensures bufs == old(bufs)[b := old(bufs)[b].(dirty := false)]
      ensures disk == old(disk)[bufs[b].blockno := bufs[b].data]
      ensures view == old(view)[bufs[b].blockno := bufs[b].data]
    {
      hide Linked, Recency;
      var n := bufs[b].blockno;
      Written(bufs, disk, view, modified, pinned, b);
      disk := disk[n := bufs[b].data];
      bufs := bufs[b := bufs[b].(dirty := false)];
      view := view[n := bufs[b].data];
      modified := modified - {b};
      pinned := pinned - {n};
    }

    /** `log_write` marks the buffer dirty: the log now owns its contents and it cannot be recycled. */
    method LogPin(b: nat)
      requires Valid() && b < NBUF && bufs[b].locked
      modifies this`bufs, this`view, this`modified, this`pinned
      ensures Valid() && modified == old(modified) - {b}
      ensures bufs == old(bufs)[b := old(bufs)[b].(dirty := true)]
      ensures view == old(view)[bufs[b].blockno := bufs[b].data]
    {
      hide Linked, Recency;
      var n := bufs[b].blockno;
      Logged(bufs, disk, view, modified, pinned, b);
      bufs := bufs[b := bufs[b].(dirty := true)];
      view := view[n := bufs[b].data];
      modified := modified - {b};
      pinned := pinned[n := b];
    }

    /** Release the sleep-lock and one reference; the last one moves the buffer to the front. */
    method Brelse(b: nat)
      requires Valid() && b < NBUF && bufs[b].locked && b !in modified
      modifies this`bufs, this`next, this`prev, this`order, this`stamp, this`clock
      ensures Valid()
      ensures bufs == old(bufs)[b := old(bufs)[b].(locked := false, refcnt := old(bufs)[b].refcnt - 1)]
      ensures bufs[b].refcnt > 0 ==> order == old(order) && stamp == old(stamp)
      ensures bufs[b].refcnt == 0 ==> order[0] == b && stamp == old(stamp)[b := old(clock)]
    {
      bufs := bufs[b := bufs[b].(locked := false, refcnt := bufs[b].refcnt - 1)];
      Released(old(bufs), disk, view, modified, pinned, b);
      hide Coherent, Unique, Linked, Recency, Complete;
      if bufs[b].refcnt == 0 {
        ToFront(b);
      }
    }

    method ToFront(b: nat)
      requires Linked(next, prev, order) && Complete(order) && Recency(order, stamp, clock) && b < NBUF
      modifies this`next, this`prev, this`order, this`stamp, this`clock
      ensures Linked(next, prev, order) && Complete(order) && Recency(order, stamp, clock)
      ensures order[0] == b && stamp == old(stamp)[b := old(clock)]
    {
      hide Linked, Complete, Distinct;
      ghost var k := Where(order, b);
      MoveToFront(next, prev, order, k);
      Refreshed(order, stamp, clock, k);
      prev := prev[next[b] := prev[b]];
      next := next[prev[b] := next[b]];
      var first := next[HEAD];
      next := next[b := first];
      prev := prev[b := HEAD];
      prev := prev[first := b];
      next := next[HEAD := b];
      order := [b] + Without(order, k);
      stamp, clock := stamp[b := clock], clock + 1;
    }
  }

  lemma MoveToFront(next: seq<nat>, prev: seq<nat>, order: seq<nat>, k: nat)
    requires Linked(next, prev, order) && Complete(order) && k < NBUF
    ensures var b := order[k];
            && |next| == |prev| == NBUF + 1 && next[b] <= HEAD && prev[b] <= HEAD
            && var prev1 := prev[next[b] := prev[b]];
               var next1 := next[prev1[b] := next[b]];
               && prev1[b] == prev[b] && next1[HEAD] <= HEAD
               && Linked(next1[b := next1[HEAD]][HEAD := b], prev1[b := HEAD][next1[HEAD] := b], [b] + Without(order, k))
    ensures Complete([order[k]] + Without(order, k))
  {
    var b := order[k];
    Unlink(next, prev, order, k);
    LinksAt(next, prev, order, k);
    var prev1 := prev[next[b] := prev[b]];
    var next1 := next[prev[b] := next[b]];
    PushFront(next1, prev1, Without(order, k), b);
    forall x: nat | x < NBUF ensures x in [b] + Without(order, k) {
      var j := Where(order, x);
      if j < k {
        assert Without(order, k)[j] == x;
      } else if j > k {
        assert Without(order, k)[j - 1] == x;
      }
    }
  }

  lemma Refreshed(order: seq<nat>, stamp: seq<int>, clock: int, k: nat)
    requires Recency(order, stamp, clock) && k < |order|
    ensures Recency([order[k]] + Without(order, k), stamp[order[k] := clock], clock + 1)
  {
    var b := order[k];
    var o, t := [b] + Without(order, k), stamp[order[k] := clock];
    assert forall i | 1 <= i < |o| :: o[i] == order[if i <= k then i - 1 else i];
  }

  lemma Recycled(bufs: seq<Buf>, disk: seq<Block>, view: seq<Block>, modified: set<nat>, pinned: map<nat, nat>,
                 b: nat, dev: nat, blockno: nat)
    requires Coherent(bufs, disk, view, modified, pinned) && Unique(bufs) && b < |bufs| && Eligible(bufs[b])
    requires forall i | 0 <= i < |bufs| :: !Holds(bufs[i], dev, blockno)
    ensures var bufs' := bufs[b := bufs[b].(dev := dev, blockno := blockno, valid := false, dirty := false, refcnt := 1)];
            Coherent(bufs', disk, view, modified, pinned) && Unique(bufs')
  {
    assert UseOk(bufs[b], |disk|, b in modified);
  }

  /** A block whose buffer has not been filled yet is up to date on disk. */
  lemma DiskIsCurrent(bufs: seq<Buf>, disk: seq<Block>, view: seq<Block>, modified: set<nat>, pinned: map<nat, nat>, b: nat)
    requires Coherent(bufs, disk, view, modified, pinned) && Unique(bufs)
    requires b < |bufs| && !bufs[b].valid && bufs[b].dev == 1 && bufs[b].blockno < |disk|
    ensures disk[bufs[b].blockno] == view[bufs[b].blockno]
  {
    var n := bufs[b].blockno;
    assert UseOk(bufs[b], |disk|, b in modified);
    if n in pinned {
      OnlyHolder(bufs, b, pinned[n]);
      assert false;
    }
  }

  /** With no buffer half changed, the current contents are the dirty buffers laid over the disk: a block
      without one may be read from the disk, whatever has been evicted. */
  lemma ViewIsDirtyOverDisk(bufs: seq<Buf>, disk: seq<Block>, view: seq<Block>, modified: set<nat>, pinned: map<nat, nat>, b: nat)
    requires Coherent(bufs, disk, view, modified, pinned) && b < |disk|
    requires b in pinned ==> pinned[b] !in modified
    ensures view[b] == if b in pinned then bufs[pinned[b]].data else disk[b]
  {
    if b in pinned {
      assert UseOk(bufs[pinned[b]], |disk|, false);
    }
  }

  lemma OnlyHolder(bufs: seq<Buf>, i: nat, j: nat)
    requires Unique(bufs) && i < |bufs| && j < |bufs| && i != j && bufs[i].dev != 0
    ensures !Holds(bufs[j], bufs[i].dev, bufs[i].blockno)
  {
  }

  lemma Written(bufs: seq<Buf>, disk: seq<Block>, view: seq<Block>, modified: set<nat>, pinned: map<nat, nat>, b: nat)
    requires Coherent(bufs, disk, view, modified, pinned) && Unique(bufs) && b < |bufs| && bufs[b].locked
    ensures bufs[b].blockno < |disk|
    ensures var n, d := bufs[b].blockno, bufs[b].data;
            var bufs' := bufs[b := bufs[b].(dirty := false)];
            Coherent(bufs', disk[n := d], view[n := d], modified - {b}, pinned - {n}) && Unique(bufs')
  {
    assert UseOk(bufs[b], |disk|, b in modified);
    var n := bufs[b].blockno;
    forall i | 0 <= i < |bufs| && i != b && bufs[i].valid ensures bufs[i].blockno != n {
      assert UseOk(bufs[i], |disk|, i in modified);
      OnlyHolder(bufs, b, i);
    }
  }

  lemma Logged(bufs: seq<Buf>, disk: seq<Block>, view: seq<Block>, modified: set<nat>, pinned: map<nat, nat>, b: nat)
    requires Coherent(bufs, disk, view, modified, pinned) && Unique(bufs) && b < |bufs| && bufs[b].locked
    ensures bufs[b].blockno < |disk|
    ensures var n, d := bufs[b].blockno, bufs[b].data;
            var bufs' := bufs[b := bufs[b].(dirty := true)];
            Coherent(bufs', disk, view[n := d], modified - {b}, pinned[n := b]) && Unique(bufs')
  {
    assert UseOk(bufs[b], |disk|, b in modified);
    var n := bufs[b].blockno;
    forall i | 0 <= i < |bufs| && i != b && bufs[i].valid ensures bufs[i].blockno != n {
      assert UseOk(bufs[i], |disk|, i in modified);
      OnlyHolder(bufs, b, i);
    }
  }

  lemma Released(bufs: seq<Buf>, disk: seq<Block>, view: seq<Block>, modified: set<nat>, pinned: map<nat, nat>, b: nat)
    requires Coherent(bufs, disk, view, modified, pinned) && Unique(bufs)
    requires b < |bufs| && bufs[b].locked && b !in modified
    ensures bufs[b].refcnt > 0
    ensures var bufs' := bufs[b := bufs[b].(locked := false, refcnt := bufs[b].refcnt - 1)];
            Coherent(bufs', disk, view, modified, pinned) && Unique(bufs')
  {
    assert UseOk(bufs[b], |disk|, b in modified);
  }
}
