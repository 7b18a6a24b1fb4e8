/**
 The procedures of log.c on the global `log` and the disk, one method each.

 Every `bwrite` is appended to the history `writes`, so that the methods that write several
 blocks are specified by the exact order of their writes.
 */
module LogCode {
  import opened Params
  import opened LogDisk

  /** `begin_op` lets one more operation in. */
  predicate MayBegin(n: nat, outstanding: nat, committing: bool) {
    !committing && n + (outstanding + 1) * MAXOPBLOCKS <= LOGSIZE
  }

  /** The test at the top of `log_write` that panics. */
  predicate TooBig(n: nat, size: nat) {
    n >= LOGSIZE || n >= size - 1
  }

  /** Logging a block that is already listed changes nothing. */
  function Absorb(lh: seq<nat>, b: nat): (r: seq<nat>)
    ensures lh <= r && b in r
    ensures forall x :: x in r <==> x in lh || x == b
    ensures (forall i, j | 0 <= i < j < |lh| :: lh[i] != lh[j]) ==>
              forall i, j | 0 <= i < j < |r| :: r[i] != r[j]
  {
    if b in lh then lh else lh + [b]
  }

  /** `bread`: a pinned block comes from the cache, any other from the disk. */
  function Read(d: Disk, dirty: map<nat, Block>, b: nat): Block {
    if b in dirty then dirty[b] else if b < |d| then d[b] else []
  }

  /** The cached contents of the blocks `lh`. */
  function Cached(d: Disk, dirty: map<nat, Block>, lh: seq<nat>): (c: seq<Block>)
    ensures |c| == |lh|
  {
    seq(|lh|, i requires 0 <= i < |lh| => Read(d, dirty, lh[i]))
  }

  class Log {
    const g: Geometry
    var disk: Disk
    var dirty: map<nat, Block>   // cached blocks marked B_DIRTY, with their contents
    var n: nat                   // lh.n
    var block: seq<nat>          // lh.block
    var outstanding: nat
    var committing: bool
    ghost var writes: seq<Write> // every block write issued

    ghost predicate Valid()
      reads this
    {
      && g.Valid() && |disk| == g.total && |disk[g.start]| == WORDS
      && |block| == LOGSIZE && n <= LOGSIZE
      && g.Targets(block[..n])
      && forall b | b in dirty :: g.Home(b)
    }

    ghost function Lh(): seq<nat>
      requires Valid()
      reads this
    {
      block[..n]
    }

    ghost function Content(): (c: seq<Block>)
      requires Valid()
      reads this
      ensures |c| == n
    {
      Cached(disk, dirty, Lh())
    }

    method Bwrite(b: nat, data: Block)
      requires b < |disk|
      modifies this`disk, this`dirty, this`writes
      ensures disk == old(disk)[b := data]
      ensures dirty == if b in old(dirty) then old(dirty) - {b} else old(dirty)
      ensures writes == old(writes) + [Write(b, data)]
    {
      disk := disk[b := data];
      dirty := dirty - {b};
      writes := writes + [Write(b, data)];
    }

    /** The header page is read, overlaid with the in-memory header and written back. */
    method WriteHead()
      requires Valid()
      modifies this`disk, this`dirty, this`writes
      ensures Valid()
      ensures writes == old(writes) + [HeadWrite(g, old(disk)[g.start], Lh())]
      ensures disk == old(disk)[g.start := EncodeHead(old(disk)[g.start], Lh())]
      ensures dirty == old(dirty)
    {
      var hb := Read(disk, dirty, g.start);
      ghost var was := hb;
      hb := hb[0 := n];
      for i := 0 to n
        invariant |hb| == WORDS && hb[0] == n
        invariant forall j | 0 <= j < i :: hb[j + 1] == block[j]
        invariant forall j | i < j < WORDS :: hb[j] == was[j]
      {
        hb := hb[i + 1 := block[i]];
      }
      assert hb == EncodeHead(was, Lh());
      Bwrite(g.start, hb);
      assert dirty == old(dirty);
    }

    method ReadHead()
      requires Valid() && dirty == map[] && DiskOk(g, disk)
      modifies this`n, this`block
      ensures Valid() && Lh() == Head(g, disk)
    {
      var hb := Read(disk, dirty, g.start);
      ghost var lh := Head(g, disk);
      n := hb[0];
      for i := 0 to n
        invariant n == |lh| && |block| == LOGSIZE
        invariant forall j | 0 <= j < i :: block[j] == lh[j]
      {
        block := block[i := hb[i + 1]];
      }
      assert block[..n] == lh;
    }

    /** Copy the cached contents of the logged blocks to the log blocks, in order. */
    method WriteLog()
      requires Valid()
      modifies this`disk, this`dirty, this`writes
      ensures Valid() && dirty == old(dirty) && disk[g.start] == old(disk)[g.start]
      ensures LogBlocks(g, disk, n) == old(Content())
      ensures writes == old(writes) + LogWrites(g, Lh(), old(Content()))
      ensures disk == Apply(old(disk), LogWrites(g, Lh(), old(Content())))
    {
      ghost var d, h, lh, content := disk, writes, Lh(), Content();
      ghost var ws := LogWrites(g, lh, content);
      for tail := 0 to n
        invariant |disk| == g.total && dirty == old(dirty)
        invariant writes == h + ws[..tail]
        invariant disk == Apply(d, ws[..tail])
      {
        CopySource(g, d, dirty, lh, tail);
        var from := Read(disk, dirty, block[tail]);
        Bwrite(g.start + 1 + tail, from);
        Snoc(h, ws, tail);
        ApplyStep(d, ws, tail);
      }
      assert ws[..n] == ws;
      LogFilled(g, d, lh, content);
    }

    /** Copy the log blocks to their home locations, in order. */
    method InstallTrans()
      requires Valid()
      modifies this`disk, this`dirty, this`writes
      ensures Valid() && disk[g.start] == old(disk)[g.start]
      ensures writes == old(writes) + InstallWrites(Lh(), LogBlocks(g, old(disk), n))
      ensures disk == Apply(old(disk), InstallWrites(Lh(), LogBlocks(g, old(disk), n)))
      ensures dirty == old(dirty) - set b | b in Lh()
    {
      ghost var d, h, lh, content := disk, writes, Lh(), LogBlocks(g, disk, n);
      ghost var ws := InstallWrites(lh, content);
      for tail := 0 to n
        invariant |disk| == g.total
        invariant writes == h + ws[..tail]
        invariant disk == Apply(d, ws[..tail])
        invariant forall b | g.start <= b < g.start + g.size :: disk[b] == d[b]
        invariant dirty == old(dirty) - set b | b in lh[..tail]
      {
        assert block[tail] == lh[tail] && g.Home(lh[tail]);
        var lbuf := Read(disk, dirty, g.start + 1 + tail);
        Bwrite(block[tail], lbuf);
        Snoc(h, ws, tail);
        ApplyStep(d, ws, tail);
        assert lh[..tail + 1] == lh[..tail] + [lh[tail]];
      }
      assert ws[..n] == ws && lh[..n] == lh;
    }

    /** At boot the cache is empty; the header on disk decides what is installed. */
    method RecoverFromLog()
      requires Valid() && dirty == map[] && DiskOk(g, disk)
      modifies this`disk, this`dirty, this`writes, this`n, this`block
      ensures Valid() && Lh() == [] && dirty == map[]
      ensures writes == old(writes) + RecoverWrites(g, old(disk))
      ensures disk == Recovered(g, old(disk))
    {
      ReadHead();
      ghost var d := disk;
      assert LogBlocks(g, disk, n) == LoggedContent(g, d);
      InstallTrans();
      n := 0;
      assert Lh() == [];
      WriteHead();
      ApplyConcat(d, InstallWrites(Head(g, d), LoggedContent(g, d)), [HeadWrite(g, d[g.start], [])]);
    }

    /** The writes of a commit, in the order that the crash argument relies on. */
    method Commit()
      requires Valid() && DiskOk(g, disk)
      modifies this`disk, this`dirty, this`writes, this`n
      ensures Valid() && Lh() == []
      ensures dirty == old(dirty) - set b | b in old(Lh())
      ensures old(Lh()) == [] ==> writes == old(writes) && disk == old(disk)
      ensures old(Lh()) != [] ==>
        && writes == old(writes) + CommitWrites(g, old(disk), old(Lh()), old(Content()))
        && disk == Apply(old(disk), CommitWrites(g, old(disk), old(Lh()), old(Content())))
    {
      if n == 0 {
        assert Lh() == [];
        return;
      }
      ghost var d, lh, content := disk, Lh(), Content();
      WriteLog();
      WriteHead();
      assert LogBlocks(g, disk, n) == content;
      InstallTrans();
      ghost var d2 := disk;
      n := 0;
      assert Lh() == [];
      WriteHead();
      CommitSplits(g, d, lh, content);
      Regroup(old(writes), LogWrites(g, lh, content), HeadWrite(g, d[g.start], lh),
              InstallWrites(lh, content), HeadWrite(g, EncodeHead(d[g.start], lh), []));
    }

    /** One pass of the loop in `begin_op`; when it is not granted the caller sleeps. */
    method BeginOp() returns (granted: bool)
      requires Valid()
      modifies this`outstanding
      ensures Valid()
      ensures granted <==> MayBegin(n, old(outstanding), committing)
      ensures outstanding == old(outstanding) + if granted then 1 else 0
    {
      if committing {
        return false;
      } else if n + (outstanding + 1) * MAXOPBLOCKS > LOGSIZE {
        return false;
      }
      outstanding := outstanding + 1;
      return true;
    }

    /** The first critical section of `end_op`; the caller commits when told to. */
    method EndOp() returns (doCommit: bool)
      requires Valid() && outstanding >= 1 && !committing
      modifies this`outstanding, this`committing
      ensures Valid() && outstanding == old(outstanding) - 1
      ensures doCommit == committing
      ensures committing <==> outstanding == 0
    {
      outstanding := outstanding - 1;
      doCommit := false;
      if outstanding == 0 {
        doCommit := true;
        committing := true;
      }
    }

    /** Record that block `b`, now holding `data` in the cache, belongs to the transaction.
        `panicked` is the source's "too big a transaction". */
    method LogWrite(b: nat, data: Block) returns (panicked: bool)
      requires Valid() && outstanding >= 1 && g.Home(b)
      modifies this`dirty, this`n, this`block
      ensures Valid()
      ensures panicked <==> TooBig(old(n), g.size)
      ensures panicked ==> Lh() == old(Lh()) && dirty == old(dirty)
      ensures !panicked ==> Lh() == Absorb(old(Lh()), b) && dirty == old(dirty)[b := data]
    {
      if n >= LOGSIZE || n >= g.size - 1 {
        return true;
      }
      ghost var lh := Lh();
      var i := 0;
      while i < n && block[i] != b
        invariant 0 <= i <= n
        invariant b !in block[..i]
      {
        i := i + 1;
      }
      assert i < n <==> b in lh;
      block := block[i := b];
      if i == n {
        n := n + 1;
      }
      assert block[..n] == Absorb(lh, b);
      dirty := dirty[b := data];
      return false;
    }
  }

  /** Filling log blocks does not disturb the cached block that is copied next. */
  lemma CopySource(g: Geometry, d: Disk, dirty: map<nat, Block>, lh: seq<nat>, k: nat)
    requires g.Valid() && |d| == g.total && g.Targets(lh) && k < |lh|
    requires forall b | b in dirty :: g.Home(b)
    ensures var content := Cached(d, dirty, lh);
            Read(Apply(d, LogWrites(g, lh, content)[..k]), dirty, lh[k]) == content[k]
    ensures g.start + 1 + k < |d| && g.start + 1 + k !in dirty
  {
    ApplyLogWrites(g, d, lh, Cached(d, dirty, lh), k);
  }

  lemma LogFilled(g: Geometry, d: Disk, lh: seq<nat>, content: seq<Block>)
    requires g.Valid() && |d| == g.total && |lh| < g.size && |content| == |lh|
    ensures var r := Apply(d, LogWrites(g, lh, content));
            LogBlocks(g, r, |lh|) == content && r[g.start] == d[g.start]
  {
    ApplyAll(d, LogWrites(g, lh, content));
    ApplyLogWrites(g, d, lh, content, |lh|);
  }

  lemma Snoc<T>(h: seq<T>, ws: seq<T>, k: nat)
    requires k < |ws|
    ensures h + ws[..k] + [ws[k]] == h + ws[..k + 1]
  {
  }

  lemma Regroup<T>(h: seq<T>, xs: seq<T>, x: T, ys: seq<T>, y: T)
    ensures h + xs + [x] + ys + [y] == h + (xs + [x] + ys + [y])
  {
  }

  lemma CommitSplits(g: Geometry, d: Disk, lh: seq<nat>, content: seq<Block>)
    requires DiskOk(g, d) && g.Targets(lh) && |content| == |lh|
    ensures var first := HeadWrite(g, d[g.start], lh);
            var d1 := Apply(d, LogWrites(g, lh, content))[g.start := first.data];
            Apply(d, CommitWrites(g, d, lh, content)) ==
            Apply(d1, InstallWrites(lh, content))[g.start := EncodeHead(first.data, [])]
  {
    var first := HeadWrite(g, d[g.start], lh);
    var last := HeadWrite(g, first.data, []);
    var xs, ys := LogWrites(g, lh, content), InstallWrites(lh, content);
    ApplyConcat(d, xs + [first] + ys, [last]);
    ApplyConcat(d, xs + [first], ys);
    ApplyConcat(d, xs, [first]);
  }
}
