/**
 Writing through an open file: the chunking loop of `filewrite`, one log transaction per chunk.
 */
module FileWrite {
  import opened Params
  import opened FsLayout
  import opened FsCode

  const MAXCHUNK := (MAXOPBLOCKS - 1 - 1 - 2) / 2 * BSIZE

  lemma SpliceTwice(c: seq<Byte>, off: nat, a: seq<Byte>, b: seq<Byte>)
    requires off <= |c|
    ensures Splice(Splice(c, off, a), off + |a|, b) == Splice(c, off, a + b)
  {
    var x, y := Splice(Splice(c, off, a), off + |a|, b), Splice(c, off, a + b);
    assert |x| == |y|;
    forall i | 0 <= i < |x| ensures x[i] == y[i] {
    }
  }

  lemma SpliceNothing(m: map<nat, seq<Byte>>, inum: nat, off: nat)
    requires inum in m
    ensures Overwrite(m, inum, off, []) == m
  {
    if off <= |m[inum]| {
      assert Splice(m[inum], off, []) == m[inum];
    }
  }

  lemma OverwriteMore(m: map<nat, seq<Byte>>, inum: nat, off: nat, addr: seq<Byte>, i: nat, k: nat)
    requires inum in m && i + k <= |addr|
    ensures var m1 := Overwrite(m, inum, off, addr[..i]);
            off <= |m[inum]| ==>
              && off + i <= |m1[inum]|
              && m1[inum := Splice(m1[inum], off + i, addr[i..i + k])] == Overwrite(m, inum, off, addr[..i + k])
  {
    if off <= |m[inum]| {
      SpliceTwice(m[inum], off, addr[..i], addr[i..i + k]);
      assert addr[..i] + addr[i..i + k] == addr[..i + k];
    }
  }

  lemma SubsetSize(a: set<nat>, b: set<nat>)
    requires a <= b
    ensures |a| <= |b|
  {
    assert b == a + (b - a);
    assert |a + (b - a)| == |a| + |b - a|;
  }

  lemma ChunkAligned(n: nat, i: nat)
    requires i < n && i % MAXCHUNK == 0
    ensures var n1 := Min(n - i, MAXCHUNK); 0 < n1 <= 3 * BSIZE && (i + n1 < n ==> (i + n1) % MAXCHUNK == 0)
  {
  }

  /** Each transaction logs everything it changes, and at most MAXOPBLOCKS blocks. */
  ghost predicate Transactions(g: Geometry, shots: seq<Image>, ops: seq<set<nat>>) {
    && |shots| == |ops| + 1
    && forall k {:trigger ops[k]} | 0 <= k < |ops| :: Logs(g, shots[k], shots[k + 1], ops[k]) && |ops[k]| <= MAXOPBLOCKS
  }

  lemma NoTransaction(g: Geometry, shots: seq<Image>)
    requires |shots| == 1
    ensures Transactions(g, shots, [])
  {
  }

  lemma OneTransaction(g: Geometry, shots: seq<Image>, ops: seq<set<nat>>, shot: Image, op: set<nat>)
    requires Transactions(g, shots, ops) && Logs(g, shots[|ops|], shot, op) && |op| <= MAXOPBLOCKS
    ensures Transactions(g, shots + [shot], ops + [op])
  {
    hide Logs;
    forall k | 0 <= k < |ops| + 1
      ensures Logs(g, (shots + [shot])[k], (shots + [shot])[k + 1], (ops + [op])[k]) && |(ops + [op])[k]| <= MAXOPBLOCKS
    {
      if k < |ops| {
        assert (ops + [op])[k] == ops[k];
      }
    }
  }

  class OpenFile {
    const fs: FileSystem
    const inum: nat
    var off: nat

    constructor (fs: FileSystem, inum: nat)
      ensures this.fs == fs && this.inum == inum && off == 0
    {
      this.fs, this.inum, off := fs, inum, 0;
    }

    /** One transaction: write `src` at the file's offset.  `op` are the blocks logged. */
    method WriteOp(src: seq<Byte>) returns (w: Option<int>, ghost op: set<nat>)
      requires fs.Valid() && inum in fs.inodes && off < U32 && 0 < |src| <= 3 * BSIZE
      modifies fs
      ensures w.None? ==> Exhausted(fs.g, fs.bitmap)
      ensures w.Some? ==> fs.Valid() && inum in fs.inodes && -1 <= w.value
      ensures w == Some(-1) <==> Rejected(|old(fs.Files())[inum]|, off, |src|)
      ensures w == Some(-1) ==> fs.Files() == old(fs.Files()) && fs.Shown() == old(fs.Shown())
      ensures w.Some? && w.value != -1 ==>
        && w.value == |src| && off <= |old(fs.Files())[inum]| && off + |src| <= MAXFILE * BSIZE
        && fs.Files() == old(fs.Files())[inum := Splice(old(fs.Files())[inum], off, src)]
        && Logs(fs.g, old(fs.Shown()), fs.Shown(), op) && |op| <= MAXOPBLOCKS
    {
      hide Table, ShapeOk, Owned, AllWhole, Contents, Splice, Exhausted, Logs;
      fs.logged := {};
      ghost var touched;
      w, touched := fs.Writei(inum, src, off);
      op := fs.logged;
      if w.Some? && w.value != -1 {
        SubsetSize(fs.logged, touched);
      }
    }

    /** Write `addr` at the file's offset in chunks small enough for one transaction each.  `ops` are the
        blocks that the transactions logged, one set per chunk, and `shots` what was on disk before and after each. */
    method Filewrite(addr: seq<Byte>) returns (r: Option<int>, ghost ops: seq<set<nat>>, ghost shots: seq<Image>)
      requires fs.Valid() && inum in fs.inodes && off < U32 && |addr| < U32 / 2
      modifies this, fs
      ensures Transactions(fs.g, shots, ops) && shots[0] == old(fs.Shown()) && (r.Some? ==> shots[|ops|] == fs.Shown())
      ensures r.None? ==> Exhausted(fs.g, fs.bitmap)
      ensures r.Some? ==> fs.Valid() && Filewrites(old(fs.Files()), fs.Files(), inum, old(off), off, addr, r.value)
    {
      hide Table, ShapeOk, Owned, AllWhole, Contents, Splice, Exhausted, Overwrite, Logs, Transactions, Rejected;
      ghost var m0 := fs.Files();
      var n, i := |addr|, 0;
      ops, shots := [], [fs.Shown()];
      NoTransaction(fs.g, shots);
      SpliceNothing(m0, inum, off);
      while i < n
        invariant 0 <= i <= n && off == old(off) + i && (i < n ==> i % MAXCHUNK == 0)
        invariant fs.Valid() && inum in fs.inodes && off < U32
        invariant fs.Files() == Overwrite(m0, inum, old(off), addr[..i])
        invariant i > 0 ==> old(off) <= |m0[inum]| && off <= MAXFILE * BSIZE
        invariant Transactions(fs.g, shots, ops) && |shots| == |ops| + 1
        invariant shots[0] == old(fs.Shown()) && shots[|ops|] == fs.Shown()
      {
        var n1 := Min(n - i, MAXCHUNK);
        ChunkAligned(n, i);
        ghost var op;
        var w;
        w, op := WriteOp(addr[i..i + n1]);
        if w.None? {
          return None, ops, shots;
        }
        if w.value < 0 {
          break;
        }
        OneTransaction(fs.g, shots, ops, fs.Shown(), op);
        ops, shots := ops + [op], shots + [fs.Shown()];
        OverwriteMore(m0, inum, old(off), addr, i, n1);
        off := off + n1;
        i := i + n1;
      }
      return Some(if i == n then n else -1), ops, shots;
    }
  }

  /** Files with `s` written into file `inum` at `off`. */
  ghost function Overwrite(m: map<nat, seq<Byte>>, inum: nat, off: nat, s: seq<Byte>): map<nat, seq<Byte>>
    requires inum in m
  {
    if off <= |m[inum]| then m[inum := Splice(m[inum], off, s)] else m
  }

  /** The offset has advanced over a prefix of `addr`, all of which is in the file.  The rest, if any, starts
      at a chunk boundary and begins with a chunk that `writei` rejects. */
  ghost predicate Filewrites(m: map<nat, seq<Byte>>, m': map<nat, seq<Byte>>, inum: nat, off: nat, off': nat,
                             addr: seq<Byte>, r: int)
  {
    && inum in m && inum in m' && off <= off' <= off + |addr|
    && var i := off' - off;
       && (i > 0 ==> off <= |m[inum]| && off' <= MAXFILE * BSIZE)
       && m' == Overwrite(m, inum, off, addr[..i])
       && r == (if i == |addr| then |addr| else -1)
       && (i < |addr| ==> i % MAXCHUNK == 0 && Rejected(|m'[inum]|, off', Min(|addr| - i, MAXCHUNK)))
  }

  /** A write that starts inside the file, or at its end, and stays within the largest file size is carried out in
      full; any other write of at least one byte reports failure. */
  lemma WritesAllIff(m: map<nat, seq<Byte>>, m': map<nat, seq<Byte>>, inum: nat, off: nat, off': nat, addr: seq<Byte>, r: int)
    requires Filewrites(m, m', inum, off, off', addr, r) && addr != []
    ensures r == |addr| <==> off <= |m[inum]| && off + |addr| <= MAXFILE * BSIZE
    ensures r == |addr| ==> m' == m[inum := Splice(m[inum], off, addr)] && off' == off + |addr|
  {
    var i := off' - off;
    if i == |addr| {
      assert addr[..i] == addr;
    } else if off <= |m[inum]| {
      assert |m'[inum]| >= off';
      WithinLimits(|m'[inum]|, off', Min(|addr| - i, MAXCHUNK));
    }
  }

  /** writei takes every write that leaves no gap and stays within the largest file size, appending included. */
  lemma WithinLimits(size: nat, off: nat, n: nat)
    ensures Rejected(size, off, n) <==> off > size || off + n > MAXFILE * BSIZE
  {
  }
}
