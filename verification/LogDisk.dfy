/**
 The on-disk redo log of log.c as a sequence of single-block writes.

 A disk is a sequence of blocks that are written one at a time and atomically.  The log area
 is a header block followed by log blocks; every other block is a home block.  The functions
 `CommitWrites` and `RecoverWrites` list, in order, the block writes that `commit` and
 `recover_from_log` perform.  A crash keeps some prefix of such a list.
 */
module LogDisk {
  import opened Params

  const WORDS := BSIZE / 4   // 32-bit words in a block

  type Block = seq<int>
  type Disk = seq<Block>

  datatype Write = Write(block: nat, data: Block)

  /** Where the log lies: header at `start`, `size` blocks in all, on a disk of `total` blocks. */
  datatype Geometry = Geometry(start: nat, size: nat, total: nat) {
    predicate Valid() {
      1 <= size && start + size <= total
    }

    predicate Home(b: int) {
      0 <= b < total && !(start <= b < start + size)
    }

    /** Block numbers that the log may list. */
    predicate Targets(lh: seq<nat>) {
      && |lh| <= LOGSIZE
      && |lh| < size
      && (forall i | 0 <= i < |lh| :: Home(lh[i]))
      && (forall i, j | 0 <= i < j < |lh| :: lh[i] != lh[j])
    }
  }

  // ----- Header block

  /** The header as `write_head` leaves it: words past the listed block numbers keep their old value. */
  function EncodeHead(prev: Block, lh: seq<nat>): (b: Block)
    requires |prev| == WORDS && |lh| <= LOGSIZE
    ensures |b| == WORDS
  {
    [|lh|] + lh + prev[1 + |lh|..]
  }

  predicate HeadOk(b: Block) {
    && |b| == WORDS
    && 0 <= b[0] <= LOGSIZE
    && forall i | 1 <= i <= b[0] :: b[i] >= 0
  }

  function DecodeHead(b: Block): (lh: seq<nat>)
    requires HeadOk(b)
    ensures |lh| == b[0]
  {
    seq(b[0], i requires 0 <= i < b[0] => b[i + 1] as nat)
  }

  /** Whatever stale words the header block held, reading back a written header yields what was written. */
  lemma HeadRoundTrip(prev: Block, lh: seq<nat>)
    requires |prev| == WORDS && |lh| <= LOGSIZE
    ensures HeadOk(EncodeHead(prev, lh)) && DecodeHead(EncodeHead(prev, lh)) == lh
  {
    var b := EncodeHead(prev, lh);
    assert forall i | 1 <= i <= |lh| :: b[i] == lh[i - 1];
  }

  // ----- Disks

  predicate DiskOk(g: Geometry, d: Disk) {
    && g.Valid()
    && |d| == g.total
    && HeadOk(d[g.start])
    && g.Targets(DecodeHead(d[g.start]))
  }

  function Head(g: Geometry, d: Disk): (lh: seq<nat>)
    requires DiskOk(g, d)
    ensures g.Targets(lh)
  {
    DecodeHead(d[g.start])
  }

  predicate WritesFit(ws: seq<Write>, total: nat) {
    forall i | 0 <= i < |ws| :: ws[i].block < total
  }

  /** A write beyond the end of the disk has no effect; `WritesFit` says there is none. */
  function WriteOne(d: Disk, w: Write): (r: Disk)
    ensures |r| == |d|
  {
    if w.block < |d| then d[w.block := w.data] else d
  }

  function Apply(d: Disk, ws: seq<Write>): (r: Disk)
    ensures |r| == |d|
  {
    if ws == [] then d else WriteOne(Apply(d, ws[..|ws| - 1]), ws[|ws| - 1])
  }

  ghost predicate SameHome(g: Geometry, d: Disk, e: Disk) {
    && |d| == |e| == g.total
    && forall b | g.Home(b) :: d[b] == e[b]
  }

  // ----- The writes of commit and of recovery

  function LogWrites(g: Geometry, lh: seq<nat>, content: seq<Block>): (ws: seq<Write>)
    requires |content| == |lh|
  {
    seq(|lh|, i requires 0 <= i < |lh| => Write(g.start + 1 + i, content[i]))
  }

  function InstallWrites(lh: seq<nat>, content: seq<Block>): (ws: seq<Write>)
    requires |content| == |lh|
  {
    seq(|lh|, i requires 0 <= i < |lh| => Write(lh[i], content[i]))
  }

  function HeadWrite(g: Geometry, prev: Block, lh: seq<nat>): (w: Write)
    requires |prev| == WORDS && |lh| <= LOGSIZE
  {
    Write(g.start, EncodeHead(prev, lh))
  }

  /** `commit` of the blocks `lh`, whose cached contents are `content`, on the disk `d`. */
  function CommitWrites(g: Geometry, d: Disk, lh: seq<nat>, content: seq<Block>): (ws: seq<Write>)
    requires DiskOk(g, d) && g.Targets(lh) && |content| == |lh|
    ensures |ws| == 2 * |lh| + 2
    ensures WritesFit(ws, |d|)
  {
    var first := HeadWrite(g, d[g.start], lh);
    LogWrites(g, lh, content) + [first] + InstallWrites(lh, content) + [HeadWrite(g, first.data, [])]
  }

  /** The contents of the first `n` log blocks. */
  function LogBlocks(g: Geometry, d: Disk, n: nat): (c: seq<Block>)
    requires g.start + 1 + n <= |d|
    ensures |c| == n
  {
    d[g.start + 1..g.start + 1 + n]
  }

  function LoggedContent(g: Geometry, d: Disk): (content: seq<Block>)
    requires DiskOk(g, d)
    ensures |content| == |Head(g, d)|
  {
    LogBlocks(g, d, |Head(g, d)|)
  }

  lemma CommitWriteAt(g: Geometry, d: Disk, lh: seq<nat>, content: seq<Block>, k: nat)
    requires DiskOk(g, d) && g.Targets(lh) && |content| == |lh| && k < 2 * |lh| + 2
    ensures CommitWrites(g, d, lh, content)[k] ==
            if k < |lh| then Write(g.start + 1 + k, content[k])
            else if k == |lh| then HeadWrite(g, d[g.start], lh)
            else if k <= 2 * |lh| then Write(lh[k - |lh| - 1], content[k - |lh| - 1])
            else HeadWrite(g, EncodeHead(d[g.start], lh), [])
  {
  }

  /** `recover_from_log`, as run at boot on the disk `d`. */
  function RecoverWrites(g: Geometry, d: Disk): (ws: seq<Write>)
    requires DiskOk(g, d)
    ensures |ws| == |Head(g, d)| + 1
    ensures WritesFit(ws, |d|)
  {
    InstallWrites(Head(g, d), LoggedContent(g, d)) + [HeadWrite(g, d[g.start], [])]
  }

  function Recovered(g: Geometry, d: Disk): (r: Disk)
    requires DiskOk(g, d)
  {
    Apply(d, RecoverWrites(g, d))
  }

  /** `d` with the blocks `lh` replaced by `content`: what the group means, said without a log. */
  function Installed(d: Disk, lh: seq<nat>, content: seq<Block>): (r: Disk)
    requires |content| == |lh|
    requires forall i | 0 <= i < |lh| :: lh[i] < |d|
    ensures |r| == |d|
  {
    if lh == [] then d
    else Installed(d, lh[..|lh| - 1], content[..|lh| - 1])[lh[|lh| - 1] := content[|lh| - 1]]
  }

  // ----- Facts about applying writes

  lemma ApplyStep(d: Disk, ws: seq<Write>, k: nat)
    requires k < |ws|
    ensures Apply(d, ws[..k + 1]) == WriteOne(Apply(d, ws[..k]), ws[k])
  {
    assert ws[..k + 1][..k] == ws[..k];
  }

  lemma ApplyNone(d: Disk, ws: seq<Write>)
    ensures Apply(d, ws[..0]) == d
  {
    assert ws[..0] == [];
  }

  lemma ApplyAll(d: Disk, ws: seq<Write>)
    ensures Apply(d, ws[..|ws|]) == Apply(d, ws)
  {
    assert ws[..|ws|] == ws;
  }

  /** Distinct targets: after the first `k` installs, block `lh[i]` holds `content[i]` for each i below k. */
  lemma {:induction false} InstalledAt(d: Disk, lh: seq<nat>, content: seq<Block>, b: nat)
    requires |content| == |lh| && b < |d|
    requires forall i | 0 <= i < |lh| :: lh[i] < |d|
    requires forall i, j | 0 <= i < j < |lh| :: lh[i] != lh[j]
    ensures b !in lh ==> Installed(d, lh, content)[b] == d[b]
    ensures forall i | 0 <= i < |lh| && lh[i] == b :: Installed(d, lh, content)[b] == content[i]
  {
    if lh != [] {
      var n := |lh| - 1;
      InstalledAt(d, lh[..n], content[..n], b);
      if lh[n] == b {
        assert forall i | 0 <= i < |lh| && lh[i] == b :: i == n;
      } else {
        assert forall i | 0 <= i < |lh| && lh[i] == b :: lh[..n][i] == b;
      }
    }
  }

  /** The install loop after `k` rounds. */
  lemma {:induction false} ApplyInstall(d: Disk, lh: seq<nat>, content: seq<Block>, k: nat)
    requires |content| == |lh| && k <= |lh|
    requires forall i | 0 <= i < |lh| :: lh[i] < |d|
    ensures Apply(d, InstallWrites(lh, content)[..k]) == Installed(d, lh[..k], content[..k])
  {
    if k > 0 {
      ApplyInstall(d, lh, content, k - 1);
      ApplyStep(d, InstallWrites(lh, content), k - 1);
      assert lh[..k][..k - 1] == lh[..k - 1] && content[..k][..k - 1] == content[..k - 1];
    }
  }

  /** The log-writing loop after `k` rounds: log blocks below `k` are filled, nothing else changed. */
  lemma {:induction false} ApplyLogWrites(g: Geometry, d: Disk, lh: seq<nat>, content: seq<Block>, k: nat)
    requires g.Valid() && |d| == g.total && |lh| < g.size && |content| == |lh| && k <= |lh|
    ensures Apply(d, LogWrites(g, lh, content)[..k]) == d[..g.start + 1] + content[..k] + d[g.start + 1 + k..]
  {
    if k > 0 {
      ApplyLogWrites(g, d, lh, content, k - 1);
      ApplyStep(d, LogWrites(g, lh, content), k - 1);
    }
  }

  lemma {:induction false} ApplyConcat(d: Disk, xs: seq<Write>, ys: seq<Write>)
    ensures Apply(d, xs + ys) == Apply(Apply(d, xs), ys)
  {
    if ys == [] {
      assert xs + ys == xs;
    } else {
      ApplyConcat(d, xs, ys[..|ys| - 1]);
      assert (xs + ys)[..|xs + ys| - 1] == xs + ys[..|ys| - 1];
    }
  }

  /** Applying `k` writes is applying `n` of them and then the next `k - n`. */
  lemma ApplyFrom(d: Disk, ws: seq<Write>, n: nat, k: nat)
    requires n <= k <= |ws|
    ensures Apply(d, ws[..k]) == Apply(Apply(d, ws[..n]), ws[n..][..k - n])
  {
    assert ws[..k] == ws[..n] + ws[n..][..k - n];
    ApplyConcat(d, ws[..n], ws[n..][..k - n]);
  }

  // ----- Recovery

  /** A complete recovery installs the logged blocks, empties the header and touches nothing else. */
  lemma RecoveredIs(g: Geometry, d: Disk)
    requires DiskOk(g, d)
    ensures var r := Recovered(g, d);
            && DiskOk(g, r) && Head(g, r) == []
            && r == Installed(d, Head(g, d), LoggedContent(g, d))[g.start := EncodeHead(d[g.start], [])]
  {
    var lh, content := Head(g, d), LoggedContent(g, d);
    var ws := InstallWrites(lh, content);
    ApplyConcat(d, ws, [HeadWrite(g, d[g.start], [])]);
    ApplyInstall(d, lh, content, |lh|);
    assert ws[..|lh|] == ws && lh[..|lh|] == lh && content[..|lh|] == content;
    HeadRoundTrip(d[g.start], []);
  }

  /** Two disks that agree on the header and on the listed log blocks, and whose home blocks differ
      at most in listed ones, recover to the same home blocks. */
  lemma RecoveryIgnoresListed(g: Geometry, d: Disk, e: Disk)
    requires DiskOk(g, d) && DiskOk(g, e) && Head(g, d) == Head(g, e)
    requires LoggedContent(g, d) == LoggedContent(g, e)
    requires forall b | g.Home(b) && b !in Head(g, d) :: d[b] == e[b]
    ensures SameHome(g, Recovered(g, d), Recovered(g, e))
  {
    RecoveredIs(g, d);
    RecoveredIs(g, e);
    forall b | g.Home(b) ensures Recovered(g, d)[b] == Recovered(g, e)[b] {
      InstalledAt(d, Head(g, d), LoggedContent(g, d), b);
      InstalledAt(e, Head(g, e), LoggedContent(g, e), b);
    }
  }

  /** A recovery that crashes after `k` of its writes loses nothing: recovering again ends in the
      same home blocks as an uninterrupted recovery. */
  lemma CrashedRecovery(g: Geometry, d: Disk, k: nat)
    requires DiskOk(g, d) && k <= |RecoverWrites(g, d)|
    ensures var e := Apply(d, RecoverWrites(g, d)[..k]);
            DiskOk(g, e) && SameHome(g, Recovered(g, e), Recovered(g, d))
  {
    hide Apply;
    var lh, content, ws := Head(g, d), LoggedContent(g, d), RecoverWrites(g, d);
    if k <= |lh| {
      assert ws[..k] == InstallWrites(lh, content)[..k];
      PartlyInstalled(g, d, k);
    } else {
      ApplyAll(d, ws);
      RecoveredIs(g, d);
      RecoveredIs(g, Recovered(g, d));
    }
  }

  lemma PartlyInstalled(g: Geometry, d: Disk, k: nat)
    requires DiskOk(g, d) && k <= |Head(g, d)|
    ensures var e := Apply(d, InstallWrites(Head(g, d), LoggedContent(g, d))[..k]);
            DiskOk(g, e) && SameHome(g, Recovered(g, e), Recovered(g, d))
  {
    var lh, content := Head(g, d), LoggedContent(g, d);
    var e := Apply(d, InstallWrites(lh, content)[..k]);
    ApplyInstall(d, lh, content, k);
    forall b | 0 <= b < |d| && (b !in lh || !g.Home(b)) ensures e[b] == d[b] {
      InstalledAt(d, lh[..k], content[..k], b);
    }
    assert e[g.start] == d[g.start];
    assert LoggedContent(g, e) == content;
    RecoveryIgnoresListed(g, e, d);
  }

  /** The disk after recoveries that crash after `cuts[0]`, `cuts[1]`, ... writes (or run to completion). */
  function AfterRecoveries(g: Geometry, d: Disk, cuts: seq<nat>): (r: Disk)
    requires DiskOk(g, d)
    ensures DiskOk(g, r)
    decreases |cuts|
  {
    if cuts == [] then d
    else
      var ws := RecoverWrites(g, d);
      var k := if cuts[0] <= |ws| then cuts[0] else |ws|;
      CrashedRecovery(g, d, k);
      AfterRecoveries(g, Apply(d, ws[..k]), cuts[1..])
  }

  lemma {:induction false} ManyCrashedRecoveries(g: Geometry, d: Disk, cuts: seq<nat>)
    requires DiskOk(g, d)
    ensures SameHome(g, Recovered(g, AfterRecoveries(g, d, cuts)), Recovered(g, d))
    decreases |cuts|
  {
    if cuts != [] {
      var ws := RecoverWrites(g, d);
      var k := if cuts[0] <= |ws| then cuts[0] else |ws|;
      CrashedRecovery(g, d, k);
      ManyCrashedRecoveries(g, Apply(d, ws[..k]), cuts[1..]);
    }
  }

  // ----- Commit

  /** Crash before the first header write: the log is still empty, so recovery keeps the old home blocks. */
  lemma CrashBeforeHead(g: Geometry, d: Disk, lh: seq<nat>, content: seq<Block>, k: nat)
    requires DiskOk(g, d) && Head(g, d) == [] && g.Targets(lh) && |content| == |lh| && k <= |lh|
    ensures var e := Apply(d, CommitWrites(g, d, lh, content)[..k]);
            && DiskOk(g, e) && Head(g, e) == [] && e[g.start] == d[g.start]
            && SameHome(g, e, d) && SameHome(g, Recovered(g, e), d)
  {
    hide Apply;
    assert CommitWrites(g, d, lh, content)[..k] == LogWrites(g, lh, content)[..k];
    ApplyLogWrites(g, d, lh, content, k);
    var e := Apply(d, LogWrites(g, lh, content)[..k]);
    RecoveredIs(g, e);
    assert Installed(e, [], []) == e;
  }

  /** The disk right after the first header write of a commit. */
  lemma AtHead(g: Geometry, d: Disk, lh: seq<nat>, content: seq<Block>)
    requires DiskOk(g, d) && Head(g, d) == [] && g.Targets(lh) && |content| == |lh|
    ensures var e := Apply(d, CommitWrites(g, d, lh, content)[..|lh| + 1]);
            && DiskOk(g, e) && Head(g, e) == lh && LoggedContent(g, e) == content
            && e[g.start] == EncodeHead(d[g.start], lh) && SameHome(g, e, d)
  {
    hide Apply;
    var ws := CommitWrites(g, d, lh, content);
    ApplyStep(d, ws, |lh|);
    assert ws[..|lh|] == LogWrites(g, lh, content)[..|lh|];
    ApplyLogWrites(g, d, lh, content, |lh|);
    HeadRoundTrip(d[g.start], lh);
  }

  /** From the first header write on, the rest of a commit is exactly a recovery run on that disk. */
  lemma CommitTailIsRecovery(g: Geometry, d: Disk, lh: seq<nat>, content: seq<Block>)
    requires DiskOk(g, d) && Head(g, d) == [] && g.Targets(lh) && |content| == |lh|
    ensures var ws := CommitWrites(g, d, lh, content);
            var e := Apply(d, ws[..|lh| + 1]);
            && DiskOk(g, e) && RecoverWrites(g, e) == ws[|lh| + 1..]
            && SameHome(g, Recovered(g, e), Installed(d, lh, content))
  {
    hide Apply, Installed, EncodeHead;
    var ws := CommitWrites(g, d, lh, content);
    var e := Apply(d, ws[..|lh| + 1]);
    AtHead(g, d, lh, content);
    RecoveredIs(g, e);
    forall b | g.Home(b) ensures Recovered(g, e)[b] == Installed(d, lh, content)[b] {
      InstalledAt(e, lh, content, b);
      InstalledAt(d, lh, content, b);
    }
  }

  /** Crash at or after the first header write: recovery ends with all of the new home blocks. */
  lemma CrashAfterHead(g: Geometry, d: Disk, lh: seq<nat>, content: seq<Block>, k: nat)
    requires DiskOk(g, d) && Head(g, d) == [] && g.Targets(lh) && |content| == |lh|
    requires |lh| < k <= 2 * |lh| + 2
    ensures var e := Apply(d, CommitWrites(g, d, lh, content)[..k]);
            DiskOk(g, e) && SameHome(g, Recovered(g, e), Installed(d, lh, content))
  {
    hide Apply, CommitWrites, RecoverWrites;
    var ws := CommitWrites(g, d, lh, content);
    CommitTailIsRecovery(g, d, lh, content);
    ApplyFrom(d, ws, |lh| + 1, k);
    CrashedRecovery(g, Apply(d, ws[..|lh| + 1]), k - |lh| - 1);
  }

  /** The complete commit leaves an empty log over the new home blocks. */
  lemma CommitComplete(g: Geometry, d: Disk, lh: seq<nat>, content: seq<Block>)
    requires DiskOk(g, d) && Head(g, d) == [] && g.Targets(lh) && |content| == |lh|
    ensures var e := Apply(d, CommitWrites(g, d, lh, content));
            DiskOk(g, e) && Head(g, e) == [] && SameHome(g, e, Installed(d, lh, content))
  {
    var ws := CommitWrites(g, d, lh, content);
    CommitTailIsRecovery(g, d, lh, content);
    ApplyFrom(d, ws, |lh| + 1, |ws|);
    ApplyAll(d, ws);
    ApplyAll(Apply(d, ws[..|lh| + 1]), ws[|lh| + 1..]);
    RecoveredIs(g, Apply(d, ws[..|lh| + 1]));
  }

  /**
   Crash safety of a commit.  Whatever prefix of its writes reached the disk, and however many
   crashed recoveries follow, one complete recovery leaves the home blocks entirely as before the
   commit or entirely as the group made them; which of the two is decided by whether the first
   header write is in the prefix.
   */
  lemma CommitIsAtomic(g: Geometry, d: Disk, lh: seq<nat>, content: seq<Block>, k: nat, cuts: seq<nat>)
    requires DiskOk(g, d) && Head(g, d) == [] && g.Targets(lh) && |content| == |lh|
    requires k <= |CommitWrites(g, d, lh, content)|
    ensures var e := Apply(d, CommitWrites(g, d, lh, content)[..k]);
            && DiskOk(g, e)
            && var r := Recovered(g, AfterRecoveries(g, e, cuts));
               SameHome(g, r, if k <= |lh| then d else Installed(d, lh, content))
  {
    if k <= |lh| {
      CrashBeforeHead(g, d, lh, content, k);
    } else {
      CrashAfterHead(g, d, lh, content, k);
    }
    ManyCrashedRecoveries(g, Apply(d, CommitWrites(g, d, lh, content)[..k]), cuts);
  }
}
