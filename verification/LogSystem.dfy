/**
 Any number of file-system operations running over the log, with crashes.

 A state holds the disk, the in-memory log and the operations between their begin_op and
 end_op.  A step is one critical section of begin_op, log_write or end_op, one block write of
 a commit or of a recovery, or a crash, which may happen in any state.  log_write takes two
 steps, because its capacity test runs before it takes the log lock.

 The history part of the state (`trace`, `current`, `committed`, `lost`) records what the
 operations logged; no step looks at it.
 */
module LogSystem {
  import opened Params
  import opened LogDisk
  import opened LogCode

  type Op = nat

  datatype Event = Logged(op: Op, block: nat, data: Block)

  datatype Call = Idle | Checked(block: nat, data: Block)

  /** An operation between begin_op and end_op: the distinct blocks it logged, and where it is in log_write. */
  datatype Active = Active(op: Op, blocks: set<nat>, call: Call)

  datatype Mode = Up | Recovering

  datatype Sys = Sys(
    disk: Disk,
    mode: Mode,
    lh: seq<nat>,              // the in-memory header
    dirty: map<nat, Block>,    // pinned cache contents
    outstanding: nat,
    committing: bool,
    active: seq<Active>,
    next: nat,                 // the next block write of the running commit or recovery
    base: Disk,                // the disk when that commit or recovery began
    content: seq<Block>,       // the cached contents when that commit began
    trace: seq<Event>,
    current: set<Op>,          // begun since the last commit
    committed: set<Op>,
    lost: set<Op>)             // caught by a crash

  datatype Step =
    | Begin(op: Op)
    | Check(i: nat, block: nat, data: Block)
    | Record(i: nat)
    | End(i: nat)
    | CommitWrite
    | CommitDone
    | Crash
    | RecoverWrite
    | RecoverDone

  ghost function Live(s: Sys): set<Op> {
    s.committed + s.current
  }

  // ----- Steps

  predicate HeaderReadable(g: Geometry, s: Sys) {
    g.Valid() && |s.disk| == g.total && |s.disk[g.start]| == WORDS && g.Targets(s.lh)
  }

  /** Write number `next` of `commit`, computed from the state in which it is issued. */
  function NextCommitWrite(g: Geometry, s: Sys): Write
    requires HeaderReadable(g, s) && s.next <= 2 * |s.lh| + 1
  {
    var n := |s.lh|;
    if s.next < n then Write(g.start + 1 + s.next, Read(s.disk, s.dirty, s.lh[s.next]))
    else if s.next == n then HeadWrite(g, s.disk[g.start], s.lh)
    else if s.next <= 2 * n then Write(s.lh[s.next - n - 1], s.disk[g.start + s.next - n])
    else HeadWrite(g, s.disk[g.start], [])
  }

  /** Write number `next` of `recover_from_log`, computed from the state in which it is issued. */
  function NextRecoverWrite(g: Geometry, s: Sys): Write
    requires HeaderReadable(g, s) && s.next <= |s.lh|
  {
    if s.next < |s.lh| then Write(s.lh[s.next], s.disk[g.start + 1 + s.next])
    else HeadWrite(g, s.disk[g.start], [])
  }

  ghost predicate Enabled(g: Geometry, s: Sys, step: Step) {
    match step
    case Begin(op) => s.mode.Up? && MayBegin(|s.lh|, s.outstanding, s.committing) && op !in s.committed + s.current + s.lost
    case Check(i, b, _) =>
      s.mode.Up? && i < |s.active| && s.active[i].call.Idle? && g.Home(b) && !TooBig(|s.lh|, g.size)
    case Record(i) => s.mode.Up? && i < |s.active| && s.active[i].call.Checked?
    case End(i) => s.mode.Up? && i < |s.active| && s.active[i].call.Idle? && s.outstanding > 0
    case CommitWrite => s.mode.Up? && s.committing && s.lh != [] && HeaderReadable(g, s) && s.next <= 2 * |s.lh| + 1
    case CommitDone => s.mode.Up? && s.committing && s.lh == []
    case Crash => DiskOk(g, s.disk)
    case RecoverWrite => s.mode.Recovering? && HeaderReadable(g, s) && s.next <= |s.lh|
    case RecoverDone => s.mode.Recovering? && s.next == |s.lh| + 1
  }

  ghost function Do(g: Geometry, s: Sys, step: Step): Sys
    requires Enabled(g, s, step)
  {
    match step
    case Begin(op) => DoBegin(s, op)
    case Check(i, b, data) => s.(active := s.active[i := s.active[i].(call := Checked(b, data))])
    case Record(i) => DoRecord(s, i)
    case End(i) => DoEnd(s, i)
    case CommitWrite => DoCommitWrite(g, s)
    case CommitDone => s.(committing := false)
    case Crash => DoCrash(g, s)
    case RecoverWrite => s.(disk := WriteOne(s.disk, NextRecoverWrite(g, s)), next := s.next + 1)
    case RecoverDone => s.(mode := Up, lh := [], next := 0)
  }

  ghost function DoBegin(s: Sys, op: Op): Sys {
    s.(outstanding := s.outstanding + 1, active := s.active + [Active(op, {}, Idle)], current := s.current + {op})
  }

  ghost function DoRecord(s: Sys, i: nat): Sys
    requires i < |s.active| && s.active[i].call.Checked?
  {
    var a := s.active[i];
    var b, data := a.call.block, a.call.data;
    s.(lh := Absorb(s.lh, b),
       dirty := s.dirty[b := data],
       active := s.active[i := Active(a.op, a.blocks + {b}, Idle)],
       trace := s.trace + [Logged(a.op, b, data)])
  }

  ghost function DoEnd(s: Sys, i: nat): Sys
    requires i < |s.active| && s.outstanding > 0
  {
    var t := s.(outstanding := s.outstanding - 1, active := s.active[..i] + s.active[i + 1..]);
    if t.outstanding == 0 then
      t.(committing := true, next := 0, base := s.disk, content := Cached(s.disk, s.dirty, s.lh))
    else t
  }

  ghost function DoCommitWrite(g: Geometry, s: Sys): Sys
    requires HeaderReadable(g, s) && s.next <= 2 * |s.lh| + 1
  {
    var w, n := NextCommitWrite(g, s), |s.lh|;
    var t := s.(disk := WriteOne(s.disk, w));
    if s.next < n then t.(next := s.next + 1)
    else if s.next == n then t.(next := s.next + 1, committed := s.committed + s.current, current := {})
    else if s.next <= 2 * n then t.(next := s.next + 1, dirty := s.dirty - {w.block})
    else t.(next := 0, lh := [])
  }

  /** Memory is lost; the rebooting kernel reads the header. */
  ghost function DoCrash(g: Geometry, s: Sys): Sys
    requires DiskOk(g, s.disk)
  {
    s.(mode := Recovering, lh := Head(g, s.disk), dirty := map[], outstanding := 0, committing := false,
       active := [], next := 0, base := s.disk, content := [],
       current := {}, lost := s.lost + s.current)
  }

  ghost function Boot(g: Geometry, d: Disk): Sys
    requires DiskOk(g, d)
  {
    Sys(d, Recovering, Head(g, d), map[], 0, false, [], 0, d, [], [], {}, {}, {})
  }

  // ----- Runs

  ghost predicate Legal(g: Geometry, s: Sys, steps: seq<Step>)
    decreases |steps|
  {
    steps == [] || (Enabled(g, s, steps[0]) && Legal(g, Do(g, s, steps[0]), steps[1..]))
  }

  ghost function Exec(g: Geometry, s: Sys, steps: seq<Step>): Sys
    requires Legal(g, s, steps)
    decreases |steps|
  {
    if steps == [] then s else Exec(g, Do(g, s, steps[0]), steps[1..])
  }

  /** After every block recorded the list fits the log area, which also holds the header, and the header itself. */
  ghost predicate Roomy(g: Geometry, s: Sys, steps: seq<Step>)
    requires Legal(g, s, steps)
    decreases |steps|
  {
    steps == [] || (HasRoom(g, s, steps[0]) && Roomy(g, Do(g, s, steps[0]), steps[1..]))
  }

  ghost predicate HasRoom(g: Geometry, s: Sys, step: Step)
    requires Enabled(g, s, step)
  {
    step.Record? ==> |Do(g, s, step).lh| < g.size && |Do(g, s, step).lh| <= LOGSIZE
  }

  // ----- What the logged events mean

  /** The events of the operations in `ops`, in order. */
  ghost function Only(es: seq<Event>, ops: set<Op>): seq<Event> {
    if es == [] then []
    else
      var rest, e := Only(es[..|es| - 1], ops), es[|es| - 1];
      if e.op in ops then rest + [e] else rest
  }

  /** The disk without any log: each event overwrites its block. */
  ghost function Replay(d: Disk, es: seq<Event>): (r: Disk)
    ensures |r| == |d|
  {
    if es == [] then d
    else
      var e := es[|es| - 1];
      WriteOne(Replay(d, es[..|es| - 1]), Write(e.block, e.data))
  }

  lemma {:induction false} OnlyAgrees(es: seq<Event>, s: set<Op>, t: set<Op>)
    requires forall i | 0 <= i < |es| :: es[i].op in s <==> es[i].op in t
    ensures Only(es, s) == Only(es, t)
  {
    if es != [] {
      var n := |es| - 1;
      OnlyAgrees(es[..n], s, t);
      assert es[n].op in s <==> es[n].op in t;
    }
  }

  lemma ReplaySnoc(d: Disk, es: seq<Event>, e: Event)
    ensures Replay(d, es + [e]) == WriteOne(Replay(d, es), Write(e.block, e.data))
  {
    assert (es + [e])[..|es|] == es;
  }

  lemma OnlySnoc(es: seq<Event>, e: Event, ops: set<Op>)
    ensures Only(es + [e], ops) == if e.op in ops then Only(es, ops) + [e] else Only(es, ops)
  {
    assert (es + [e])[..|es|] == es;
  }

  // ----- The invariant

  ghost predicate HistoryOk(s: Sys) {
    && (forall i | 0 <= i < |s.active| :: s.active[i].op in s.current)
    && s.current !! s.committed && s.current !! s.lost && s.committed !! s.lost
    && (forall i | 0 <= i < |s.trace| :: s.trace[i].op in s.committed + s.current + s.lost)
  }

  ghost predicate CallOk(g: Geometry, a: Active) {
    a.call.Checked? ==> g.Home(a.call.block)
  }

  /** The in-memory log while the system is up. */
  ghost predicate MemoryOk(g: Geometry, s: Sys) {
    && s.outstanding == |s.active|
    && (s.committing ==> s.active == [])
    && g.Targets(s.lh)
    && (forall i | 0 <= i < |s.active| :: CallOk(g, s.active[i]))
    && (forall i | 0 <= i < |s.active| :: s.active[i].blocks <= Members(s.lh))
  }

  ghost predicate Writing(s: Sys) {
    s.committing && s.lh != []
  }

  ghost function Overlay(d: Disk, dirty: map<nat, Block>): (r: Disk)
    ensures |r| == |d|
  {
    seq(|d|, b requires 0 <= b < |d| => Read(d, dirty, b))
  }

  /** Up, with no commit writing: the log on disk is empty, the home blocks are `was`, and the cache
      laid over them is `now`. */
  ghost predicate QuietOk(g: Geometry, disk: Disk, dirty: map<nat, Block>, lh: seq<nat>, was: Disk, now: Disk) {
    && DiskOk(g, disk) && Head(g, disk) == []
    && dirty.Keys == Members(lh)
    && SameHome(g, disk, was)
    && SameHome(g, Overlay(disk, dirty), now)
  }

  /** A commit of `lh` after `next` of its writes. */
  ghost predicate WritingOk(g: Geometry, disk: Disk, lh: seq<nat>, base: Disk, content: seq<Block>, next: nat) {
    && g.Targets(lh)
    && DiskOk(g, base) && Head(g, base) == [] && |content| == |lh|
    && next <= 2 * |lh| + 1
    && disk == Apply(base, CommitWrites(g, base, lh, content)[..next])
  }

  function Members(lh: seq<nat>): set<nat> {
    set b | b in lh
  }

  /** How many home blocks the first `next` writes of a commit of `lh` have installed. */
  function Installs(lh: seq<nat>, next: nat): nat {
    if next <= |lh| then 0 else next - |lh| - 1
  }

  /** Blocks stay pinned, with the contents being committed, until they are installed. */
  ghost predicate PinnedOk(dirty: map<nat, Block>, lh: seq<nat>, content: seq<Block>, next: nat) {
    && |content| == |lh|
    && (next <= |lh| ==> forall i | 0 <= i < |lh| :: lh[i] in dirty && dirty[lh[i]] == content[i])
    && Installs(lh, next) <= |lh|
    && dirty.Keys == Members(lh[Installs(lh, next)..])
  }

  /** Before the first header write the durable state is `was`; from then on it is the new one. */
  ghost predicate SwitchOk(g: Geometry, s: Sys, was: Disk, now: Disk)
    requires WritingOk(g, s.disk, s.lh, s.base, s.content, s.next)
  {
    && SameHome(g, Installed(s.base, s.lh, s.content), now)
    && (s.next <= |s.lh| ==> SameHome(g, s.base, was))
    && (s.next > |s.lh| ==> s.current == {})
  }

  ghost predicate RecoverOk(g: Geometry, s: Sys, was: Disk) {
    && DiskOk(g, s.base) && s.lh == Head(g, s.base) && s.dirty == map[]
    && s.outstanding == 0 && !s.committing && s.active == [] && s.current == {}
    && s.next <= |s.lh| + 1
    && s.disk == Apply(s.base, RecoverWrites(g, s.base)[..s.next])
    && SameHome(g, Recovered(g, s.base), was)
  }

  /** What the operations in `ops` make of the disk found at boot. */
  ghost function Expected(g: Geometry, init: Disk, s: Sys, ops: set<Op>): Disk
    requires DiskOk(g, init)
  {
    Replay(Recovered(g, init), Only(s.trace, ops))
  }

  ghost predicate DiskRelation(g: Geometry, s: Sys, was: Disk, now: Disk) {
    && (s.mode.Recovering? ==> RecoverOk(g, s, was))
    && (s.mode.Up? && !Writing(s) ==> QuietOk(g, s.disk, s.dirty, s.lh, was, now))
    && (s.mode.Up? && Writing(s) ==>
          && WritingOk(g, s.disk, s.lh, s.base, s.content, s.next)
          && PinnedOk(s.dirty, s.lh, s.content, s.next)
          && SwitchOk(g, s, was, now))
  }

  ghost predicate Inv(g: Geometry, init: Disk, s: Sys) {
    && DiskOk(g, init)
    && HistoryOk(s)
    && (s.mode.Up? ==> MemoryOk(g, s))
    && DiskRelation(g, s, Expected(g, init, s, s.committed), Expected(g, init, s, Live(s)))
  }

  /** A crash here and a complete recovery leave exactly the committed operations. */
  ghost predicate CrashSafe(g: Geometry, init: Disk, s: Sys) {
    && DiskOk(g, init) && DiskOk(g, s.disk)
    && SameHome(g, Recovered(g, s.disk), Expected(g, init, s, s.committed))
  }

  lemma EmptyLogRecovers(g: Geometry, d: Disk)
    requires DiskOk(g, d) && Head(g, d) == []
    ensures SameHome(g, Recovered(g, d), d)
  {
    RecoveredIs(g, d);
    assert Installed(d, [], []) == d;
  }

  lemma RelationIsCrashSafe(g: Geometry, s: Sys, was: Disk, now: Disk)
    requires DiskRelation(g, s, was, now) && (s.current == {} ==> was == now)
    ensures DiskOk(g, s.disk) && SameHome(g, Recovered(g, s.disk), was)
  {
    if s.mode.Recovering? {
      CrashedRecovery(g, s.base, s.next);
    } else if Writing(s) {
      if s.next <= |s.lh| {
        CrashBeforeHead(g, s.base, s.lh, s.content, s.next);
      } else {
        CrashAfterHead(g, s.base, s.lh, s.content, s.next);
      }
    } else {
      EmptyLogRecovers(g, s.disk);
    }
  }

  lemma InvIsCrashSafe(g: Geometry, init: Disk, s: Sys)
    requires Inv(g, init, s)
    ensures CrashSafe(g, init, s)
  {
    assert s.current == {} ==> Live(s) == s.committed;
    RelationIsCrashSafe(g, s, Expected(g, init, s, s.committed), Expected(g, init, s, Live(s)));
  }

  // ----- Every step keeps the invariant

  lemma BootInv(g: Geometry, d: Disk)
    requires DiskOk(g, d)
    ensures Inv(g, d, Boot(g, d))
  {
    assert RecoverWrites(g, d)[..0] == [];
  }

  lemma BeginMemory(g: Geometry, s: Sys, op: Op)
    requires MemoryOk(g, s) && MayBegin(|s.lh|, s.outstanding, s.committing)
    ensures MemoryOk(g, DoBegin(s, op))
  {
    var t := DoBegin(s, op);
    assert t.active[..|s.active|] == s.active;
  }

  lemma BeginKeeps(g: Geometry, init: Disk, s: Sys, op: Op)
    requires Inv(g, init, s) && Enabled(g, s, Begin(op))
    ensures Inv(g, init, DoBegin(s, op))
  {
    hide Recovered, Replay, Only, Apply, CommitWrites, RecoverWrites, MemoryOk;
    BeginMemory(g, s, op);
    OnlyAgrees(s.trace, Live(s), Live(DoBegin(s, op)));
  }

  lemma CheckMemory(g: Geometry, s: Sys, i: nat, b: nat, data: Block)
    requires MemoryOk(g, s) && Enabled(g, s, Check(i, b, data))
    ensures MemoryOk(g, Do(g, s, Check(i, b, data)))
  {
    var t := Do(g, s, Check(i, b, data));
    forall k | 0 <= k < |t.active| ensures CallOk(g, t.active[k]) && t.active[k].blocks <= Members(t.lh) {
      assert CallOk(g, s.active[k]) && s.active[k].blocks == t.active[k].blocks;
    }
  }

  lemma CheckKeeps(g: Geometry, init: Disk, s: Sys, i: nat, b: nat, data: Block)
    requires Inv(g, init, s) && Enabled(g, s, Check(i, b, data))
    ensures Inv(g, init, Do(g, s, Check(i, b, data)))
  {
    hide Recovered, Replay, Only, Apply, CommitWrites, RecoverWrites, MemoryOk;
    CheckMemory(g, s, i, b, data);
  }

  lemma RecordMemory(g: Geometry, s: Sys, i: nat)
    requires MemoryOk(g, s) && i < |s.active| && s.active[i].call.Checked?
    requires |DoRecord(s, i).lh| < g.size && |DoRecord(s, i).lh| <= LOGSIZE
    ensures MemoryOk(g, DoRecord(s, i))
  {
    var t := DoRecord(s, i);
    assert CallOk(g, s.active[i]);
    assert forall k | 0 <= k < |t.active| && k != i :: t.active[k] == s.active[k];
  }

  lemma QuietRecord(g: Geometry, disk: Disk, dirty: map<nat, Block>, lh: seq<nat>, was: Disk, now: Disk,
                    b: nat, data: Block)
    requires QuietOk(g, disk, dirty, lh, was, now) && g.Home(b)
    ensures QuietOk(g, disk, dirty[b := data], Absorb(lh, b), was, WriteOne(now, Write(b, data)))
  {
    assert dirty[b := data].Keys == Members(Absorb(lh, b));
    assert Overlay(disk, dirty[b := data]) == Overlay(disk, dirty)[b := data];
  }

  lemma RecordKeeps(g: Geometry, init: Disk, s: Sys, i: nat)
    requires Inv(g, init, s) && Enabled(g, s, Record(i)) && HasRoom(g, s, Record(i))
    ensures Inv(g, init, DoRecord(s, i))
  {
    hide Recovered, Replay, Only, Apply, CommitWrites, RecoverWrites, Overlay, QuietOk;
    var t := DoRecord(s, i);
    var a := s.active[i];
    var e := Logged(a.op, a.call.block, a.call.data);
    RecordMemory(g, s, i);
    assert HistoryOk(t);
    assert CallOk(g, a);
    OnlySnoc(s.trace, e, s.committed);
    OnlySnoc(s.trace, e, Live(s));
    ReplaySnoc(Recovered(g, init), Only(s.trace, Live(s)), e);
    QuietRecord(g, s.disk, s.dirty, s.lh, Expected(g, init, s, s.committed), Expected(g, init, s, Live(s)),
                e.block, e.data);
  }

  lemma EndMemory(g: Geometry, s: Sys, i: nat)
    requires MemoryOk(g, s) && i < |s.active| && s.outstanding > 0
    ensures !s.committing && g.Targets(s.lh) && MemoryOk(g, DoEnd(s, i))
  {
    hide Cached;
    var t := DoEnd(s, i);
    assert CallOk(g, s.active[i]);
    forall k | 0 <= k < |t.active| ensures CallOk(g, t.active[k]) && t.active[k].blocks <= Members(t.lh) {
      var j := if k < i then k else k + 1;
      assert t.active[k] == s.active[j];
    }
  }

  /** The disk that the commit will produce is the cache laid over the disk. */
  lemma InstalledIsOverlay(g: Geometry, d: Disk, dirty: map<nat, Block>, lh: seq<nat>)
    requires |d| == g.total && g.Targets(lh) && dirty.Keys == Members(lh)
    ensures SameHome(g, Installed(d, lh, Cached(d, dirty, lh)), Overlay(d, dirty))
  {
    var content := Cached(d, dirty, lh);
    forall b | g.Home(b) ensures Installed(d, lh, content)[b] == Overlay(d, dirty)[b] {
      InstalledAt(d, lh, content, b);
      if b in lh {
        var i :| 0 <= i < |lh| && lh[i] == b;
        assert content[i] == Read(d, dirty, b);
      }
    }
  }

  /** The last end_op hands the whole cache to a commit. */
  lemma CommitStarts(g: Geometry, s: Sys, was: Disk, now: Disk)
    requires QuietOk(g, s.disk, s.dirty, s.lh, was, now) && g.Targets(s.lh) && s.lh != []
    requires s.next == 0 && s.base == s.disk && s.content == Cached(s.disk, s.dirty, s.lh)
    ensures WritingOk(g, s.disk, s.lh, s.base, s.content, s.next)
    ensures PinnedOk(s.dirty, s.lh, s.content, s.next)
    ensures SwitchOk(g, s, was, now)
  {
    hide RecoverWrites, EncodeHead;
    InstalledIsOverlay(g, s.disk, s.dirty, s.lh);
    assert CommitWrites(g, s.base, s.lh, s.content)[..0] == [] && s.lh[0..] == s.lh;
  }

  lemma EndKeeps(g: Geometry, init: Disk, s: Sys, i: nat)
    requires Inv(g, init, s) && Enabled(g, s, End(i))
    ensures Inv(g, init, DoEnd(s, i))
  {
    hide Recovered, Replay, Only, Apply, CommitWrites, RecoverWrites, Overlay, MemoryOk;
    var t := DoEnd(s, i);
    EndMemory(g, s, i);
    assert HistoryOk(t) by {
      assert forall k | 0 <= k < |t.active| :: t.active[k] == s.active[if k < i then k else k + 1];
    }
    if Writing(t) {
      CommitStarts(g, t, Expected(g, init, s, s.committed), Expected(g, init, s, Live(s)));
    }
  }

  lemma {:induction false} RecoveryReadsSame(g: Geometry, d: Disk, k: nat)
    requires DiskOk(g, d) && k <= |Head(g, d)|
    ensures var e := Apply(d, RecoverWrites(g, d)[..k]);
            |e| == |d| && e[g.start..g.start + g.size] == d[g.start..g.start + g.size]
  {
    if k > 0 {
      RecoveryReadsSame(g, d, k - 1);
      ApplyStep(d, RecoverWrites(g, d), k - 1);
      assert g.Home(Head(g, d)[k - 1]);
    }
  }

  lemma SameArea(g: Geometry, d: Disk, e: Disk, n: nat)
    requires g.Valid() && |d| == |e| == g.total && n < g.size
    requires d[g.start..g.start + g.size] == e[g.start..g.start + g.size]
    ensures d[g.start] == e[g.start] && LogBlocks(g, d, n) == LogBlocks(g, e, n)
  {
    var x, y := d[g.start..g.start + g.size], e[g.start..g.start + g.size];
    assert d[g.start] == x[0] && e[g.start] == y[0];
    SliceOfSlice(d, g.start, g.start + g.size, 1, 1 + n);
    SliceOfSlice(e, g.start, g.start + g.size, 1, 1 + n);
  }

  lemma SliceOfSlice<T>(d: seq<T>, a: nat, b: nat, i: nat, j: nat)
    requires a <= b <= |d| && i <= j <= b - a
    ensures d[a..b][i..j] == d[a + i..a + j]
  {
    var x, y := d[a..b][i..j], d[a + i..a + j];
    forall k | 0 <= k < |x| ensures x[k] == y[k] {
      assert x[k] == d[a..b][i + k] == d[a + i + k] == y[k];
    }
  }

  /** While a commit installs, the log area stays as the first header write left it. */
  lemma AfterHead(g: Geometry, d: Disk, lh: seq<nat>, content: seq<Block>, k: nat)
    requires DiskOk(g, d) && Head(g, d) == [] && g.Targets(lh) && |content| == |lh| && k <= |lh|
    ensures var e := Apply(d, CommitWrites(g, d, lh, content)[..|lh| + 1 + k]);
            && |e| == |d| && e[g.start] == EncodeHead(d[g.start], lh)
            && LogBlocks(g, e, |lh|) == content
  {
    hide CommitWrites, Apply, EncodeHead, RecoverWrites;
    var ws := CommitWrites(g, d, lh, content);
    var h := Apply(d, ws[..|lh| + 1]);
    AtHead(g, d, lh, content);
    CommitTailIsRecovery(g, d, lh, content);
    ApplyFrom(d, ws, |lh| + 1, |lh| + 1 + k);
    RecoveryReadsSame(g, h, k);
    SameArea(g, Apply(d, ws[..|lh| + 1 + k]), h, |lh|);
  }

  /** The write that a committing system issues is the next one of the list that the crash argument is about. */
  lemma NextWriteAgrees(g: Geometry, s: Sys)
    requires WritingOk(g, s.disk, s.lh, s.base, s.content, s.next) && PinnedOk(s.dirty, s.lh, s.content, s.next)
    ensures HeaderReadable(g, s)
    ensures NextCommitWrite(g, s) == CommitWrites(g, s.base, s.lh, s.content)[s.next]
  {
    hide CommitWrites, Apply, EncodeHead;
    var n := |s.lh|;
    CommitWriteAt(g, s.base, s.lh, s.content, s.next);
    if s.next <= n {
      CrashBeforeHead(g, s.base, s.lh, s.content, s.next);
    } else {
      AfterHead(g, s.base, s.lh, s.content, s.next - n - 1);
      if s.next <= 2 * n {
        assert s.disk[g.start + s.next - n] == LogBlocks(g, s.disk, n)[s.next - n - 1];
      }
    }
  }

  lemma PinnedStep(g: Geometry, s: Sys)
    requires HeaderReadable(g, s) && PinnedOk(s.dirty, s.lh, s.content, s.next) && s.next <= 2 * |s.lh|
    ensures var t := DoCommitWrite(g, s); PinnedOk(t.dirty, t.lh, t.content, t.next)
  {
    hide EncodeHead;
    if s.next > |s.lh| {
      PinnedDrop(s.dirty, s.lh, s.next - |s.lh| - 1);
    }
  }

  lemma PinnedDrop(dirty: map<nat, Block>, lh: seq<nat>, i: nat)
    requires i < |lh| && dirty.Keys == Members(lh[i..]) && forall i, j | 0 <= i < j < |lh| :: lh[i] != lh[j]
    ensures (dirty - {lh[i]}).Keys == Members(lh[i + 1..])
  {
    assert lh[i..][1..] == lh[i + 1..];
    TailMembers(lh[i..]);
  }

  lemma TailMembers(xs: seq<nat>)
    requires xs != [] && forall i, j | 0 <= i < j < |xs| :: xs[i] != xs[j]
    ensures Members(xs[1..]) == Members(xs) - {xs[0]}
  {
    assert xs == [xs[0]] + xs[1..];
  }

  lemma WritingStep(g: Geometry, s: Sys)
    requires WritingOk(g, s.disk, s.lh, s.base, s.content, s.next) && PinnedOk(s.dirty, s.lh, s.content, s.next)
    requires HeaderReadable(g, s) && s.next <= 2 * |s.lh|
    ensures var t := DoCommitWrite(g, s); WritingOk(g, t.disk, t.lh, t.base, t.content, t.next)
  {
    NextWriteAgrees(g, s);
    ApplyStep(s.base, CommitWrites(g, s.base, s.lh, s.content), s.next);
  }

  lemma CommitProgress(g: Geometry, s: Sys, was: Disk, now: Disk)
    requires s.mode.Up? && Writing(s) && DiskRelation(g, s, was, now)
    requires HeaderReadable(g, s) && s.next <= 2 * |s.lh|
    ensures DiskRelation(g, DoCommitWrite(g, s), if s.next == |s.lh| then now else was, now)
  {
    hide Recovered, Replay, Only, Apply, CommitWrites, RecoverWrites, EncodeHead, NextCommitWrite;
    WritingStep(g, s);
    PinnedStep(g, s);
    var t := DoCommitWrite(g, s);
    assert t.base == s.base && t.lh == s.lh && t.content == s.content && t.mode == s.mode && t.committing;
    assert SwitchOk(g, t, if s.next == |s.lh| then now else was, now);
  }

  lemma CommitFinish(g: Geometry, s: Sys, was: Disk, now: Disk)
    requires s.mode.Up? && Writing(s) && DiskRelation(g, s, was, now) && was == now
    requires HeaderReadable(g, s) && s.next == 2 * |s.lh| + 1
    ensures DiskRelation(g, DoCommitWrite(g, s), was, now)
  {
    hide Apply, CommitWrites, RecoverWrites, EncodeHead;
    var t := DoCommitWrite(g, s);
    var ws := CommitWrites(g, s.base, s.lh, s.content);
    NextWriteAgrees(g, s);
    ApplyStep(s.base, ws, s.next);
    ApplyAll(s.base, ws);
    CommitComplete(g, s.base, s.lh, s.content);
    assert s.dirty.Keys == {};
    assert Overlay(t.disk, t.dirty) == t.disk;
  }

  lemma AllCommitted(g: Geometry, s: Sys, was: Disk, now: Disk)
    requires DiskRelation(g, s, was, now) && s.mode.Up? && Writing(s) && s.next > |s.lh|
    ensures s.current == {}
  {
  }

  lemma CommitMemory(g: Geometry, s: Sys)
    requires MemoryOk(g, s) && s.committing && HeaderReadable(g, s) && s.next <= 2 * |s.lh| + 1
    ensures s.active == [] && MemoryOk(g, DoCommitWrite(g, s))
  {
    hide NextCommitWrite, WriteOne;
  }

  lemma CommitWriteKeeps(g: Geometry, init: Disk, s: Sys)
    requires Inv(g, init, s) && Enabled(g, s, CommitWrite)
    ensures Inv(g, init, DoCommitWrite(g, s))
  {
    hide Recovered, Replay, Only, MemoryOk, DiskRelation, NextCommitWrite, WriteOne;
    var t := DoCommitWrite(g, s);
    CommitMemory(g, s);
    var was, now := Expected(g, init, s, s.committed), Expected(g, init, s, Live(s));
    assert Live(t) == Live(s);
    assert HistoryOk(t);
    if s.next <= 2 * |s.lh| {
      CommitProgress(g, s, was, now);
      if s.next == |s.lh| {
        assert t.committed == Live(s);
      }
    } else {
      AllCommitted(g, s, was, now);
      assert Live(s) == s.committed;
      CommitFinish(g, s, was, now);
    }
  }

  lemma CrashKeeps(g: Geometry, init: Disk, s: Sys)
    requires Inv(g, init, s)
    ensures DiskOk(g, s.disk) && Inv(g, init, DoCrash(g, s))
  {
    hide Recovered, Replay, Only, CommitWrites, Apply, RecoverWrites, MemoryOk;
    InvIsCrashSafe(g, init, s);
    ApplyNone(s.disk, RecoverWrites(g, s.disk));
  }

  lemma RecoverWriteKeeps(g: Geometry, init: Disk, s: Sys)
    requires Inv(g, init, s) && Enabled(g, s, RecoverWrite)
    ensures Inv(g, init, Do(g, s, RecoverWrite))
  {
    hide Recovered, Replay, Only, Apply, CommitWrites, EncodeHead;
    var ws := RecoverWrites(g, s.base);
    RecoveryReadsSame(g, s.base, s.next);
    SameArea(g, s.disk, s.base, |s.lh|);
    if s.next < |s.lh| {
      assert s.disk[g.start + 1 + s.next] == LogBlocks(g, s.disk, |s.lh|)[s.next];
    }
    assert NextRecoverWrite(g, s) == ws[s.next];
    ApplyStep(s.base, ws, s.next);
  }

  lemma RecoverDoneKeeps(g: Geometry, init: Disk, s: Sys)
    requires Inv(g, init, s) && Enabled(g, s, RecoverDone)
    ensures Inv(g, init, Do(g, s, RecoverDone))
  {
    hide Replay, Only, Apply, CommitWrites;
    var t := Do(g, s, RecoverDone);
    ApplyAll(s.base, RecoverWrites(g, s.base));
    RecoveredIs(g, s.base);
    assert Overlay(t.disk, t.dirty) == t.disk;
    assert Live(t) == t.committed;
  }

  lemma CommitDoneKeeps(g: Geometry, init: Disk, s: Sys)
    requires Inv(g, init, s) && Enabled(g, s, CommitDone)
    ensures Inv(g, init, Do(g, s, CommitDone))
  {
    hide Recovered, Replay, Only, Apply, CommitWrites, RecoverWrites;
  }

  lemma StepKeeps(g: Geometry, init: Disk, s: Sys, step: Step)
    requires Inv(g, init, s) && Enabled(g, s, step) && HasRoom(g, s, step)
    ensures Inv(g, init, Do(g, s, step))
  {
    hide Recovered, Replay, Only, Apply, CommitWrites, RecoverWrites, Inv;
    match step
    case Begin(op) => BeginKeeps(g, init, s, op);
    case Check(i, b, data) => CheckKeeps(g, init, s, i, b, data);
    case Record(i) => RecordKeeps(g, init, s, i);
    case End(i) => EndKeeps(g, init, s, i);
    case CommitWrite => CommitWriteKeeps(g, init, s);
    case CommitDone => CommitDoneKeeps(g, init, s);
    case Crash => CrashKeeps(g, init, s);
    case RecoverWrite => RecoverWriteKeeps(g, init, s);
    case RecoverDone => RecoverDoneKeeps(g, init, s);
  }

  lemma {:induction false} RunKeeps(g: Geometry, init: Disk, s: Sys, steps: seq<Step>)
    requires Inv(g, init, s) && Legal(g, s, steps) && Roomy(g, s, steps)
    ensures Inv(g, init, Exec(g, s, steps))
    decreases |steps|
  {
    if steps != [] {
      StepKeeps(g, init, s, steps[0]);
      RunKeeps(g, init, Do(g, s, steps[0]), steps[1..]);
    }
  }

  // ----- Main results

  /**
   Whatever the interleaving, however much each operation logs, and wherever crashes fall, as long as the list
   fits: if power fails in the state reached, a complete recovery yields exactly the writes of the committed
   operations, all of them, in the order they were logged, and no write of any other operation.  An operation
   still running is never among the committed.
   */
  lemma EveryCrashIsSafe(g: Geometry, init: Disk, steps: seq<Step>)
    requires DiskOk(g, init) && Legal(g, Boot(g, init), steps) && Roomy(g, Boot(g, init), steps)
    ensures var s := Exec(g, Boot(g, init), steps);
            && CrashSafe(g, init, s) && Enabled(g, s, Crash)
            && forall i | 0 <= i < |s.active| :: s.active[i].op !in s.committed
  {
    BootInv(g, init);
    RunKeeps(g, init, Boot(g, init), steps);
    InvIsCrashSafe(g, init, Exec(g, Boot(g, init), steps));
  }

  /** Readers see every operation so far: with no commit writing, the cache over the disk holds the events
      of committed and current operations, and nothing else. */
  lemma CacheShowsLive(g: Geometry, init: Disk, steps: seq<Step>)
    requires DiskOk(g, init) && Legal(g, Boot(g, init), steps) && Roomy(g, Boot(g, init), steps)
    ensures var s := Exec(g, Boot(g, init), steps);
            s.mode.Up? && !Writing(s) ==>
              && SameHome(g, Overlay(s.disk, s.dirty), Expected(g, init, s, Live(s)))
              && SameHome(g, s.disk, Expected(g, init, s, s.committed))
  {
    BootInv(g, init);
    RunKeeps(g, init, Boot(g, init), steps);
  }

  lemma CommitChanges(g: Geometry, s: Sys, step: Step)
    requires Enabled(g, s, step) && (s.mode.Up? ==> MemoryOk(g, s))
    ensures var t := Do(g, s, step);
            if step.CommitWrite? && s.next == |s.lh| then
              s.active == [] && s.outstanding == 0 && t.committed == s.committed + s.current && t.current == {}
            else t.committed == s.committed
  {
    hide NextCommitWrite, NextRecoverWrite, WriteOne, Absorb, Cached, DiskOk;
    match step
    case CommitWrite =>
    case _ =>
  }

  /** Operations become durable at the first header write of a commit and nowhere else.  At that moment no
      operation is between begin_op and end_op, and all operations since the last commit become durable at once. */
  lemma CommitPoint(g: Geometry, init: Disk, steps: seq<Step>, step: Step)
    requires DiskOk(g, init) && Legal(g, Boot(g, init), steps) && Roomy(g, Boot(g, init), steps)
    requires Enabled(g, Exec(g, Boot(g, init), steps), step)
    ensures var s := Exec(g, Boot(g, init), steps);
            var t := Do(g, s, step);
            if step.CommitWrite? && s.next == |s.lh| then
              s.active == [] && s.outstanding == 0 && t.committed == s.committed + s.current && t.current == {}
            else t.committed == s.committed
  {
    hide DiskRelation, MemoryOk, HistoryOk, Do, Enabled, Legal, Exec;
    BootInv(g, init);
    RunKeeps(g, init, Boot(g, init), steps);
    CommitChanges(g, Exec(g, Boot(g, init), steps), step);
  }

  /** While a commit runs, no operation can begin, log or end, and only the commit's own last write (or a
      crash) changes the in-memory header. */
  lemma CommitRunsAlone(g: Geometry, init: Disk, steps: seq<Step>, step: Step)
    requires DiskOk(g, init) && Legal(g, Boot(g, init), steps) && Roomy(g, Boot(g, init), steps)
    requires Enabled(g, Exec(g, Boot(g, init), steps), step)
    ensures var s := Exec(g, Boot(g, init), steps);
            var t := Do(g, s, step);
            s.mode.Up? && s.committing ==>
              && s.outstanding == 0
              && (step.CommitWrite? || step.CommitDone? || step.Crash?)
              && (!step.Crash? ==> t.lh == if step.CommitWrite? && s.next == 2 * |s.lh| + 1 then [] else s.lh)
  {
    BootInv(g, init);
    RunKeeps(g, init, Boot(g, init), steps);
    hide DiskRelation, Recovered, Replay, Only, NextCommitWrite, NextRecoverWrite, WriteOne, Absorb, Cached, Legal, Exec;
  }
}
