/**
 Space in the log: what reservations promise, when log_write refuses a block, and when the list fits
 the log area.  The runs here are those in which every operation logs at most `m` distinct blocks.
 */
module LogSpace {
  import opened Params
  import opened LogDisk
  import opened LogCode
  import opened LogSystem

  // ----- Operations that keep a promise

  /** The operation logs at most `m` distinct blocks, this one included. */
  ghost predicate WithinPromise(s: Sys, step: Step, m: nat) {
    step.Check? && step.i < |s.active| ==> |s.active[step.i].blocks + {step.block}| <= m
  }

  ghost predicate Promised(g: Geometry, s: Sys, steps: seq<Step>, m: nat)
    requires Legal(g, s, steps)
    decreases |steps|
  {
    steps == [] || (WithinPromise(s, steps[0], m) && Promised(g, Do(g, s, steps[0]), steps[1..], m))
  }

  // ----- Reserved space

  /** The reservation of `MAXOPBLOCKS` blocks each, less what the operations already logged. */
  ghost function Unspent(a: seq<Active>): int {
    if a == [] then 0 else Unspent(a[..|a| - 1]) + MAXOPBLOCKS - |a[|a| - 1].blocks|
  }

  lemma {:induction false} UnspentConcat(a: seq<Active>, b: seq<Active>)
    ensures Unspent(a + b) == Unspent(a) + Unspent(b)
  {
    if b == [] {
      assert a + b == a;
    } else {
      UnspentConcat(a, b[..|b| - 1]);
      assert (a + b)[..|a + b| - 1] == a + b[..|b| - 1];
    }
  }

  lemma UnspentSplit(a: seq<Active>, i: nat)
    requires i < |a|
    ensures Unspent(a) == Unspent(a[..i]) + MAXOPBLOCKS - |a[i].blocks| + Unspent(a[i + 1..])
  {
    hide Unspent;
    assert a == a[..i] + ([a[i]] + a[i + 1..]);
    UnspentConcat(a[..i], [a[i]] + a[i + 1..]);
    UnspentConcat([a[i]], a[i + 1..]);
    UnspentOne(a[i]);
  }

  lemma UnspentOne(x: Active)
    ensures Unspent([x]) == MAXOPBLOCKS - |x.blocks|
  {
    assert [x][..0] == [];
  }

  lemma UnspentUpdate(a: seq<Active>, i: nat, x: Active)
    requires i < |a|
    ensures Unspent(a[i := x]) == Unspent(a) + |a[i].blocks| - |x.blocks|
  {
    UnspentSplit(a, i);
    UnspentSplit(a[i := x], i);
    assert a[i := x][..i] == a[..i] && a[i := x][i + 1..] == a[i + 1..];
  }

  lemma UnspentRemove(a: seq<Active>, i: nat)
    requires i < |a|
    ensures Unspent(a[..i] + a[i + 1..]) == Unspent(a) - MAXOPBLOCKS + |a[i].blocks|
  {
    UnspentSplit(a, i);
    UnspentConcat(a[..i], a[i + 1..]);
  }

  lemma {:induction false} UnspentBounds(a: seq<Active>)
    requires forall i | 0 <= i < |a| :: |a[i].blocks| <= MAXOPBLOCKS
    ensures 0 <= Unspent(a) <= |a| * MAXOPBLOCKS
  {
    if a != [] {
      UnspentBounds(a[..|a| - 1]);
    }
  }

  lemma UnspentCovers(a: seq<Active>, i: nat)
    requires i < |a| && forall j | 0 <= j < |a| :: |a[j].blocks| <= MAXOPBLOCKS
    ensures MAXOPBLOCKS - |a[i].blocks| <= Unspent(a)
  {
    UnspentSplit(a, i);
    UnspentBounds(a[..i]);
    UnspentBounds(a[i + 1..]);
  }

  // ----- The reservations hold in every such run

  ghost predicate SmallOp(a: Active, lh: seq<nat>, m: nat) {
    && |a.blocks| <= m && a.blocks <= Members(lh)
    && (a.call.Checked? ==> |a.blocks + {a.call.block}| <= m)
  }

  ghost predicate Distinct(lh: seq<nat>) {
    forall i, j | 0 <= i < j < |lh| :: lh[i] != lh[j]
  }

  /** What is listed and what is still reserved fit together, whatever the size of the area. */
  ghost predicate SpaceOk(s: Sys, m: nat) {
    && s.outstanding == |s.active| && Distinct(s.lh)
    && (s.committing || s.mode.Recovering? ==> s.active == [])
    && (s.mode.Recovering? ==> !s.committing)
    && (s.mode.Up? ==> |s.lh| + Unspent(s.active) <= LOGSIZE)
    && forall i | 0 <= i < |s.active| :: SmallOp(s.active[i], s.lh, m)
  }

  lemma BeginSpace(s: Sys, op: Op, m: nat)
    requires SpaceOk(s, m) && s.mode.Up? && MayBegin(|s.lh|, s.outstanding, s.committing) && m <= MAXOPBLOCKS
    ensures SpaceOk(DoBegin(s, op), m)
  {
    var t := DoBegin(s, op);
    assert t.active[..|s.active|] == s.active;
    forall i | 0 <= i < |s.active| ensures |s.active[i].blocks| <= MAXOPBLOCKS {
      assert SmallOp(s.active[i], s.lh, m);
    }
    UnspentBounds(s.active);
    forall i | 0 <= i < |t.active| ensures SmallOp(t.active[i], t.lh, m) {
      assert i < |s.active| ==> SmallOp(s.active[i], s.lh, m);
    }
  }

  lemma CheckSpace(s: Sys, i: nat, b: nat, data: Block, m: nat)
    requires SpaceOk(s, m) && i < |s.active| && |s.active[i].blocks + {b}| <= m
    ensures SpaceOk(s.(active := s.active[i := s.active[i].(call := Checked(b, data))]), m)
  {
    var t := s.(active := s.active[i := s.active[i].(call := Checked(b, data))]);
    UnspentUpdate(s.active, i, t.active[i]);
    forall k | 0 <= k < |t.active| ensures SmallOp(t.active[k], t.lh, m) {
      assert SmallOp(s.active[k], s.lh, m);
    }
  }

  /** Recording a block spends at most one unit of its operation's reservation, although the capacity test ran
      before the lock was taken. */
  lemma RecordSpace(s: Sys, i: nat, m: nat)
    requires SpaceOk(s, m) && s.mode.Up? && i < |s.active| && s.active[i].call.Checked? && m <= MAXOPBLOCKS
    ensures SpaceOk(DoRecord(s, i), m)
  {
    var t, b := DoRecord(s, i), s.active[i].call.block;
    assert SmallOp(s.active[i], s.lh, m);
    UnspentUpdate(s.active, i, t.active[i]);
    assert b !in s.lh ==> b !in s.active[i].blocks;
    forall k | 0 <= k < |t.active| ensures SmallOp(t.active[k], t.lh, m) {
      assert SmallOp(s.active[k], s.lh, m);
    }
  }

  lemma EndSpace(s: Sys, i: nat, m: nat)
    requires SpaceOk(s, m) && s.mode.Up? && i < |s.active| && s.outstanding > 0 && m <= MAXOPBLOCKS
    ensures SpaceOk(DoEnd(s, i), m)
  {
    hide Cached;
    var t := DoEnd(s, i);
    UnspentRemove(s.active, i);
    assert SmallOp(s.active[i], s.lh, m);
    forall k | 0 <= k < |t.active| ensures SmallOp(t.active[k], t.lh, m) {
      assert SmallOp(s.active[if k < i then k else k + 1], s.lh, m);
    }
  }

  lemma StepSpace(g: Geometry, s: Sys, step: Step, m: nat)
    requires SpaceOk(s, m) && Enabled(g, s, step) && WithinPromise(s, step, m) && m <= MAXOPBLOCKS
    ensures SpaceOk(Do(g, s, step), m)
  {
    hide NextCommitWrite, NextRecoverWrite, WriteOne, Cached, Absorb;
    match step
    case Begin(op) => BeginSpace(s, op, m);
    case Check(i, b, data) => CheckSpace(s, i, b, data, m);
    case Record(i) => RecordSpace(s, i, m);
    case End(i) => EndSpace(s, i, m);
    case Crash => assert g.Targets(Head(g, s.disk));
    case _ =>
  }

  lemma {:induction false} RunSpace(g: Geometry, s: Sys, steps: seq<Step>, m: nat)
    requires SpaceOk(s, m) && Legal(g, s, steps) && Promised(g, s, steps, m) && m <= MAXOPBLOCKS
    ensures SpaceOk(Exec(g, s, steps), m)
    decreases |steps|
  {
    hide Do, Enabled, SpaceOk, WithinPromise;
    if steps != [] {
      StepSpace(g, s, steps[0], m);
      RunSpace(g, Do(g, s, steps[0]), steps[1..], m);
    }
  }

  lemma BootSpace(g: Geometry, init: Disk, m: nat)
    requires DiskOk(g, init)
    ensures SpaceOk(Boot(g, init), m)
  {
    assert g.Targets(Head(g, init));
  }

  /** If operations log at most MAXOPBLOCKS distinct blocks each, then whatever the area the listed blocks and all
      unspent reservations together stay within LOGSIZE, and the listed block numbers stay distinct. */
  lemma ReservationsHold(g: Geometry, init: Disk, steps: seq<Step>)
    requires DiskOk(g, init) && Legal(g, Boot(g, init), steps) && Promised(g, Boot(g, init), steps, MAXOPBLOCKS)
    ensures var s := Exec(g, Boot(g, init), steps);
            s.mode.Up? ==> |s.lh| + Unspent(s.active) <= LOGSIZE && Distinct(s.lh)
  {
    BootSpace(g, init, MAXOPBLOCKS);
    RunSpace(g, Boot(g, init), steps, MAXOPBLOCKS);
  }

  /** How much room an operation's reservation leaves in the list. */
  lemma RoomFor(s: Sys, i: nat, m: nat)
    requires SpaceOk(s, m) && s.mode.Up? && i < |s.active| && m <= MAXOPBLOCKS
    ensures |s.lh| + MAXOPBLOCKS - |s.active[i].blocks| <= LOGSIZE
  {
    forall k | 0 <= k < |s.active| ensures |s.active[k].blocks| <= MAXOPBLOCKS {
      assert SmallOp(s.active[k], s.lh, m);
    }
    UnspentCovers(s.active, i);
  }

  lemma ListBound(s: Sys, m: nat)
    requires SpaceOk(s, m) && s.mode.Up? && m <= MAXOPBLOCKS
    ensures |s.lh| <= LOGSIZE
  {
    forall k | 0 <= k < |s.active| ensures |s.active[k].blocks| <= MAXOPBLOCKS {
      assert SmallOp(s.active[k], s.lh, m);
    }
    UnspentBounds(s.active);
  }

  // ----- Building runs

  lemma {:induction false} RunConcat(g: Geometry, s: Sys, xs: seq<Step>, ys: seq<Step>, m: nat)
    requires Legal(g, s, xs) && Promised(g, s, xs, m)
    requires Legal(g, Exec(g, s, xs), ys) && Promised(g, Exec(g, s, xs), ys, m)
    ensures Legal(g, s, xs + ys) && Promised(g, s, xs + ys, m) && Exec(g, s, xs + ys) == Exec(g, Exec(g, s, xs), ys)
    decreases |xs|
  {
    hide Do, Enabled, WithinPromise;
    if xs == [] {
      assert xs + ys == ys;
    } else {
      RunConcat(g, Do(g, s, xs[0]), xs[1..], ys, m);
      assert (xs + ys)[0] == xs[0] && (xs + ys)[1..] == xs[1..] + ys;
    }
  }

  lemma RunOne(g: Geometry, s: Sys, xs: seq<Step>, step: Step, m: nat)
    requires Legal(g, s, xs) && Promised(g, s, xs, m) && Enabled(g, Exec(g, s, xs), step)
    requires WithinPromise(Exec(g, s, xs), step, m)
    ensures Legal(g, s, xs + [step]) && Promised(g, s, xs + [step], m)
    ensures Exec(g, s, xs + [step]) == Do(g, Exec(g, s, xs), step)
  {
    hide Do, Enabled, WithinPromise;
    var t := Exec(g, s, xs);
    assert [step][1..] == [];
    assert Legal(g, Do(g, t, step), []) && Promised(g, Do(g, t, step), [], m);
    assert Legal(g, t, [step]) && Promised(g, t, [step], m);
    RunConcat(g, s, xs, [step], m);
  }

  /** A run after which three operations, each within its reservation, have logged the blocks `hs[..k]` in turn. */
  ghost predicate Filled(g: Geometry, init: Disk, xs: seq<Step>, hs: seq<nat>, k: nat)
    requires DiskOk(g, init)
  {
    && Legal(g, Boot(g, init), xs) && Promised(g, Boot(g, init), xs, MAXOPBLOCKS)
    && FilledState(Exec(g, Boot(g, init), xs), hs, k)
  }

  ghost predicate FilledState(s: Sys, hs: seq<nat>, k: nat) {
    && k <= |hs| && s.mode.Up? && !s.committing && s.lh == hs[..k]
    && |s.active| == 3
    && (k > 0 ==> hs[k - 1] in s.active[(k - 1) % 3].blocks)
    && forall i | 0 <= i < 3 :: s.active[i].call.Idle? && |s.active[i].blocks| <= (k + 2 - i) / 3
  }

  ghost predicate FreshHomes(g: Geometry, hs: seq<nat>) {
    && (forall i | 0 <= i < |hs| :: g.Home(hs[i]))
    && (forall i, j | 0 <= i < j < |hs| :: hs[i] != hs[j])
  }

  lemma MayCheck(g: Geometry, s: Sys, hs: seq<nat>, k: nat, i: nat, b: nat)
    requires FilledState(s, hs, k) && k < LOGSIZE && k < g.size - 1 && g.Home(b)
    requires i < 3 && (k + 2 - i) / 3 < MAXOPBLOCKS
    ensures Enabled(g, s, Check(i, b, [])) && WithinPromise(s, Check(i, b, []), MAXOPBLOCKS)
  {
    var a := s.active[i];
    assert |a.blocks + {b}| <= |a.blocks| + 1;
  }

  lemma RecordAdds(s: Sys, hs: seq<nat>, k: nat, i: nat)
    requires k < |hs| && s.lh == hs[..k] && i < |s.active| && s.active[i].call == Checked(hs[k], [])
    requires forall i, j | 0 <= i < j < |hs| :: hs[i] != hs[j]
    ensures DoRecord(s, i).lh == hs[..k + 1]
    ensures hs[k] in DoRecord(s, i).active[i].blocks
    ensures |DoRecord(s, i).active[i].blocks| <= |s.active[i].blocks| + 1
  {
    assert hs[k] !in hs[..k];
    assert hs[..k + 1] == hs[..k] + [hs[k]];
  }

  lemma FillOne(g: Geometry, init: Disk, xs: seq<Step>, hs: seq<nat>, k: nat) returns (ys: seq<Step>)
    requires DiskOk(g, init) && Filled(g, init, xs, hs, k) && FreshHomes(g, hs)
    requires k < |hs| && k < LOGSIZE && k < g.size - 1
    ensures Filled(g, init, ys, hs, k + 1)
  {
    hide Legal, Exec, Absorb, Promised, Boot;
    var s, i := Exec(g, Boot(g, init), xs), k % 3;
    var check := Check(i, hs[k], []);
    MayCheck(g, s, hs, k, i, hs[k]);
    RunOne(g, Boot(g, init), xs, check, MAXOPBLOCKS);
    var t := Do(g, s, check);
    RecordAdds(t, hs, k, i);
    RunOne(g, Boot(g, init), xs + [check], Record(i), MAXOPBLOCKS);
    ys := xs + [check] + [Record(i)];
  }

  lemma {:induction false} FillTo(g: Geometry, init: Disk, hs: seq<nat>, k: nat) returns (ys: seq<Step>)
    requires DiskOk(g, init) && Head(g, init) == [] && FreshHomes(g, hs)
    requires k <= |hs| && k <= LOGSIZE && k < g.size
    ensures Filled(g, init, ys, hs, k)
    decreases k
  {
    if k == 0 {
      ys := StartThree(g, init, hs);
    } else {
      var xs := FillTo(g, init, hs, k - 1);
      ys := FillOne(g, init, xs, hs, k - 1);
    }
  }

  /** A run that boots and lets `n` operations in. */
  ghost predicate Started(g: Geometry, init: Disk, xs: seq<Step>, n: nat)
    requires DiskOk(g, init)
  {
    && Legal(g, Boot(g, init), xs) && Promised(g, Boot(g, init), xs, MAXOPBLOCKS)
    && var s := Exec(g, Boot(g, init), xs);
       && s.mode.Up? && !s.committing && s.lh == [] && s.outstanding == n && |s.active| == n
       && s.committed == {} && s.lost == {} && (forall op | op in s.current :: op < n)
       && forall i | 0 <= i < n :: s.active[i].call.Idle? && s.active[i].blocks == {}
  }

  lemma BootUp(g: Geometry, init: Disk) returns (ys: seq<Step>)
    requires DiskOk(g, init) && Head(g, init) == []
    ensures Started(g, init, ys, 0)
  {
    hide EncodeHead, Apply, Promised, Legal, Exec;
    var s := Boot(g, init);
    RunNone(g, s);
    RunOne(g, s, [], RecoverWrite, MAXOPBLOCKS);
    RunOne(g, s, [] + [RecoverWrite], RecoverDone, MAXOPBLOCKS);
    ys := [] + [RecoverWrite] + [RecoverDone];
  }

  lemma RunNone(g: Geometry, s: Sys)
    ensures Legal(g, s, []) && Promised(g, s, [], MAXOPBLOCKS) && Exec(g, s, []) == s
  {
  }

  lemma LetIn(g: Geometry, init: Disk, xs: seq<Step>, n: nat) returns (ys: seq<Step>)
    requires DiskOk(g, init) && Started(g, init, xs, n) && n < 3
    ensures Started(g, init, ys, n + 1)
  {
    hide Promised, Legal, Exec, Boot;
    RunOne(g, Boot(g, init), xs, Begin(n), MAXOPBLOCKS);
    ys := xs + [Begin(n)];
  }

  lemma StartThree(g: Geometry, init: Disk, hs: seq<nat>) returns (ys: seq<Step>)
    requires DiskOk(g, init) && Head(g, init) == []
    ensures Filled(g, init, ys, hs, 0)
  {
    hide Promised, Legal, Exec, Boot;
    ys := BootUp(g, init);
    ys := LetIn(g, init, ys, 0);
    ys := LetIn(g, init, ys, 1);
    ys := LetIn(g, init, ys, 2);
  }

  // ----- When the list fits its area

  /**
   With an area of 2 to LOGSIZE blocks (mkfs makes one of LOGSIZE), two operations can pass the unlocked
   capacity test together and list one block more than the area holds, although every operation keeps its
   promise: the blocks of the next commit then run past the log area.
   */
  lemma SmallLogOverflows(g: Geometry, init: Disk, hs: seq<nat>) returns (steps: seq<Step>)
    requires DiskOk(g, init) && Head(g, init) == [] && FreshHomes(g, hs)
    requires 2 <= g.size <= LOGSIZE && |hs| == g.size
    ensures Legal(g, Boot(g, init), steps) && Promised(g, Boot(g, init), steps, MAXOPBLOCKS)
    ensures Exec(g, Boot(g, init), steps).mode.Up? && |Exec(g, Boot(g, init), steps).lh| == g.size
  {
    hide Legal, Exec, Boot, Promised;
    var k := g.size - 2;
    steps := FillTo(g, init, hs, k);
    steps := CheckTwo(g, init, steps, hs, k);
    steps := RecordTwo(g, init, steps, hs, k);
  }

  /** Two operations are past the capacity test with the blocks `hs[k]` and `hs[k + 1]`. */
  ghost predicate TwoChecked(g: Geometry, init: Disk, xs: seq<Step>, hs: seq<nat>, k: nat)
    requires DiskOk(g, init)
  {
    && Legal(g, Boot(g, init), xs) && Promised(g, Boot(g, init), xs, MAXOPBLOCKS)
    && var s := Exec(g, Boot(g, init), xs);
       && k + 2 <= |hs| && s.mode.Up? && s.lh == hs[..k] && |s.active| == 3
       && s.active[k % 3].call == Checked(hs[k], [])
       && s.active[(k + 1) % 3].call == Checked(hs[k + 1], [])
  }

  lemma CheckTwo(g: Geometry, init: Disk, xs: seq<Step>, hs: seq<nat>, k: nat) returns (ys: seq<Step>)
    requires DiskOk(g, init) && Filled(g, init, xs, hs, k) && FreshHomes(g, hs)
    requires k + 2 <= |hs| && k + 1 < LOGSIZE && k < g.size - 1
    ensures TwoChecked(g, init, ys, hs, k)
  {
    hide Legal, Exec, Promised, Boot;
    var start := Boot(g, init);
    var s, i, j := Exec(g, start, xs), k % 3, (k + 1) % 3;
    var one, two := Check(i, hs[k], []), Check(j, hs[k + 1], []);
    MayCheck(g, s, hs, k, i, hs[k]);
    RunOne(g, start, xs, one, MAXOPBLOCKS);
    MayCheck(g, s, hs, k, j, hs[k + 1]);
    RunOne(g, start, xs + [one], two, MAXOPBLOCKS);
    ys := xs + [one] + [two];
  }

  lemma RecordTwo(g: Geometry, init: Disk, xs: seq<Step>, hs: seq<nat>, k: nat) returns (ys: seq<Step>)
    requires DiskOk(g, init) && TwoChecked(g, init, xs, hs, k) && FreshHomes(g, hs)
    ensures Legal(g, Boot(g, init), ys) && Promised(g, Boot(g, init), ys, MAXOPBLOCKS)
    ensures Exec(g, Boot(g, init), ys).mode.Up? && Exec(g, Boot(g, init), ys).lh == hs[..k + 2]
  {
    hide Legal, Exec, Absorb, Promised, Boot;
    var start := Boot(g, init);
    var s, i, j := Exec(g, start, xs), k % 3, (k + 1) % 3;
    RecordAdds(s, hs, k, i);
    RunOne(g, start, xs, Record(i), MAXOPBLOCKS);
    RecordAdds(DoRecord(s, i), hs, k + 1, j);
    RunOne(g, start, xs + [Record(i)], Record(j), MAXOPBLOCKS);
    ys := xs + [Record(i)] + [Record(j)];
  }

  /** In every run of operations that keep their promise the list is smaller than the area. */
  ghost predicate AlwaysFits(g: Geometry, init: Disk)
    requires DiskOk(g, init)
  {
    forall steps | Legal(g, Boot(g, init), steps) && Promised(g, Boot(g, init), steps, MAXOPBLOCKS) ::
      Exec(g, Boot(g, init), steps).mode.Up? ==> |Exec(g, Boot(g, init), steps).lh| < g.size
  }

  /** The exact condition on the superblock: the list always fits its area if and only if `nlog > LOGSIZE`. */
  lemma LogFitsIff(g: Geometry, init: Disk, hs: seq<nat>)
    requires DiskOk(g, init) && Head(g, init) == [] && g.size >= 2
    requires FreshHomes(g, hs) && |hs| >= g.size
    ensures AlwaysFits(g, init) <==> g.size > LOGSIZE
  {
    hide Legal, Exec, Promised, Boot;
    if g.size > LOGSIZE {
      forall steps | Legal(g, Boot(g, init), steps) && Promised(g, Boot(g, init), steps, MAXOPBLOCKS)
        ensures Exec(g, Boot(g, init), steps).mode.Up? ==> |Exec(g, Boot(g, init), steps).lh| < g.size
      {
        BootSpace(g, init, MAXOPBLOCKS);
        RunSpace(g, Boot(g, init), steps, MAXOPBLOCKS);
        if Exec(g, Boot(g, init), steps).mode.Up? {
          ListBound(Exec(g, Boot(g, init), steps), MAXOPBLOCKS);
        }
      }
    } else {
      var steps := SmallLogOverflows(g, init, hs[..g.size]);
    }
  }

  /** A large area has room in every run of operations that keep their promise, so such runs are crash safe. */
  lemma {:induction false} LargeIsRoomy(g: Geometry, s: Sys, steps: seq<Step>)
    requires SpaceOk(s, MAXOPBLOCKS) && Legal(g, s, steps) && Promised(g, s, steps, MAXOPBLOCKS) && g.size > LOGSIZE
    ensures Roomy(g, s, steps)
    decreases |steps|
  {
    hide Do, Enabled, SpaceOk, WithinPromise, HasRoom;
    if steps != [] {
      StepSpace(g, s, steps[0], MAXOPBLOCKS);
      StepHasRoom(g, s, steps[0]);
      LargeIsRoomy(g, Do(g, s, steps[0]), steps[1..]);
    }
  }

  /** With an area above LOGSIZE, every run of operations that keep their promise is crash safe. */
  lemma PromisedIsCrashSafe(g: Geometry, init: Disk, steps: seq<Step>)
    requires DiskOk(g, init) && Legal(g, Boot(g, init), steps) && Promised(g, Boot(g, init), steps, MAXOPBLOCKS)
    requires g.size > LOGSIZE
    ensures CrashSafe(g, init, Exec(g, Boot(g, init), steps))
  {
    hide Legal, Exec, Promised, Boot, Roomy, CrashSafe;
    BootSpace(g, init, MAXOPBLOCKS);
    LargeIsRoomy(g, Boot(g, init), steps);
    EveryCrashIsSafe(g, init, steps);
  }

  lemma StepHasRoom(g: Geometry, s: Sys, step: Step)
    requires Enabled(g, s, step) && SpaceOk(Do(g, s, step), MAXOPBLOCKS) && g.size > LOGSIZE
    ensures HasRoom(g, s, step)
  {
    hide SpaceOk;
    if step.Record? {
      ListBound(Do(g, s, step), MAXOPBLOCKS);
    }
  }

  // ----- When log_write refuses a block

  /** The operation is about to log, and within its reservation may log a block it has not logged yet. */
  ghost predicate MayLogMore(a: Active) {
    a.call.Idle? && |a.blocks| < MAXOPBLOCKS
  }

  /** No run of operations that keep their promise refuses a block that its operation may still log. */
  ghost predicate NeverRefuses(g: Geometry, init: Disk)
    requires DiskOk(g, init)
  {
    forall steps | Legal(g, Boot(g, init), steps) && Promised(g, Boot(g, init), steps, MAXOPBLOCKS) ::
      NoneRefused(g, Exec(g, Boot(g, init), steps))
  }

  ghost predicate NoneRefused(g: Geometry, s: Sys) {
    s.mode.Up? && (exists i :: 0 <= i < |s.active| && MayLogMore(s.active[i])) ==> !TooBig(|s.lh|, g.size)
  }

  /** Reservations protect operations from "too big a transaction" if and only if `nlog > LOGSIZE`. */
  lemma NeverRefusesIff(g: Geometry, init: Disk, hs: seq<nat>)
    requires DiskOk(g, init) && Head(g, init) == [] && g.size >= 1
    requires FreshHomes(g, hs) && |hs| >= g.size
    ensures NeverRefuses(g, init) <==> g.size > LOGSIZE
  {
    hide Legal, Exec, Promised, Boot;
    if g.size > LOGSIZE {
      forall steps | Legal(g, Boot(g, init), steps) && Promised(g, Boot(g, init), steps, MAXOPBLOCKS)
        ensures NoneRefused(g, Exec(g, Boot(g, init), steps))
      {
        BootSpace(g, init, MAXOPBLOCKS);
        RunSpace(g, Boot(g, init), steps, MAXOPBLOCKS);
        RoomIsGranted(g, Exec(g, Boot(g, init), steps));
      }
    } else {
      var steps := FillTo(g, init, hs, g.size - 1);
      var s := Exec(g, Boot(g, init), steps);
      assert MayLogMore(s.active[2]);
      assert !NoneRefused(g, s);
    }
  }

  lemma RoomIsGranted(g: Geometry, s: Sys)
    requires SpaceOk(s, MAXOPBLOCKS) && g.size > LOGSIZE
    ensures NoneRefused(g, s)
  {
    if i :| s.mode.Up? && 0 <= i < |s.active| && MayLogMore(s.active[i]) {
      RoomFor(s, i, MAXOPBLOCKS);
    }
  }

  /** In every run of operations that log at most `m` blocks each, a block that its operation has already logged
      is never refused. */
  ghost predicate NeverRefusesRelogging(g: Geometry, init: Disk, m: nat)
    requires DiskOk(g, init)
  {
    forall steps | Legal(g, Boot(g, init), steps) && Promised(g, Boot(g, init), steps, m) ::
      NoRelogRefused(g, Exec(g, Boot(g, init), steps))
  }

  ghost predicate NoRelogRefused(g: Geometry, s: Sys) {
    s.mode.Up? && (exists i :: 0 <= i < |s.active| && HasLogged(s.active[i])) ==> !TooBig(|s.lh|, g.size)
  }

  ghost predicate HasLogged(a: Active) {
    a.call.Idle? && a.blocks != {}
  }

  /** The capacity test comes before the search of the list.  So with a large area, logging a block again is safe
      if and only if operations leave at least one block of their reservation unused. */
  lemma RelogSafeIff(g: Geometry, init: Disk, hs: seq<nat>, m: nat)
    requires DiskOk(g, init) && Head(g, init) == [] && g.size > LOGSIZE && m <= MAXOPBLOCKS
    requires FreshHomes(g, hs) && |hs| == LOGSIZE
    ensures NeverRefusesRelogging(g, init, m) <==> m < MAXOPBLOCKS
  {
    hide Legal, Exec, Promised, Boot;
    if m < MAXOPBLOCKS {
      forall steps | Legal(g, Boot(g, init), steps) && Promised(g, Boot(g, init), steps, m)
        ensures NoRelogRefused(g, Exec(g, Boot(g, init), steps))
      {
        BootSpace(g, init, m);
        RunSpace(g, Boot(g, init), steps, m);
        SpareIsGranted(g, Exec(g, Boot(g, init), steps), m);
      }
    } else {
      var steps := FillTo(g, init, hs, LOGSIZE);
      var s := Exec(g, Boot(g, init), steps);
      assert hs[LOGSIZE - 1] in s.active[(LOGSIZE - 1) % 3].blocks;
      assert HasLogged(s.active[(LOGSIZE - 1) % 3]);
      assert !NoRelogRefused(g, s);
    }
  }

  lemma SpareIsGranted(g: Geometry, s: Sys, m: nat)
    requires SpaceOk(s, m) && g.size > LOGSIZE && m < MAXOPBLOCKS
    ensures NoRelogRefused(g, s)
  {
    if i :| s.mode.Up? && 0 <= i < |s.active| && HasLogged(s.active[i]) {
      assert SmallOp(s.active[i], s.lh, m);
      RoomFor(s, i, m);
    }
  }

  /** State by state: a large area refuses exactly when LOGSIZE blocks are listed, and then every operation has
      spent its whole reservation. */
  lemma RefusedIff(g: Geometry, init: Disk, steps: seq<Step>, i: nat)
    requires DiskOk(g, init) && Legal(g, Boot(g, init), steps) && Promised(g, Boot(g, init), steps, MAXOPBLOCKS)
    requires g.size > LOGSIZE && Exec(g, Boot(g, init), steps).mode.Up? && i < |Exec(g, Boot(g, init), steps).active|
    ensures var s := Exec(g, Boot(g, init), steps);
            && (TooBig(|s.lh|, g.size) <==> |s.lh| == LOGSIZE)
            && (TooBig(|s.lh|, g.size) ==> |s.active[i].blocks| == MAXOPBLOCKS)
  {
    hide Legal, Exec, Promised, Boot;
    var s := Exec(g, Boot(g, init), steps);
    BootSpace(g, init, MAXOPBLOCKS);
    RunSpace(g, Boot(g, init), steps, MAXOPBLOCKS);
    ListBound(s, MAXOPBLOCKS);
    RoomFor(s, i, MAXOPBLOCKS);
    assert SmallOp(s.active[i], s.lh, MAXOPBLOCKS);
  }
}
