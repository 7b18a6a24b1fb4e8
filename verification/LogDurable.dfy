/**
 Progress of the log: a commit that has started can be carried through, and so can a recovery.
 The last end_op makes every operation so far durable, and what is durable stays so.
 */
module LogDurable {
  import opened Params
  import opened LogDisk
  import opened LogCode
  import opened LogSystem

  function Times(step: Step, n: nat): (r: seq<Step>)
    ensures |r| == n
  {
    if n == 0 then [] else [step] + Times(step, n - 1)
  }

  /** What commit does with `n` listed blocks: log blocks, header, home blocks and empty header, unless there is nothing
      to write. */
  function CommitSteps(n: nat): seq<Step> {
    Times(CommitWrite, if n == 0 then 0 else 2 * n + 2) + [CommitDone]
  }

  function RecoverySteps(n: nat): seq<Step> {
    Times(RecoverWrite, n + 1) + [RecoverDone]
  }

  lemma {:induction false} RunOn(g: Geometry, s: Sys, xs: seq<Step>, ys: seq<Step>)
    requires Legal(g, s, xs) && Legal(g, Exec(g, s, xs), ys)
    ensures Legal(g, s, xs + ys) && Exec(g, s, xs + ys) == Exec(g, Exec(g, s, xs), ys)
    decreases |xs|
  {
    hide Enabled, Do;
    if xs == [] {
      assert xs + ys == ys;
    } else {
      RunOn(g, Do(g, s, xs[0]), xs[1..], ys);
      assert (xs + ys)[1..] == xs[1..] + ys;
    }
  }

  lemma RunStep(g: Geometry, s: Sys, step: Step, rest: seq<Step>)
    requires Enabled(g, s, step) && Legal(g, Do(g, s, step), rest)
    ensures Legal(g, s, [step] + rest) && Exec(g, s, [step] + rest) == Exec(g, Do(g, s, step), rest)
  {
    hide Enabled, Do;
    assert ([step] + rest)[1..] == rest;
  }

  lemma RunSingle(g: Geometry, s: Sys, step: Step)
    requires Enabled(g, s, step)
    ensures Legal(g, s, [step]) && Exec(g, s, [step]) == Do(g, s, step)
  {
    hide Enabled, Do;
    RunStep(g, s, step, []);
    assert [step] + [] == [step];
  }

  // ----- Carrying a commit through

  /** `t` is `s` after its commit, but for the end of the commit itself. */
  ghost predicate Settled(s: Sys, t: Sys) {
    && t.mode.Up? && t.committing && t.lh == [] && t.active == []
    && t.current == {} && t.committed == Live(s) && t.lost == s.lost && t.trace == s.trace
  }

  lemma WriteIsEnabled(g: Geometry, init: Disk, s: Sys)
    requires Inv(g, init, s) && s.mode.Up? && Writing(s)
    ensures Enabled(g, s, CommitWrite) && s.next <= 2 * |s.lh| + 1 && s.active == []
    ensures s.next > |s.lh| ==> s.current == {}
  {
    hide Expected, WritingOk, PinnedOk, NextCommitWrite;
    NextWriteAgrees(g, s);
    NextBound(g, s);
  }

  lemma NextBound(g: Geometry, s: Sys)
    requires WritingOk(g, s.disk, s.lh, s.base, s.content, s.next)
    ensures s.next <= 2 * |s.lh| + 1
  {
  }

  lemma {:induction false} CommitRuns(g: Geometry, init: Disk, s: Sys)
    requires Inv(g, init, s) && s.mode.Up? && Writing(s) && s.next <= 2 * |s.lh| + 1
    ensures var xs := Times(CommitWrite, 2 * |s.lh| + 2 - s.next);
            && Legal(g, s, xs) && Settled(s, Exec(g, s, xs)) && Inv(g, init, Exec(g, s, xs))
    decreases 2 * |s.lh| + 2 - s.next
  {
    hide Inv, NextCommitWrite, WriteOne, HeaderReadable;
    WriteIsEnabled(g, init, s);
    CommitWriteKeeps(g, init, s);
    var t := DoCommitWrite(g, s);
    var xs := Times(CommitWrite, 2 * |s.lh| + 2 - s.next);
    assert xs == [CommitWrite] + xs[1..];
    if s.next == 2 * |s.lh| + 1 {
      assert Live(s) == s.committed;
      RunSingle(g, s, CommitWrite);
    } else {
      CommitRuns(g, init, t);
      assert Live(t) == Live(s);
      RunStep(g, s, CommitWrite, xs[1..]);
    }
  }

  /** Nobody is in an operation, nothing waits to be written, and all operations up to now are on disk. */
  ghost predicate AllDurable(g: Geometry, init: Disk, s: Sys, t: Sys)
    requires DiskOk(g, init)
  {
    && t.mode.Up? && !t.committing && t.lh == [] && t.active == []
    && t.trace == s.trace && t.lost == s.lost && Live(t) == Live(s)
    && (s.lh != [] ==> t.current == {} && t.committed == Live(s))
    && SameHome(g, t.disk, Expected(g, init, s, Live(s)))
    && DiskOk(g, t.disk) && SameHome(g, Recovered(g, t.disk), Expected(g, init, s, Live(s)))
    && forall op | op !in Live(s) + s.lost :: Enabled(g, t, Begin(op))
  }

  lemma NothingPinned(g: Geometry, init: Disk, s: Sys)
    requires Inv(g, init, s) && s.mode.Up? && s.lh == []
    ensures SameHome(g, s.disk, Expected(g, init, s, Live(s)))
    ensures DiskOk(g, s.disk) && SameHome(g, Recovered(g, s.disk), Expected(g, init, s, Live(s)))
  {
    hide Recovered, Replay, Only;
    assert Overlay(s.disk, s.dirty) == s.disk;
    EmptyLogRecovers(g, s.disk);
  }

  /** The end of a commit lets operations in again. */
  lemma CommitEnds(g: Geometry, init: Disk, s: Sys)
    requires Inv(g, init, s) && s.mode.Up? && s.committing && s.lh == []
    ensures Enabled(g, s, CommitDone)
    ensures var t := Do(g, s, CommitDone);
            && t == s.(committing := false) && t.active == [] && Inv(g, init, t)
            && forall op | op !in Live(s) + s.lost :: Enabled(g, t, Begin(op))
  {
    hide DiskRelation, HistoryOk, Expected;
    CommitDoneKeeps(g, init, s);
  }

  /** From the start of a commit to its end. */
  lemma CommitCarriesThrough(g: Geometry, init: Disk, s: Sys)
    requires DiskOk(g, init) && Inv(g, init, s) && s.mode.Up? && s.committing && (s.lh != [] ==> s.next == 0)
    ensures Legal(g, s, CommitSteps(|s.lh|)) && AllDurable(g, init, s, Exec(g, s, CommitSteps(|s.lh|)))
  {
    hide Inv, Legal, Exec, Recovered, Replay, Only, Enabled, Do;
    var xs := Times(CommitWrite, if |s.lh| == 0 then 0 else 2 * |s.lh| + 2);
    var m := s;
    if s.lh == [] {
      assert xs + [CommitDone] == [CommitDone];
    } else {
      CommitRuns(g, init, s);
      m := Exec(g, s, xs);
    }
    CommitEnds(g, init, m);
    var t := Do(g, m, CommitDone);
    NothingPinned(g, init, t);
    RunSingle(g, m, CommitDone);
    assert Live(t) == Live(s);
    assert Expected(g, init, t, Live(t)) == Expected(g, init, s, Live(s));
    if s.lh != [] {
      RunOn(g, s, xs, [CommitDone]);
    }
  }

  lemma LastEndCommits(g: Geometry, init: Disk, s: Sys)
    requires Inv(g, init, s) && s.mode.Up? && |s.active| == 1 && s.active[0].call.Idle?
    ensures Enabled(g, s, End(0))
    ensures var t := Do(g, s, End(0));
            && t.mode.Up? && t.committing && t.next == 0 && t.active == [] && t.lh == s.lh
            && t.trace == s.trace && t.committed == s.committed && t.current == s.current && t.lost == s.lost
  {
    hide Expected, DiskRelation, HistoryOk, Cached;
  }

  // ----- Carrying a recovery through

  lemma RecoverIsEnabled(g: Geometry, init: Disk, s: Sys)
    requires Inv(g, init, s) && s.mode.Recovering? && s.next <= |s.lh|
    ensures Enabled(g, s, RecoverWrite)
  {
    hide Expected, RecoverWrites, Apply;
    RecoveryReadsSame(g, s.base, s.next);
    SameArea(g, s.disk, s.base, 0);
  }

  lemma RecoverBound(g: Geometry, init: Disk, s: Sys)
    requires Inv(g, init, s) && s.mode.Recovering?
    ensures s.next <= |s.lh| + 1 && s.current == {}
  {
  }

  /** All that a recovery changes is the disk and the list. */
  ghost predicate Recovers(s: Sys, t: Sys) {
    t == s.(disk := t.disk, next := t.next, lh := t.lh, mode := t.mode)
  }

  lemma {:induction false} RecoveryRuns(g: Geometry, init: Disk, s: Sys)
    requires Inv(g, init, s) && s.mode.Recovering? && s.next <= |s.lh| + 1
    ensures var xs := Times(RecoverWrite, |s.lh| + 1 - s.next);
            && Legal(g, s, xs) && Recovers(s, Exec(g, s, xs)) && Inv(g, init, Exec(g, s, xs))
            && Enabled(g, Exec(g, s, xs), RecoverDone)
    decreases |s.lh| + 1 - s.next
  {
    hide Inv, NextRecoverWrite, WriteOne, HeaderReadable;
    if s.next <= |s.lh| {
      RecoverIsEnabled(g, init, s);
      RecoverWriteKeeps(g, init, s);
      var xs := Times(RecoverWrite, |s.lh| + 1 - s.next);
      assert xs == [RecoverWrite] + xs[1..];
      RecoveryRuns(g, init, Do(g, s, RecoverWrite));
      RunStep(g, s, RecoverWrite, xs[1..]);
    }
  }

  /** Up again, with exactly the committed operations. */
  ghost predicate BackUp(g: Geometry, init: Disk, s: Sys, t: Sys)
    requires DiskOk(g, init)
  {
    && t.mode.Up? && !t.committing && t.lh == [] && t.active == [] && t.current == {}
    && t.trace == s.trace && t.committed == s.committed && t.lost == s.lost + s.current
    && SameHome(g, t.disk, Expected(g, init, s, s.committed))
    && forall op | op !in Live(s) + s.lost :: Enabled(g, t, Begin(op))
  }

  lemma RecoveryEnds(g: Geometry, init: Disk, s: Sys)
    requires DiskOk(g, init) && Inv(g, init, s) && Enabled(g, s, RecoverDone)
    ensures BackUp(g, init, s, Do(g, s, RecoverDone)) && Inv(g, init, Do(g, s, RecoverDone))
  {
    hide Recovered, Replay, Only;
    RecoverDoneKeeps(g, init, s);
    var t := Do(g, s, RecoverDone);
    assert Live(t) == s.committed;
    NothingPinned(g, init, t);
  }

  // ----- Main results

  /** When the only operation in progress ends, a commit starts at once, each of its steps can be taken in turn, and after
      them every operation that has begun since boot, but for those caught by a crash, is on disk and survives a crash.
      The next operation may begin. */
  lemma LastEndIsDurable(g: Geometry, init: Disk, steps: seq<Step>)
    requires DiskOk(g, init) && Legal(g, Boot(g, init), steps) && Roomy(g, Boot(g, init), steps)
    requires Exec(g, Boot(g, init), steps).mode.Up?
    requires var active := Exec(g, Boot(g, init), steps).active; |active| == 1 && active[0].call.Idle?
    ensures var s := Exec(g, Boot(g, init), steps);
            var rest := [End(0)] + CommitSteps(|s.lh|);
            Legal(g, s, rest) && AllDurable(g, init, s, Exec(g, s, rest))
  {
    hide Inv, Legal, Exec, Recovered, Replay, Only, Enabled, Do;
    BootInv(g, init);
    RunKeeps(g, init, Boot(g, init), steps);
    var s := Exec(g, Boot(g, init), steps);
    LastEndCommits(g, init, s);
    StepKeeps(g, init, s, End(0));
    var t := Do(g, s, End(0));
    CommitCarriesThrough(g, init, t);
    RunStep(g, s, End(0), CommitSteps(|s.lh|));
    assert Live(t) == Live(s);
  }

  /** After a crash in any state the recovery can be run to its end, which leaves exactly the writes of the committed
      operations and lets operations in again. */
  lemma CrashThenRecovery(g: Geometry, init: Disk, steps: seq<Step>)
    requires DiskOk(g, init) && Legal(g, Boot(g, init), steps) && Roomy(g, Boot(g, init), steps)
    ensures var s := Exec(g, Boot(g, init), steps);
            && DiskOk(g, s.disk)
            && var rest := [Crash] + RecoverySteps(|Head(g, s.disk)|);
               Legal(g, s, rest) && BackUp(g, init, s, Exec(g, s, rest))
  {
    hide Inv, Legal, Exec, Recovered, Replay, Only, Head;
    BootInv(g, init);
    RunKeeps(g, init, Boot(g, init), steps);
    var s := Exec(g, Boot(g, init), steps);
    CrashKeeps(g, init, s);
    assert Enabled(g, s, Crash);
    var t := Do(g, s, Crash);
    RecoveryRuns(g, init, t);
    var xs := Times(RecoverWrite, |t.lh| + 1);
    var m := Exec(g, t, xs);
    RecoveryEnds(g, init, m);
    RunSingle(g, m, RecoverDone);
    RunOn(g, t, xs, [RecoverDone]);
    RunStep(g, s, Crash, xs + [RecoverDone]);
  }

  lemma DurableStep(g: Geometry, s: Sys, step: Step)
    requires Enabled(g, s, step)
    ensures var t := Do(g, s, step); s.committed <= t.committed && s.trace <= t.trace
  {
    hide NextCommitWrite, NextRecoverWrite, WriteOne, Absorb, Cached, DiskOk, HeaderReadable;
  }

  /** What is durable stays durable, whatever happens. */
  lemma {:induction false} DurableStays(g: Geometry, s: Sys, steps: seq<Step>)
    requires Legal(g, s, steps)
    ensures var t := Exec(g, s, steps); s.committed <= t.committed && s.trace <= t.trace
    decreases |steps|
  {
    hide Enabled, Do;
    if steps != [] {
      DurableStep(g, s, steps[0]);
      DurableStays(g, Do(g, s, steps[0]), steps[1..]);
    }
  }
}
