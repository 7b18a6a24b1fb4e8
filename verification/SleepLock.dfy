/**
 One sleep-lock used by any number of processes (sleeplock.c over sleep and wakeup of proc.c), in
 steps as small as taking or releasing a spinlock.  Any process may also be killed, and may hold
 the process table's lock for reasons of its own, with or without the sleep-lock.
 */
module SleepLock {

  datatype Pc =
    | Out
    | Busy           // outside, holds the table's lock for something else
    // acquiresleep
    | Entering       // wants the inner spinlock
    | Testing        // holds it, about to test `locked`
    | Taken          // has set `locked`, still holds the spinlock
    // sleep
    | Dozing         // wants the table's lock
    | Handing        // holds both, about to release the inner one
    | Settling       // holds the table's lock, about to sleep
    | Asleep
    | Ready          // woken, not yet scheduled
    | Resumed        // scheduled, holds the table's lock
    // between acquiresleep and releasesleep
    | Holding
    | HoldingBusy    // holds the table's lock for something else
    // releasesleep
    | Leaving        // wants the inner spinlock
    | Clearing       // holds it, about to clear `locked`
    | Calling        // `locked` is clear; wants the table's lock for wakeup
    | Waking         // holds both, about to wake the sleepers
    | Woke           // about to release the table's lock
    | Done           // about to release the inner spinlock

  const NONE := -1

  /** The lock's fields and who holds the two spinlocks. */
  datatype Sys = Sys(pcs: seq<Pc>, inner: int, table: int, locked: bool, pid: int)

  datatype Step =
    | Acquire(p: nat)
    | Release(p: nat)
    | UseTable(p: nat)
    | Advance(p: nat)
    | Kill(p: nat)

  predicate HoldsInner(c: Pc) {
    (c.Testing? || c.Taken? || c.Dozing? || c.Handing? || c.Clearing? || c.Calling? || c.Waking? || c.Woke? || c.Done?)
  }

  predicate HoldsTable(c: Pc) {
    (c.Busy? || c.HoldingBusy? || c.Handing? || c.Settling? || c.Resumed? || c.Waking? || c.Woke?)
  }

  /** From setting `locked` until clearing it. */
  predicate Owns(c: Pc) {
    (c.Taken? || c.Holding? || c.HoldingBusy? || c.Leaving? || c.Clearing?)
  }

  function WakeAll(pcs: seq<Pc>): (r: seq<Pc>)
    ensures |r| == |pcs| && forall i | 0 <= i < |pcs| :: r[i] == if pcs[i].Asleep? then Ready else pcs[i]
  {
    seq(|pcs|, i requires 0 <= i < |pcs| => if pcs[i].Asleep? then Ready else pcs[i])
  }

  /** The process can go on: it is inside a call, not asleep, and the spinlock it wants is free. */
  predicate CanAdvance(s: Sys, p: nat) {
    && p < |s.pcs|
    && match s.pcs[p]
       case Out => false
       case Asleep => false
       case Holding => false
       case Entering => s.inner == NONE
       case Leaving => s.inner == NONE
       case Dozing => s.table == NONE
       case Ready => s.table == NONE
       case Calling => s.table == NONE
       case _ => true
  }

  function At(s: Sys, p: nat, c: Pc): Sys
    requires p < |s.pcs|
  {
    s.(pcs := s.pcs[p := c])
  }

  function Go(s: Sys, p: nat): Sys
    requires CanAdvance(s, p)
  {
    match s.pcs[p]
    case Busy => At(s, p, Out).(table := NONE)
    case HoldingBusy => At(s, p, Holding).(table := NONE)
    case Entering => At(s, p, Testing).(inner := p)
    case Testing => if s.locked then At(s, p, Dozing) else At(s, p, Taken).(locked := true, pid := p)
    case Taken => At(s, p, Holding).(inner := NONE)
    case Dozing => At(s, p, Handing).(table := p)
    case Handing => At(s, p, Settling).(inner := NONE)
    case Settling => At(s, p, Asleep).(table := NONE)
    case Ready => At(s, p, Resumed).(table := p)
    case Resumed => At(s, p, Entering).(table := NONE)
    case Leaving => At(s, p, Clearing).(inner := p)
    case Clearing => At(s, p, Calling).(locked := false, pid := NONE)
    case Calling => At(s, p, Waking).(table := p)
    case Waking => At(s, p, Woke).(pcs := WakeAll(s.pcs[p := Woke]))
    case Woke => At(s, p, Done).(table := NONE)
    case Done => At(s, p, Out).(inner := NONE)
  }

  ghost predicate Next(s: Sys, step: Step, s': Sys) {
    match step
    case Acquire(p) => p < |s.pcs| && s.pcs[p] == Out && s' == At(s, p, Entering)
    case Release(p) => p < |s.pcs| && s.pcs[p] == Holding && s' == At(s, p, Leaving)
    case UseTable(p) =>
      && p < |s.pcs| && (s.pcs[p] == Out || s.pcs[p] == Holding) && s.table == NONE
      && s' == At(s, p, if s.pcs[p] == Out then Busy else HoldingBusy).(table := p)
    case Advance(p) => CanAdvance(s, p) && s' == Go(s, p)
    case Kill(p) =>
      && p < |s.pcs| && s.table == NONE
      && s' == if s.pcs[p] == Asleep then At(s, p, Ready) else s
  }

  /** Some releaser has cleared `locked` and has yet to wake the sleepers; it holds the inner spinlock. */
  predicate WakeupDue(s: Sys) {
    0 <= s.inner < |s.pcs| && (s.pcs[s.inner].Calling? || s.pcs[s.inner].Waking?)
  }

  /** Where a process stands says which locks it holds. */
  ghost predicate LocksOk(s: Sys, p: nat)
    requires p < |s.pcs|
  {
    && (s.inner == p <==> HoldsInner(s.pcs[p]))
    && (s.table == p <==> HoldsTable(s.pcs[p]))
    && (Owns(s.pcs[p]) <==> s.locked && s.pid == p)
  }

  /** Nobody goes to sleep, or stays asleep, on a lock that is free with no wakeup to come. */
  ghost predicate SleepOk(s: Sys, p: nat)
    requires p < |s.pcs|
  {
    && (s.pcs[p].Dozing? || s.pcs[p].Handing? ==> s.locked)
    && (s.pcs[p].Settling? || s.pcs[p].Asleep? ==> s.locked || WakeupDue(s))
  }

  ghost predicate ProcOk(s: Sys, p: nat)
    requires p < |s.pcs|
  {
    LocksOk(s, p) && SleepOk(s, p)
  }

  ghost predicate Inv(s: Sys) {
    && NONE <= s.inner < |s.pcs| && NONE <= s.table < |s.pcs| && (s.locked ==> 0 <= s.pid < |s.pcs|)
    && forall p | 0 <= p < |s.pcs| :: ProcOk(s, p)
  }

  lemma GoOwnLocks(s: Sys, p: nat)
    requires CanAdvance(s, p) && LocksOk(s, p)
    ensures LocksOk(Go(s, p), p)
  {
    hide WakeAll;
    match s.pcs[p] {
      case Waking => assert Go(s, p).pcs[p] == Woke;
      case _ =>
    }
  }

  /** A process takes only free locks and releases only its own. */
  lemma GoTakesFree(s: Sys, p: nat)
    requires CanAdvance(s, p) && LocksOk(s, p)
    ensures var t := Go(s, p);
            && (t.inner == s.inner || (s.inner == NONE && t.inner == p) || (s.inner == p && t.inner == NONE))
            && (t.table == s.table || (s.table == NONE && t.table == p) || (s.table == p && t.table == NONE))
            && ((t.locked == s.locked && t.pid == s.pid) || (!s.locked && t.locked && t.pid == p) ||
                (s.locked && s.pid == p && !t.locked))
  {
  }

  lemma GoLeavesOthers(s: Sys, p: nat, q: nat)
    requires CanAdvance(s, p) && q < |s.pcs| && q != p
    ensures var t := Go(s, p); |t.pcs| == |s.pcs| && (t.pcs[q] == s.pcs[q] || (s.pcs[q].Asleep? && t.pcs[q].Ready?))
  {
  }

  lemma GoLocks(s: Sys, p: nat, q: nat)
    requires CanAdvance(s, p) && q < |s.pcs| && LocksOk(s, p) && LocksOk(s, q)
    ensures LocksOk(Go(s, p), q)
  {
    hide Go;
    if p == q {
      GoOwnLocks(s, p);
    } else {
      GoTakesFree(s, p);
      GoLeavesOthers(s, p, q);
    }
  }

  lemma GoSleeps(s: Sys, p: nat, q: nat)
    requires CanAdvance(s, p) && q < |s.pcs| && ProcOk(s, p) && ProcOk(s, q)
    ensures SleepOk(Go(s, p), q)
  {
  }

  lemma GoBounds(s: Sys, p: nat)
    requires CanAdvance(s, p)
    requires NONE <= s.inner < |s.pcs| && NONE <= s.table < |s.pcs| && (s.locked ==> 0 <= s.pid < |s.pcs|)
    ensures var t := Go(s, p);
            && |t.pcs| == |s.pcs| && NONE <= t.inner < |s.pcs| && NONE <= t.table < |s.pcs|
            && (t.locked ==> 0 <= t.pid < |s.pcs|)
  {
  }

  lemma OtherKeeps(s: Sys, step: Step, s': Sys, q: nat)
    requires Next(s, step, s') && !step.Advance? && q < |s.pcs| && ProcOk(s, step.p) && ProcOk(s, q)
    ensures |s'.pcs| == |s.pcs| && ProcOk(s', q)
  {
  }

  lemma StepKeeps(s: Sys, step: Step, s': Sys)
    requires Inv(s) && Next(s, step, s')
    ensures Inv(s')
  {
    hide ProcOk, LocksOk, SleepOk, Go, CanAdvance;
    assert ProcOk(s, step.p) by {
      assert step.p < |s.pcs| by {
        Actor(s, step, s');
      }
    }
    if step.Advance? {
      GoBounds(s, step.p);
      forall q | 0 <= q < |s'.pcs| ensures ProcOk(s', q) {
        ProcParts(s, step.p);
        ProcParts(s, q);
        GoLocks(s, step.p, q);
        GoSleeps(s, step.p, q);
        ProcParts(s', q);
      }
    } else {
      forall q | 0 <= q < |s'.pcs| ensures ProcOk(s', q) {
        OtherKeeps(s, step, s', q);
      }
    }
  }

  lemma ProcParts(s: Sys, p: nat)
    requires p < |s.pcs|
    ensures ProcOk(s, p) <==> LocksOk(s, p) && SleepOk(s, p)
  {
  }

  lemma Actor(s: Sys, step: Step, s': Sys)
    requires Next(s, step, s')
    ensures step.p < |s.pcs|
  {
  }

  // ----- Runs

  ghost predicate Run(states: seq<Sys>, steps: seq<Step>) {
    && |states| == |steps| + 1
    && (states[0].inner == NONE && states[0].table == NONE && !states[0].locked)
    && (forall p | 0 <= p < |states[0].pcs| :: states[0].pcs[p] == Out)
    && forall k | 0 <= k < |steps| :: Next(states[k], steps[k], states[k + 1])
  }

  lemma {:induction false} RunKeeps(states: seq<Sys>, steps: seq<Step>, k: nat)
    requires Run(states, steps) && k < |states|
    ensures Inv(states[k])
  {
    if k > 0 {
      RunKeeps(states, steps, k - 1);
      StepKeeps(states[k - 1], steps[k - 1], states[k - 1 + 1]);
    }
  }

  /** At most one process is between taking the lock and clearing it, and `locked` says whether there is one. */
  lemma MutualExclusion(states: seq<Sys>, steps: seq<Step>, k: nat, p: nat, q: nat)
    requires Run(states, steps) && k < |states| && p < |states[k].pcs| && q < |states[k].pcs|
    requires Owns(states[k].pcs[p]) && Owns(states[k].pcs[q])
    ensures p == q && states[k].locked && states[k].pid == p
  {
    RunKeeps(states, steps, k);
    assert ProcOk(states[k], p) && ProcOk(states[k], q);
  }

  /** A process sleeps on an unlocked lock only while the one who unlocked it still holds the inner spinlock and has its
      wakeup ahead of it. */
  lemma NoLostWakeup(states: seq<Sys>, steps: seq<Step>, k: nat, p: nat)
    requires Run(states, steps) && k < |states| && p < |states[k].pcs| && states[k].pcs[p] == Asleep
    ensures states[k].locked || WakeupDue(states[k])
  {
    RunKeeps(states, steps, k);
    assert ProcOk(states[k], p);
  }

  /** The two spinlocks never deadlock: if nobody inside a call can go on, then every process is outside, holds the
      lock, or sleeps while another process holds it. */
  lemma StuckOnlyWhileHeld(states: seq<Sys>, steps: seq<Step>, k: nat, p: nat)
    requires Run(states, steps) && k < |states| && p < |states[k].pcs|
    requires forall q | 0 <= q < |states[k].pcs| :: !CanAdvance(states[k], q)
    ensures var s := states[k];
            || s.pcs[p] == Out || s.pcs[p] == Holding
            || (s.pcs[p] == Asleep && s.locked && 0 <= s.pid < |s.pcs| && s.pcs[s.pid] == Holding)
  {
    var s := states[k];
    RunKeeps(states, steps, k);
    assert ProcOk(s, p) && !CanAdvance(s, p);
    assert s.table != NONE ==> ProcOk(s, s.table) && !CanAdvance(s, s.table);
    assert s.inner != NONE ==> ProcOk(s, s.inner) && !CanAdvance(s, s.inner);
    assert s.locked ==> ProcOk(s, s.pid) && !CanAdvance(s, s.pid);
  }

  // ----- Progress

  /** `p` takes `n` steps in a row. */
  ghost predicate Goes(s: Sys, p: nat, n: nat, t: Sys)
    decreases n
  {
    if n == 0 then t == s else CanAdvance(s, p) && Goes(Go(s, p), p, n - 1, t)
  }

  /** A process that asks for a free lock gets it, without sleeping, if it is let run. */
  lemma FreeLockIsTaken(s: Sys, p: nat)
    requires p < |s.pcs| && s.pcs[p] == Entering && s.inner == NONE && !s.locked
    ensures Goes(s, p, 3, s.(pcs := s.pcs[p := Holding], locked := true, pid := p))
  {
    hide Goes;
    var t := Go(Go(Go(s, p), p), p);
    assert t.pcs == s.pcs[p := Holding];
    ThreeSteps(s, p, t);
  }

  lemma {:induction false} GoesOn(s: Sys, p: nat, n: nat, t: Sys, m: nat, u: Sys)
    requires Goes(s, p, n, t) && Goes(t, p, m, u)
    ensures Goes(s, p, n + m, u)
    decreases n
  {
    hide Go, CanAdvance;
    if n > 0 {
      GoesOn(Go(s, p), p, n - 1, t, m, u);
    }
  }

  lemma ThreeSteps(s: Sys, p: nat, t: Sys)
    requires CanAdvance(s, p) && CanAdvance(Go(s, p), p) && CanAdvance(Go(Go(s, p), p), p) && t == Go(Go(Go(s, p), p), p)
    ensures Goes(s, p, 3, t)
  {
    hide Go, CanAdvance;
    assert Goes(t, p, 0, t) && Goes(Go(Go(s, p), p), p, 1, t) && Goes(Go(s, p), p, 2, t);
  }

  /** A process that releases the lock leaves it free, with nobody asleep on it, if it is let run. */
  lemma ReleasedLockIsFree(s: Sys, p: nat)
    requires p < |s.pcs| && s.pcs[p] == Leaving && s.inner == NONE && s.table == NONE
    ensures Goes(s, p, 6, Sys(WakeAll(s.pcs[p := Out]), NONE, NONE, false, NONE))
  {
    hide Goes;
    var mid := Sys(s.pcs[p := Waking], p, p, false, NONE);
    assert Go(Go(Go(s, p), p), p).pcs == mid.pcs;
    ThreeSteps(s, p, mid);
    WakeAndLeave(mid, p);
    assert mid.pcs[p := Out] == s.pcs[p := Out];
    GoesOn(s, p, 3, mid, 3, Sys(WakeAll(s.pcs[p := Out]), NONE, NONE, false, NONE));
  }

  lemma WakeAndLeave(s: Sys, p: nat)
    requires p < |s.pcs| && s.pcs[p] == Waking && s.inner == p && s.table == p
    ensures Goes(s, p, 3, s.(pcs := WakeAll(s.pcs[p := Out]), inner := NONE, table := NONE))
  {
    hide Goes;
    var t := Go(Go(Go(s, p), p), p);
    assert t.pcs == WakeAll(s.pcs[p := Out]);
    ThreeSteps(s, p, t);
  }
}
