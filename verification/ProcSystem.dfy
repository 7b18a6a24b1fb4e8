/**
 Any number of processes forking, exiting, waiting, sleeping and being killed.  A step is one stay
 under the process table's lock, or one of the writes that fork makes without it.
 */
module ProcSystem {
  import opened Proc

  /** How far a process is with fork: it has claimed slot `np`, and then become its parent. */
  datatype Work = Idle | Copying(np: nat) | Parented(np: nat)

  datatype Sys = Sys(ps: seq<Proc>, work: seq<Work>, nextpid: int, init: nat)

  datatype Step =
    | Claims(p: nat)
    | Abandons(p: nat)           // no memory for the child
    | Fathers(p: nat)
    | Launches(p: nat)
    | Exits(p: nat)
    | WaitsOnce(p: nat, out: Outcome)
    | Sleeps(p: nat, id: nat)
    | Wakes(id: nat)
    | Kills(pid: int)
    | Dispatches(p: nat)
    | Yields(p: nat)

  predicate Alive(state: State) {
    state == SLEEPING || state == RUNNABLE || state == RUNNING
  }

  ghost predicate Runs(s: Sys, p: nat) {
    |s.work| == |s.ps| && p < |s.ps| && s.ps[p].state == RUNNING
  }

  ghost predicate Next(s: Sys, step: Step, s': Sys) {
    match step
    case Claims(p) =>
      && Runs(s, p) && s.work[p].Idle?
      && exists np ::
        && FirstUnused(s.ps, np)
        && s' == s.(ps := s.ps[np := Claim(s.ps[np], s.nextpid)], work := s.work[p := Copying(np)], nextpid := s.nextpid + 1)
    case Abandons(p) =>
      && Runs(s, p) && s.work[p].Copying? && s.work[p].np < |s.ps|
      && var np := s.work[p].np;
         s' == s.(ps := s.ps[np := s.ps[np].(state := UNUSED)], work := s.work[p := Idle])
    case Fathers(p) =>
      && Runs(s, p) && s.work[p].Copying? && s.work[p].np < |s.ps|
      && var np := s.work[p].np;
         s' == s.(ps := s.ps[np := s.ps[np].(parent := p)], work := s.work[p := Parented(np)])
    case Launches(p) =>
      && Runs(s, p) && s.work[p].Parented? && s.work[p].np < |s.ps|
      && var np := s.work[p].np;
         s' == s.(ps := s.ps[np := s.ps[np].(state := RUNNABLE)], work := s.work[p := Idle])
    case Exits(p) =>
      Runs(s, p) && s.work[p].Idle? && p != s.init && s' == s.(ps := Exited(s.ps, p, s.init))
    case WaitsOnce(p, out) =>
      Runs(s, p) && s.work[p].Idle? && Waits(s.ps, s'.ps, p, out) && s' == s.(ps := s'.ps)
    case Sleeps(p, id) =>
      Runs(s, p) && s' == s.(ps := s.ps[p := s.ps[p].(state := SLEEPING, chan := Other(id))])
    case Wakes(id) =>
      s' == s.(ps := Woken(s.ps, Other(id)))
    case Kills(pid) =>
      if exists i :: FirstPid(s.ps, i, pid) then
        exists i :: FirstPid(s.ps, i, pid) && s' == s.(ps := s.ps[i := KillOne(s.ps[i])])
      else s' == s
    case Dispatches(p) =>
      && p < |s.ps| && s.ps[p].state == RUNNABLE
      && s' == s.(ps := s.ps[p := s.ps[p].(state := RUNNING, chan := NoChan)])
    case Yields(p) =>
      Runs(s, p) && s' == s.(ps := s.ps[p := s.ps[p].(state := RUNNABLE)])
  }

  /** The process in slot `i` is asleep inside wait. */
  ghost predicate InWait(ps: seq<Proc>, i: int) {
    0 <= i < |ps| && ps[i].state == SLEEPING && ps[i].chan == Waiting(i)
  }

  ghost predicate SlotOk(ps: seq<Proc>, init: nat, nextpid: int, i: nat)
    requires i < |ps|
  {
    var p := ps[i];
    && (p.state == UNUSED ==> p.parent == NOBODY)
    && (p.parent == NOBODY || (0 <= p.parent < |ps| && p.parent != i && Alive(ps[p.parent].state)))
    && (p.state != UNUSED && p.state != EMBRYO && i != init ==> p.parent != NOBODY)
    && (p.state == ZOMBIE ==> !InWait(ps, p.parent))
    && (p.state == SLEEPING && p.chan.Waiting? ==> p.chan.p == i)
    && p.pid < nextpid && (p.state != UNUSED ==> p.pid >= 1)
  }

  ghost predicate WorkOk(ps: seq<Proc>, work: seq<Work>, i: nat)
    requires i < |ps| && i < |work|
  {
    match work[i]
    case Idle => true
    case Copying(np) => Alive(ps[i].state) && np < |ps| && ps[np].state == EMBRYO && ps[np].parent == NOBODY
    case Parented(np) => Alive(ps[i].state) && np < |ps| && ps[np].state == EMBRYO && ps[np].parent == i
  }

  ghost predicate Inv(s: Sys) {
    && |s.work| == |s.ps| && s.init < |s.ps| && s.nextpid >= 1
    && Alive(s.ps[s.init].state) && s.ps[s.init].parent == NOBODY
    && (forall i | 0 <= i < |s.ps| :: SlotOk(s.ps, s.init, s.nextpid, i))
    && (forall i | 0 <= i < |s.ps| :: WorkOk(s.ps, s.work, i))
    && (forall i, j | 0 <= i < j < |s.ps| && !s.work[i].Idle? && !s.work[j].Idle? :: s.work[i].np != s.work[j].np)
    && (forall i, j | 0 <= i < j < |s.ps| && s.ps[i].state != UNUSED && s.ps[j].state != UNUSED :: s.ps[i].pid != s.ps[j].pid)
  }

  lemma ClaimKeeps(s: Sys, p: nat, np: nat)
    requires Inv(s) && Runs(s, p) && s.work[p].Idle? && FirstUnused(s.ps, np)
    ensures Inv(s.(ps := s.ps[np := Claim(s.ps[np], s.nextpid)], work := s.work[p := Copying(np)], nextpid := s.nextpid + 1))
  {
    var t := s.(ps := s.ps[np := Claim(s.ps[np], s.nextpid)], work := s.work[p := Copying(np)], nextpid := s.nextpid + 1);
    assert SlotOk(s.ps, s.init, s.nextpid, np);
    forall i | 0 <= i < |s.ps| ensures s.ps[i].pid < s.nextpid && (!s.work[i].Idle? ==> s.work[i].np != np) {
      assert SlotOk(s.ps, s.init, s.nextpid, i) && WorkOk(s.ps, s.work, i);
    }
    forall i | 0 <= i < |t.ps| ensures SlotOk(t.ps, t.init, t.nextpid, i) && WorkOk(t.ps, t.work, i) {
      assert SlotOk(s.ps, s.init, s.nextpid, i) && WorkOk(s.ps, s.work, i);
    }
  }

  /** The slot that `p` is forking into is an embryo that nobody else forks into. */
  lemma ForkSlot(s: Sys, p: nat)
    requires Inv(s) && p < |s.ps| && !s.work[p].Idle?
    ensures var np := s.work[p].np;
            && np < |s.ps| && np != s.init && np != p && Alive(s.ps[p].state) && s.ps[np].state == EMBRYO
            && (s.ps[np].parent == if s.work[p].Copying? then NOBODY else p)
            && (forall j | 0 <= j < |s.ps| && j != p && !s.work[j].Idle? :: s.work[j].np != np)
            && (forall j | 0 <= j < |s.ps| :: s.ps[j].parent != np)
  {
    var np := s.work[p].np;
    assert WorkOk(s.ps, s.work, p);
    forall j | 0 <= j < |s.ps| ensures s.ps[j].parent != np {
      assert SlotOk(s.ps, s.init, s.nextpid, j);
    }
  }

  /** A step of fork that changes one embryo's slot to `q` and `p`'s progress to `w`. */
  lemma ForkKeeps(s: Sys, p: nat, q: Proc, w: Work)
    requires Inv(s) && p < |s.ps| && !s.work[p].Idle? && s.work[p].np < |s.ps|
    requires var np := s.work[p].np;
             && q.pid == s.ps[np].pid
             && (|| (s.work[p].Copying? && q == s.ps[np].(state := UNUSED) && w == Idle)
                 || (s.work[p].Copying? && q == s.ps[np].(parent := p) && w == Parented(np))
                 || (s.work[p].Parented? && q == s.ps[np].(state := RUNNABLE) && w == Idle))
    ensures Inv(s.(ps := s.ps[s.work[p].np := q], work := s.work[p := w]))
  {
    var np := s.work[p].np;
    var t := s.(ps := s.ps[np := q], work := s.work[p := w]);
    ForkSlot(s, p);
    forall i | 0 <= i < |t.ps| ensures SlotOk(t.ps, t.init, t.nextpid, i) {
      assert SlotOk(s.ps, s.init, s.nextpid, i);
    }
    forall i | 0 <= i < |t.ps| ensures WorkOk(t.ps, t.work, i) {
      assert WorkOk(s.ps, s.work, i);
    }
  }

  /** Changing how one live process sleeps or runs. */
  lemma TurnKeeps(s: Sys, i: nat, q: Proc)
    requires Inv(s) && i < |s.ps| && Alive(s.ps[i].state) && Alive(q.state)
    requires q.pid == s.ps[i].pid && q.parent == s.ps[i].parent
    requires q.state == SLEEPING && q.chan.Waiting? ==>
      q.chan.p == i && !HasZombie(s.ps, |s.ps|, i)
    ensures Inv(s.(ps := s.ps[i := q]))
  {
    var t := s.(ps := s.ps[i := q]);
    forall j | 0 <= j < |t.ps| ensures SlotOk(t.ps, t.init, t.nextpid, j) && WorkOk(t.ps, t.work, j) {
      assert SlotOk(s.ps, s.init, s.nextpid, j) && WorkOk(s.ps, s.work, j);
      assert s.ps[j].parent == i && s.ps[j].state == ZOMBIE ==> ZombieChild(s.ps[j], i);
    }
  }

  lemma WokenKeeps(s: Sys, chan: Chan)
    requires Inv(s)
    ensures Inv(s.(ps := Woken(s.ps, chan)))
  {
    var t := s.(ps := Woken(s.ps, chan));
    forall j | 0 <= j < |t.ps| ensures SlotOk(t.ps, t.init, t.nextpid, j) && WorkOk(t.ps, t.work, j) {
      assert SlotOk(s.ps, s.init, s.nextpid, j) && WorkOk(s.ps, s.work, j);
    }
  }

  lemma ReapKeeps(s: Sys, i: nat, cur: nat)
    requires Inv(s) && FirstZombie(s.ps, i, cur)
    ensures Inv(s.(ps := s.ps[i := Reap(s.ps[i])]))
  {
    var t := s.(ps := s.ps[i := Reap(s.ps[i])]);
    forall j | 0 <= j < |t.ps| ensures SlotOk(t.ps, t.init, t.nextpid, j) && WorkOk(t.ps, t.work, j) {
      assert SlotOk(s.ps, s.init, s.nextpid, j) && WorkOk(s.ps, s.work, j);
    }
  }

  /** Slot by slot: children of `cur` go to init, sleepers may wake, `cur` is a zombie. */
  lemma ExitedAt(ps: seq<Proc>, cur: nat, init: nat, j: nat)
    requires cur < |ps| && j < |ps| && ps[cur].state == RUNNING
    ensures var t := Exited(ps, cur, init);
            && t[j].parent == (if ps[j].parent == cur then init else ps[j].parent)
            && t[j].pid == ps[j].pid && t[j].chan == ps[j].chan
            && (if j == cur then t[j].state == ZOMBIE
                else t[j].state == ps[j].state || (ps[j].state == SLEEPING && t[j].state == RUNNABLE))
            && (InWait(t, j) ==> InWait(ps, j) && j != ps[cur].parent)
            && (InWait(t, j) && j == init ==> !HasZombie(ps, |ps|, cur))
  {
    var w := Woken(ps, Waiting(ps[cur].parent));
    var t := Exited(ps, cur, init);
    if HasZombie(ps, |ps|, cur) {
      var k :| 0 <= k < |ps| && ZombieChild(ps[k], cur);
      assert ZombieChild(w[k], cur);
      assert HasZombie(w, |w|, cur);
    }
  }

  lemma ExitKeeps(s: Sys, p: nat)
    requires Inv(s) && Runs(s, p) && s.work[p].Idle? && p != s.init
    ensures Inv(s.(ps := Exited(s.ps, p, s.init)))
  {
    var t := s.(ps := Exited(s.ps, p, s.init));
    hide Exited;
    ExitedAt(s.ps, p, s.init, s.init);
    assert SlotOk(s.ps, s.init, s.nextpid, p);
    forall j | 0 <= j < |t.ps| ensures SlotOk(t.ps, t.init, t.nextpid, j) {
      ExitSlot(s, p, j);
    }
    forall j | 0 <= j < |t.ps| ensures WorkOk(t.ps, t.work, j) {
      ExitWork(s, p, j);
    }
    forall j, k | 0 <= j < k < |t.ps| && t.ps[j].state != UNUSED && t.ps[k].state != UNUSED ensures t.ps[j].pid != t.ps[k].pid {
      ExitedAt(s.ps, p, s.init, j);
      ExitedAt(s.ps, p, s.init, k);
    }
  }

  lemma ExitWork(s: Sys, p: nat, j: nat)
    requires Inv(s) && Runs(s, p) && s.work[p].Idle? && p != s.init && j < |s.ps|
    ensures WorkOk(Exited(s.ps, p, s.init), s.work, j)
  {
    hide Exited;
    assert WorkOk(s.ps, s.work, j);
    ExitedAt(s.ps, p, s.init, j);
    if !s.work[j].Idle? {
      ExitedAt(s.ps, p, s.init, s.work[j].np);
    }
  }

  lemma ExitSlot(s: Sys, p: nat, j: nat)
    requires Inv(s) && Runs(s, p) && p != s.init && j < |s.ps|
    ensures SlotOk(Exited(s.ps, p, s.init), s.init, s.nextpid, j)
  {
    hide Exited;
    assert SlotOk(s.ps, s.init, s.nextpid, j) && SlotOk(s.ps, s.init, s.nextpid, p);
    ExitedAt(s.ps, p, s.init, j);
    ExitedAt(s.ps, p, s.init, s.init);
    if s.ps[j].parent == p {
      assert s.ps[j].state == ZOMBIE ==> ZombieChild(s.ps[j], p);
    } else if s.ps[j].parent != NOBODY {
      ExitedAt(s.ps, p, s.init, s.ps[j].parent);
    }
  }

  lemma StepKeeps(s: Sys, step: Step, s': Sys)
    requires Inv(s) && Next(s, step, s')
    ensures Inv(s')
  {
    hide Inv, Exited, Woken;
    match step {
      case Claims(p) =>
        var np :|
          && FirstUnused(s.ps, np)
          && s' == s.(ps := s.ps[np := Claim(s.ps[np], s.nextpid)], work := s.work[p := Copying(np)], nextpid := s.nextpid + 1);
        ClaimKeeps(s, p, np);
      case Abandons(p) => ForkKeeps(s, p, s.ps[s.work[p].np].(state := UNUSED), Idle);
      case Fathers(p) => ForkKeeps(s, p, s.ps[s.work[p].np].(parent := p), Parented(s.work[p].np));
      case Launches(p) => ForkKeeps(s, p, s.ps[s.work[p].np].(state := RUNNABLE), Idle);
      case Exits(p) => ExitKeeps(s, p);
      case WaitsOnce(p, out) =>
        if HasZombie(s.ps, |s.ps|, p) {
          var i :| FirstZombie(s.ps, i, p) && s'.ps == s.ps[i := Reap(s.ps[i])];
          ReapKeeps(s, i, p);
        } else if out == Slept {
          TurnKeeps(s, p, s.ps[p].(state := SLEEPING, chan := Waiting(p)));
        }
      case Sleeps(p, id) => TurnKeeps(s, p, s.ps[p].(state := SLEEPING, chan := Other(id)));
      case Wakes(id) => WokenKeeps(s, Other(id));
      case Kills(pid) =>
        if exists i :: FirstPid(s.ps, i, pid) {
          var i :| FirstPid(s.ps, i, pid) && s' == s.(ps := s.ps[i := KillOne(s.ps[i])]);
          KillKeeps(s, i);
        }
      case Dispatches(p) => TurnKeeps(s, p, s.ps[p].(state := RUNNING, chan := NoChan));
      case Yields(p) => TurnKeeps(s, p, s.ps[p].(state := RUNNABLE));
    }
  }

  lemma KillKeeps(s: Sys, i: nat)
    requires Inv(s) && i < |s.ps|
    ensures Inv(s.(ps := s.ps[i := KillOne(s.ps[i])]))
  {
    var t := s.(ps := s.ps[i := KillOne(s.ps[i])]);
    forall j | 0 <= j < |t.ps| ensures SlotOk(t.ps, t.init, t.nextpid, j) && WorkOk(t.ps, t.work, j) {
      assert SlotOk(s.ps, s.init, s.nextpid, j) && WorkOk(s.ps, s.work, j);
    }
  }

  // ----- Runs

  /** A table with only init in it, in slot `init`. */
  ghost predicate Boot(s: Sys) {
    && |s.work| == |s.ps| && s.init < |s.ps| && s.nextpid == 2
    && (forall i | 0 <= i < |s.ps| :: s.work[i] == Idle)
    && s.ps[s.init] == Proc(RUNNABLE, 1, NOBODY, NoChan, false)
    && forall i | 0 <= i < |s.ps| && i != s.init :: s.ps[i] == Proc(UNUSED, 0, NOBODY, NoChan, false)
  }

  ghost predicate Run(states: seq<Sys>, steps: seq<Step>) {
    && |states| == |steps| + 1 && Boot(states[0])
    && forall k | 0 <= k < |steps| :: Next(states[k], steps[k], states[k + 1])
  }

  lemma {:induction false} RunKeeps(states: seq<Sys>, steps: seq<Step>, k: nat)
    requires Run(states, steps) && k < |states|
    ensures Inv(states[k])
  {
    if k == 0 {
      BootOk(states[0]);
    } else {
      RunKeeps(states, steps, k - 1);
      StepKeeps(states[k - 1], steps[k - 1], states[k - 1 + 1]);
    }
  }

  lemma BootOk(s: Sys)
    requires Boot(s)
    ensures Inv(s)
  {
    forall i | 0 <= i < |s.ps| ensures SlotOk(s.ps, s.init, s.nextpid, i) && WorkOk(s.ps, s.work, i) {
    }
  }

  /** In every reachable state no process sleeps in wait with a zombie child, no zombie has children, and every
      zombie has a live parent to reap it. */
  lemma NoZombieForgotten(states: seq<Sys>, steps: seq<Step>, k: nat, c: nat)
    requires Run(states, steps) && k < |states| && c < |states[k].ps|
    ensures var ps := states[k].ps;
            && (ps[c].parent != NOBODY ==> 0 <= ps[c].parent < |ps| && ps[ps[c].parent].state != ZOMBIE)
            && (ps[c].state == ZOMBIE ==> ps[c].parent != NOBODY && Alive(ps[ps[c].parent].state) && !InWait(ps, ps[c].parent))
  {
    RunKeeps(states, steps, k);
    assert SlotOk(states[k].ps, states[k].init, states[k].nextpid, c);
  }

  ghost predicate NoneWith(ps: seq<Proc>, pid: int) {
    forall c | 0 <= c < |ps| && ps[c].pid == pid :: ps[c].state == UNUSED
  }

  /** What wait reports was a zombie child of the caller, the only process with that pid, and it is gone. */
  lemma WaitReapsOnce(states: seq<Sys>, steps: seq<Step>, k: nat, p: nat, pid: int)
    requires Run(states, steps) && k < |steps| && steps[k] == WaitsOnce(p, Reaped(pid))
    ensures exists c :: 0 <= c < |states[k].ps| && ZombieChild(states[k].ps[c], p) && states[k].ps[c].pid == pid
    ensures NoneWith(states[k + 1].ps, pid)
  {
    var s, s' := states[k], states[k + 1];
    RunKeeps(states, steps, k);
    var c :| FirstZombie(s.ps, c, p) && s'.ps == s.ps[c := Reap(s.ps[c])];
    assert SlotOk(s.ps, s.init, s.nextpid, c);
    forall i | 0 <= i < |s'.ps| && s'.ps[i].pid == pid ensures s'.ps[i].state == UNUSED {
      assert i < c || i > c || i == c;
    }
  }

  /** What one pass of wait comes to: a zombie child is reaped, killed or not; without one, only a caller that has children
      and is not killed goes to sleep. */
  lemma WaitOutcome(s: Sys, p: nat, out: Outcome, s': Sys)
    requires Next(s, WaitsOnce(p, out), s')
    ensures out.Reaped? <==> exists i :: 0 <= i < |s.ps| && s.ps[i].parent == p && s.ps[i].state == ZOMBIE
    ensures out.Slept? <==> InWait(s'.ps, p)
    ensures out.Slept? <==>
      && (exists i :: 0 <= i < |s.ps| && s.ps[i].parent == p)
      && (forall i | 0 <= i < |s.ps| && s.ps[i].parent == p :: s.ps[i].state != ZOMBIE)
      && !s.ps[p].killed
  {
    forall i | 0 <= i < |s.ps| ensures s.ps[i].parent == p && s.ps[i].state == ZOMBIE <==> ZombieChild(s.ps[i], p) {
    }
  }

  // ----- A killed process does not go on waiting

  ghost predicate NoneKilledInWait(ps: seq<Proc>) {
    forall i | InWait(ps, i) :: !ps[i].killed
  }

  /** kill marks its process, leaves it awake, and changes no other. */
  lemma KillWakes(s: Sys, pid: int, s': Sys, i: nat)
    requires Next(s, Kills(pid), s') && FirstPid(s.ps, i, pid)
    ensures |s'.ps| == |s.ps| && s'.ps[i].killed && s'.ps[i].state != SLEEPING
    ensures forall j | 0 <= j < |s.ps| && j != i :: s'.ps[j] == s.ps[j]
  {
    var k :| FirstPid(s.ps, k, pid) && s' == s.(ps := s.ps[k := KillOne(s.ps[k])]);
    assert k == i;
  }

  lemma WaiterStep(s: Sys, step: Step, s': Sys)
    requires NoneKilledInWait(s.ps) && Next(s, step, s')
    ensures NoneKilledInWait(s'.ps)
  {
    match step {
      case Exits(p) =>
        forall j | InWait(s'.ps, j) ensures !s'.ps[j].killed {
          ExitedAt(s.ps, p, s.init, j);
          ExitedMark(s.ps, p, s.init, j);
        }
      case WaitsOnce(p, out) =>
        if HasZombie(s.ps, |s.ps|, p) {
          var i :| FirstZombie(s.ps, i, p) && s'.ps == s.ps[i := Reap(s.ps[i])];
          forall j | InWait(s'.ps, j) ensures !s'.ps[j].killed {
            assert InWait(s.ps, j);
          }
        } else {
          forall j | InWait(s'.ps, j) ensures !s'.ps[j].killed {
            assert j != p ==> InWait(s.ps, j);
          }
        }
      case _ =>
        forall j | InWait(s'.ps, j) ensures !s'.ps[j].killed {
          assert InWait(s.ps, j);
        }
    }
  }

  /** In every run no process is asleep in wait with a killed mark: kill wakes it, and wait does not sleep again. */
  lemma {:induction false} NobodyWaitsKilled(states: seq<Sys>, steps: seq<Step>, k: nat)
    requires Run(states, steps) && k < |states|
    ensures NoneKilledInWait(states[k].ps)
  {
    if k > 0 {
      NobodyWaitsKilled(states, steps, k - 1);
      WaiterStep(states[k - 1], steps[k - 1], states[k - 1 + 1]);
    }
  }

  // ----- Nobody waits for nothing

  ghost predicate WaitersHaveChildren(ps: seq<Proc>) {
    forall i | InWait(ps, i) :: HasChild(ps, i)
  }

  /** A step that keeps the children of `i`. */
  lemma KeepsChild(ps: seq<Proc>, ps': seq<Proc>, i: int)
    requires HasChild(ps, i) && |ps'| == |ps|
    requires forall j | 0 <= j < |ps| && ps[j].parent == i :: ps'[j].parent == i
    ensures HasChild(ps', i)
  {
    var j :| 0 <= j < |ps| && ps[j].parent == i;
    assert ps'[j].parent == i;
  }

  /** Children change hands only when their parent exits or reaps them; it does neither while it sleeps. */
  lemma ParentsStay(s: Sys, step: Step, s': Sys, i: int, j: nat)
    requires Inv(s) && Next(s, step, s') && j < |s.ps| && s.ps[j].parent == i && 0 <= i < |s.ps| && s.ps[i].state == SLEEPING
    ensures j < |s'.ps| && s'.ps[j].parent == i
  {
    match step {
      case Claims(p) => assert SlotOk(s.ps, s.init, s.nextpid, j);
      case Fathers(p) => ForkSlot(s, p);
      case Exits(p) => ExitedAt(s.ps, p, s.init, j);
      case _ =>
    }
  }

  /** Who is asleep in wait was so before, or has just found that it has children. */
  lemma WaiterIs(s: Sys, step: Step, s': Sys, i: int)
    requires Next(s, step, s') && InWait(s'.ps, i)
    ensures InWait(s.ps, i) || HasChild(s'.ps, i)
  {
    match step {
      case Exits(p) => ExitedAt(s.ps, p, s.init, i);
      case WaitsOnce(p, out) =>
        if i == p {
          KeepsChild(s.ps, s'.ps, i);
        } else {
          assert InWait(s.ps, i);
        }
      case _ => assert InWait(s.ps, i);
    }
  }

  lemma ChildStep(s: Sys, step: Step, s': Sys)
    requires Inv(s) && WaitersHaveChildren(s.ps) && Next(s, step, s')
    ensures WaitersHaveChildren(s'.ps)
  {
    hide Inv, Next;
    forall i | InWait(s'.ps, i) ensures HasChild(s'.ps, i) {
      WaiterIs(s, step, s', i);
      if InWait(s.ps, i) {
        var j :| 0 <= j < |s.ps| && s.ps[j].parent == i;
        ParentsStay(s, step, s', i, j);
      }
    }
  }

  /** In every run a process asleep in wait has a child to wait for. */
  lemma {:induction false} NobodyWaitsAlone(states: seq<Sys>, steps: seq<Step>, k: nat)
    requires Run(states, steps) && k < |states|
    ensures WaitersHaveChildren(states[k].ps)
  {
    hide Inv;
    if k > 0 {
      NobodyWaitsAlone(states, steps, k - 1);
      RunKeeps(states, steps, k - 1);
      ChildStep(states[k - 1], steps[k - 1], states[k - 1 + 1]);
    }
  }

  // ----- A new process should not start out killed

  /** No unused slot carries a killed mark, so the next process to claim it starts without one. */
  ghost predicate CleanSlots(ps: seq<Proc>) {
    forall i | 0 <= i < |ps| && ps[i].state == UNUSED :: !ps[i].killed
  }

  /** A kill whose pid is that of an unused slot (0, or one left by a failed fork), or a fork that fails after
      its child was killed. */
  ghost predicate Soils(s: Sys, step: Step) {
    || (step.Kills? && exists i :: FirstPid(s.ps, i, step.pid) && s.ps[i].state == UNUSED)
    || (step.Abandons? && step.p < |s.work| && s.work[step.p].Copying? && s.work[step.p].np < |s.ps|
        && s.ps[s.work[step.p].np].killed)
  }

  /** Claiming a slot does not clear its mark; reaping does.  So a clean table stays clean exactly when the step
      is neither of those. */
  lemma CleanUnlessSoiled(s: Sys, step: Step, s': Sys)
    requires CleanSlots(s.ps) && Next(s, step, s')
    ensures CleanSlots(s'.ps) <==> !Soils(s, step)
  {
    match step {
      case Kills(pid) =>
        if exists i :: FirstPid(s.ps, i, pid) {
          var i :| FirstPid(s.ps, i, pid) && s' == s.(ps := s.ps[i := KillOne(s.ps[i])]);
          assert forall j | FirstPid(s.ps, j, pid) :: j == i;
          assert s'.ps[i].killed;
        }
      case Abandons(p) =>
        assert s'.ps[s.work[p].np].state == UNUSED;
      case Exits(p) =>
        forall j | 0 <= j < |s.ps| ensures s'.ps[j].state == UNUSED ==> s.ps[j].state == UNUSED && s'.ps[j].killed == s.ps[j].killed {
          ExitedMark(s.ps, p, s.init, j);
        }
      case _ =>
    }
  }

  lemma ExitedMark(ps: seq<Proc>, cur: nat, init: nat, j: nat)
    requires cur < |ps| && j < |ps|
    ensures var t := Exited(ps, cur, init); t[j].killed == ps[j].killed && (t[j].state == UNUSED ==> ps[j].state == UNUSED)
  {
  }

  /** Over a run: the slots are clean all along exactly if no step soils them. */
  lemma {:induction false} CleanAllAlongIff(states: seq<Sys>, steps: seq<Step>, n: nat)
    requires Run(states, steps) && n <= |steps|
    ensures (forall k | 0 <= k <= n :: CleanSlots(states[k].ps)) <==> (forall k | 0 <= k < n :: !Soils(states[k], steps[k]))
    decreases n
  {
    if n == 0 {
      assert forall i | 0 <= i < |states[0].ps| :: !states[0].ps[i].killed;
    } else {
      CleanAllAlongIff(states, steps, n - 1);
      if CleanSlots(states[n - 1].ps) {
        CleanUnlessSoiled(states[n - 1], steps[n - 1], states[n - 1 + 1]);
      }
    }
  }

  /** In a run without such a step every process starts out unmarked. */
  lemma StartsUnmarked(states: seq<Sys>, steps: seq<Step>, k: nat, p: nat)
    requires Run(states, steps) && k < |steps| && steps[k] == Claims(p)
    requires forall j | 0 <= j < k :: !Soils(states[j], steps[j])
    ensures var s' := states[k + 1]; p < |s'.work| && s'.work[p].Copying? && s'.work[p].np < |s'.ps| && !s'.ps[s'.work[p].np].killed
  {
    CleanAllAlongIff(states, steps, k);
    assert CleanSlots(states[k].ps);
    var s, s' := states[k], states[k + 1];
    var np :| FirstUnused(s.ps, np) && s'.work == s.work[p := Copying(np)] && s'.ps == s.ps[np := Claim(s.ps[np], s.nextpid)];
  }

  /** It does happen: init kills pid 0, which marks an unused slot, and its next child is born killed. */
  lemma BornKilled() returns (states: seq<Sys>, steps: seq<Step>)
    ensures Run(states, steps) && |steps| == 3 && |states[3].ps| == 2 && states[3].ps[1] == Proc(EMBRYO, 2, NOBODY, NoChan, true)
  {
    var init, unused := Proc(RUNNABLE, 1, NOBODY, NoChan, false), Proc(UNUSED, 0, NOBODY, NoChan, false);
    var s0 := Sys([init, unused], [Idle, Idle], 2, 0);
    var s1 := s0.(ps := [init.(state := RUNNING), unused]);
    var s2 := s1.(ps := [init.(state := RUNNING), KillOne(unused)]);
    var s3 := s2.(ps := [init.(state := RUNNING), Claim(KillOne(unused), 2)], work := [Copying(1), Idle], nextpid := 3);
    assert s1.ps == s0.ps[0 := s0.ps[0].(state := RUNNING, chan := NoChan)];
    assert FirstPid(s1.ps, 1, 0) && s2.ps == s1.ps[1 := KillOne(s1.ps[1])];
    assert FirstUnused(s2.ps, 1) && s3.ps == s2.ps[1 := Claim(s2.ps[1], s2.nextpid)] && s3.work == s2.work[0 := Copying(1)];
    assert Next(s0, Dispatches(0), s1) && Next(s1, Kills(0), s2) && Next(s2, Claims(0), s3);
    states, steps := [s0, s1, s2, s3], [Dispatches(0), Kills(0), Claims(0)];
  }
}
