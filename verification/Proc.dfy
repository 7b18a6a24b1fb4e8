/**
 The process table (proc.c): the scans that wake, adopt, reap, kill and allocate, each one stay
 under the table's lock.
 */
module Proc {

  datatype State = UNUSED | EMBRYO | SLEEPING | RUNNABLE | RUNNING | ZOMBIE

  /** What a process sleeps on: itself inside wait, or anything else in the kernel. */
  datatype Chan = NoChan | Waiting(p: int) | Other(id: nat)

  const NOBODY := -1

  datatype Proc = Proc(state: State, pid: int, parent: int, chan: Chan, killed: bool)

  /** Every sleeper on `chan` is runnable; nobody else changes. */
  function Woken(ps: seq<Proc>, chan: Chan): (r: seq<Proc>)
    ensures |r| == |ps|
    ensures forall i | 0 <= i < |ps| :: r[i] == WakeOne(ps[i], chan)
  {
    seq(|ps|, i requires 0 <= i < |ps| => WakeOne(ps[i], chan))
  }

  function WakeOne(p: Proc, chan: Chan): Proc {
    if p.state == SLEEPING && p.chan == chan then p.(state := RUNNABLE) else p
  }

  /** The children of `cur` among the first `n` slots now belong to `init`. */
  function Adopted(ps: seq<Proc>, n: nat, cur: int, init: nat): (r: seq<Proc>)
    ensures |r| == |ps|
    ensures forall i | 0 <= i < |ps| :: r[i] == if i < n && ps[i].parent == cur then ps[i].(parent := init) else ps[i]
  {
    seq(|ps|, i requires 0 <= i < |ps| => if i < n && ps[i].parent == cur then ps[i].(parent := init) else ps[i])
  }

  predicate ZombieChild(p: Proc, cur: int) {
    p.parent == cur && p.state == ZOMBIE
  }

  ghost predicate HasZombie(ps: seq<Proc>, n: nat, cur: int) {
    exists i :: 0 <= i < n <= |ps| && ZombieChild(ps[i], cur)
  }

  /** After the loop of exit over the first `n` slots: init is woken if it got a zombie. */
  ghost function Handed(ps: seq<Proc>, n: nat, cur: int, init: nat): (r: seq<Proc>)
    ensures |r| == |ps|
  {
    var r := Adopted(ps, n, cur, init);
    if HasZombie(ps, n, cur) then Woken(r, Waiting(init)) else r
  }

  /** The table after `cur` has exited. */
  ghost function Exited(ps: seq<Proc>, cur: nat, init: nat): (r: seq<Proc>)
    requires cur < |ps|
    ensures |r| == |ps|
  {
    var r := Handed(Woken(ps, Waiting(ps[cur].parent)), |ps|, cur, init);
    r[cur := r[cur].(state := ZOMBIE)]
  }

  datatype Outcome = Reaped(pid: int) | Failed | Slept

  ghost predicate HasChild(ps: seq<Proc>, cur: int) {
    exists i :: 0 <= i < |ps| && ps[i].parent == cur
  }

  /** One pass of wait: the first zombie child is reaped; without one, the caller fails or goes to sleep on itself. */
  ghost predicate Waits(ps: seq<Proc>, ps': seq<Proc>, cur: nat, out: Outcome)
    requires cur < |ps|
  {
    if HasZombie(ps, |ps|, cur) then
      exists i :: FirstZombie(ps, i, cur) && out == Reaped(ps[i].pid) && ps' == ps[i := Reap(ps[i])]
    else if !HasChild(ps, cur) || ps[cur].killed then
      out == Failed && ps' == ps
    else
      out == Slept && ps' == ps[cur := ps[cur].(state := SLEEPING, chan := Waiting(cur))]
  }

  ghost predicate FirstZombie(ps: seq<Proc>, i: int, cur: int) {
    0 <= i < |ps| && ZombieChild(ps[i], cur) && forall j | 0 <= j < i :: !ZombieChild(ps[j], cur)
  }

  function Reap(p: Proc): Proc {
    p.(state := UNUSED, pid := 0, parent := NOBODY, killed := false)
  }

  function KillOne(p: Proc): Proc {
    p.(killed := true, state := if p.state == SLEEPING then RUNNABLE else p.state)
  }

  class Ptable {
    const proc: array<Proc>
    var nextpid: int

    constructor (n: nat)
      ensures fresh(proc) && proc.Length == n && nextpid == 1
      ensures forall i | 0 <= i < n :: proc[i] == Proc(UNUSED, 0, NOBODY, NoChan, false)
    {
      proc := new Proc[n](i => Proc(UNUSED, 0, NOBODY, NoChan, false));
      nextpid := 1;
    }

    method Wakeup1(chan: Chan)
      modifies proc
      ensures proc[..] == Woken(old(proc[..]), chan)
    {
      for i := 0 to proc.Length
        invariant forall j | 0 <= j < i :: proc[j] == WakeOne(old(proc[j]), chan)
        invariant forall j | i <= j < proc.Length :: proc[j] == old(proc[j])
      {
        if proc[i].state == SLEEPING && proc[i].chan == chan {
          proc[i] := proc[i].(state := RUNNABLE);
        }
      }
    }

    /** The part of exit under the lock. */
    method Exit(cur: nat, init: nat)
      requires cur < proc.Length && cur != init
      modifies proc
      ensures proc[..] == Exited(old(proc[..]), cur, init)
    {
      hide Woken, Adopted, HasZombie;
      Wakeup1(Waiting(proc[cur].parent));
      ghost var ps := proc[..];
      HandedNone(ps, cur, init);
      for i := 0 to proc.Length
        invariant proc[..] == Handed(ps, i, cur, init)
      {
        HandedAt(ps, i, cur, init);
        assert proc[i] == proc[..][i];
        if proc[i].parent == cur {
          proc[i] := proc[i].(parent := init);
          assert proc[..] == Handed(ps, i, cur, init)[i := Handed(ps, i, cur, init)[i].(parent := init)];
          if proc[i].state == ZOMBIE {
            Wakeup1(Waiting(init));
          }
        }
      }
      proc[cur] := proc[cur].(state := ZOMBIE);
    }

    /** One pass of the loop in wait, up to returning or going to sleep. */
    method Wait(cur: nat) returns (out: Outcome)
      requires cur < proc.Length
      modifies proc
      ensures Waits(old(proc[..]), proc[..], cur, out)
    {
      var havekids := false;
      ghost var ps := proc[..];
      for i := 0 to proc.Length
        invariant proc[..] == ps
        invariant havekids <==> exists j :: 0 <= j < i && ps[j].parent == cur
        invariant forall j | 0 <= j < i :: !ZombieChild(ps[j], cur)
      {
        assert proc[i] == ps[i];
        if proc[i].parent != cur {
          continue;
        }
        havekids := true;
        if proc[i].state == ZOMBIE {
          out := Reaped(proc[i].pid);
          proc[i] := proc[i].(pid := 0, parent := NOBODY, killed := false, state := UNUSED);
          assert ZombieChild(ps[i], cur) && FirstZombie(ps, i, cur);
          assert proc[..] == ps[i := Reap(ps[i])];
          return;
        }
      }
      assert proc[cur] == ps[cur];
      if !havekids || proc[cur].killed {
        return Failed;
      }
      proc[cur] := proc[cur].(chan := Waiting(cur), state := SLEEPING);
      return Slept;
    }

    /** Mark the first process with this pid, and wake it if it sleeps. */
    method Kill(pid: int) returns (ok: bool)
      modifies proc
      ensures ok <==> exists i :: 0 <= i < proc.Length && old(proc[i]).pid == pid
      ensures !ok ==> proc[..] == old(proc[..])
      ensures ok ==> exists i :: FirstPid(old(proc[..]), i, pid) && proc[..] == old(proc[..])[i := KillOne(old(proc[..])[i])]
    {
      ghost var ps := proc[..];
      for i := 0 to proc.Length
        invariant proc[..] == ps && forall j | 0 <= j < i :: ps[j].pid != pid
      {
        assert proc[i] == ps[i];
        if proc[i].pid == pid {
          proc[i] := proc[i].(killed := true);
          if proc[i].state == SLEEPING {
            proc[i] := proc[i].(state := RUNNABLE);
          }
          assert FirstPid(ps, i, pid);
          assert proc[..] == ps[i := KillOne(ps[i])];
          return true;
        }
      }
      return false;
    }

    /** Claim the first unused slot under a new pid. */
    method Allocproc() returns (found: bool, p: nat)
      modifies this`nextpid, proc
      ensures found <==> exists i :: 0 <= i < proc.Length && old(proc[i]).state == UNUSED
      ensures !found ==> proc[..] == old(proc[..]) && nextpid == old(nextpid)
      ensures found ==> FirstUnused(old(proc[..]), p) && nextpid == old(nextpid) + 1
      ensures found ==> proc[..] == old(proc[..])[p := Claim(old(proc[..])[p], old(nextpid))]
    {
      ghost var ps := proc[..];
      p := 0;
      while p < proc.Length
        invariant p <= proc.Length && proc[..] == ps && nextpid == old(nextpid)
        invariant forall j | 0 <= j < p :: ps[j].state != UNUSED
      {
        assert proc[p] == ps[p];
        if proc[p].state == UNUSED {
          proc[p] := proc[p].(state := EMBRYO, pid := nextpid);
          nextpid := nextpid + 1;
          return true, p;
        }
        p := p + 1;
      }
      return false, p;
    }
  }

  ghost predicate FirstPid(ps: seq<Proc>, i: int, pid: int) {
    0 <= i < |ps| && ps[i].pid == pid && forall j | 0 <= j < i :: ps[j].pid != pid
  }

  ghost predicate FirstUnused(ps: seq<Proc>, i: int) {
    0 <= i < |ps| && ps[i].state == UNUSED && forall j | 0 <= j < i :: ps[j].state != UNUSED
  }

  function Claim(p: Proc, pid: int): Proc {
    p.(state := EMBRYO, pid := pid)
  }

  lemma HandedNone(ps: seq<Proc>, cur: int, init: nat)
    ensures Handed(ps, 0, cur, init) == ps
  {
  }

  lemma HandedAt(ps: seq<Proc>, i: nat, cur: int, init: nat)
    requires i < |ps|
    ensures var h := Handed(ps, i, cur, init);
            && h[i].parent == ps[i].parent && (h[i].state == ZOMBIE <==> ps[i].state == ZOMBIE)
            && Handed(ps, i + 1, cur, init) ==
               if ps[i].parent != cur then h
               else if ps[i].state == ZOMBIE then Woken(h[i := h[i].(parent := init)], Waiting(init))
               else h[i := h[i].(parent := init)]
  {
    var h, g := Handed(ps, i, cur, init), Handed(ps, i + 1, cur, init);
    assert HasZombie(ps, i, cur) ==> HasZombie(ps, i + 1, cur);
    assert ZombieChild(ps[i], cur) ==> HasZombie(ps, i + 1, cur);
    if HasZombie(ps, i + 1, cur) && !HasZombie(ps, i, cur) {
      var j :| 0 <= j < i + 1 && ZombieChild(ps[j], cur);
      assert j == i;
    }
  }
}
