/**
 Processes reading, writing and closing one pipe, and being killed: who may be left asleep.
 */
module PipeSystem {
  import opened Pipe

  datatype State = Away | Writer(todo: seq<char>, asleep: bool) | Reader(n: nat, asleep: bool)

  datatype Sys = Sys(queue: seq<char>, readopen: bool, writeopen: bool, procs: seq<State>, killed: set<nat>)

  datatype Step =
    | CallWrite(p: nat, addr: seq<char>)
    | CallRead(p: nat, n: nat)
    | Run(p: nat)              // one stay of an awake process under the pipe's lock
    | Close(writable: bool)
    | Kill(p: nat)

  function WakeReaders(ps: seq<State>): (r: seq<State>)
    ensures |r| == |ps|
    ensures forall i | 0 <= i < |ps| :: r[i] == if ps[i].Reader? then Reader(ps[i].n, false) else ps[i]
  {
    seq(|ps|, i requires 0 <= i < |ps| => if ps[i].Reader? then Reader(ps[i].n, false) else ps[i])
  }

  function WakeWriters(ps: seq<State>): (r: seq<State>)
    ensures |r| == |ps|
    ensures forall i | 0 <= i < |ps| :: r[i] == if ps[i].Writer? then Writer(ps[i].todo, false) else ps[i]
  {
    seq(|ps|, i requires 0 <= i < |ps| => if ps[i].Writer? then Writer(ps[i].todo, false) else ps[i])
  }

  predicate Enabled(s: Sys, step: Step) {
    match step
    case CallWrite(p, _) => p < |s.procs| && s.procs[p].Away?
    case CallRead(p, _) => p < |s.procs| && s.procs[p].Away?
    case Run(p) => p < |s.procs| && !s.procs[p].Away? && !s.procs[p].asleep && |s.queue| <= PIPESIZE
    case Close(_) => true
    case Kill(p) => p < |s.procs|
  }

  function RunWriter(s: Sys, p: nat): Sys
    requires p < |s.procs| && s.procs[p].Writer? && |s.queue| <= PIPESIZE
  {
    var todo := s.procs[p].todo;
    var k := Fits(s.queue, todo);
    var t := s.(queue := s.queue + todo[..k]);
    match WriteEnds(s.queue, todo, s.readopen, p in s.killed)
    case Returned => t.(procs := WakeReaders(s.procs[p := Away]))
    case Failed => t.(procs := s.procs[p := Away])
    case Slept => t.(procs := WakeReaders(s.procs[p := Writer(todo[k..], true)]))
  }

  function RunReader(s: Sys, p: nat): Sys
    requires p < |s.procs| && s.procs[p].Reader?
  {
    var n := s.procs[p].n;
    match ReadEnds(s.queue, s.writeopen, p in s.killed)
    case Returned => s.(queue := s.queue[Min(n, |s.queue|)..], procs := WakeWriters(s.procs[p := Away]))
    case Failed => s.(procs := s.procs[p := Away])
    case Slept => s.(procs := s.procs[p := Reader(n, true)])
  }

  function Do(s: Sys, step: Step): Sys
    requires Enabled(s, step)
  {
    match step
    case CallWrite(p, addr) => s.(procs := s.procs[p := Writer(addr, false)])
    case CallRead(p, n) => s.(procs := s.procs[p := Reader(n, false)])
    case Run(p) => if s.procs[p].Writer? then RunWriter(s, p) else RunReader(s, p)
    case Close(writable) =>
      if writable then s.(writeopen := false, procs := WakeReaders(s.procs))
      else s.(readopen := false, procs := WakeWriters(s.procs))
    case Kill(p) =>
      s.(killed := s.killed + {p},
         procs := if s.procs[p].Away? then s.procs else s.procs[p := s.procs[p].(asleep := false)])
  }

  predicate ReaderAsleep(s: Sys, i: nat) {
    i < |s.procs| && s.procs[i].Reader? && s.procs[i].asleep
  }

  predicate WriterAsleep(s: Sys, i: nat) {
    i < |s.procs| && s.procs[i].Writer? && s.procs[i].asleep
  }

  /** Nobody sleeps who has something to do: a reader only on an empty pipe with a writer, a writer only
      on a full pipe with a reader. */
  ghost predicate NobodyForgotten(s: Sys) {
    && |s.queue| <= PIPESIZE
    && (forall i | ReaderAsleep(s, i) :: s.queue == [] && s.writeopen)
    && (forall i | WriterAsleep(s, i) :: |s.queue| == PIPESIZE && s.readopen)
  }

  /** The one step that forgets a reader: a writer with more than a pipeful left to write, killed or
      facing a closed read end, fills the pipe and leaves without waking anyone. */
  ghost predicate Strands(s: Sys, step: Step) {
    && step.Run? && step.p < |s.procs| && s.procs[step.p].Writer?
    && |s.procs[step.p].todo| > PIPESIZE
    && (!s.readopen || step.p in s.killed)
    && exists i :: ReaderAsleep(s, i)
  }

  lemma WriterStep(s: Sys, p: nat)
    requires NobodyForgotten(s) && Enabled(s, Run(p)) && s.procs[p].Writer?
    ensures NobodyForgotten(RunWriter(s, p)) <==> !Strands(s, Run(p))
  {
    var t := RunWriter(s, p);
    var todo := s.procs[p].todo;
    if Strands(s, Run(p)) {
      var i :| ReaderAsleep(s, i);
      assert s.queue == [];
      assert ReaderAsleep(t, i);
      assert |t.queue| == PIPESIZE;
    } else {
      if i :| ReaderAsleep(t, i) {
        assert ReaderAsleep(s, i);
        assert false;
      }
      forall i | WriterAsleep(t, i) ensures |t.queue| == PIPESIZE && t.readopen {
        if i != p {
          assert WriterAsleep(s, i);
        }
      }
    }
  }

  lemma ReaderStep(s: Sys, p: nat)
    requires NobodyForgotten(s) && Enabled(s, Run(p)) && s.procs[p].Reader?
    ensures NobodyForgotten(RunReader(s, p))
  {
    var t := RunReader(s, p);
    forall i | ReaderAsleep(t, i) ensures t.queue == [] && t.writeopen {
      if i != p {
        assert ReaderAsleep(s, i);
      }
    }
    if i :| WriterAsleep(t, i) {
      assert WriterAsleep(s, i);
      assert false;
    }
  }

  lemma OtherStep(s: Sys, step: Step)
    requires NobodyForgotten(s) && Enabled(s, step) && !step.Run?
    ensures NobodyForgotten(Do(s, step))
  {
    var t := Do(s, step);
    forall i | ReaderAsleep(t, i) ensures t.queue == [] && t.writeopen {
      assert ReaderAsleep(s, i);
    }
    forall i | WriterAsleep(t, i) ensures |t.queue| == PIPESIZE && t.readopen {
      assert WriterAsleep(s, i);
    }
  }

  /** Exactly one kind of step loses a wakeup. */
  lemma StepForgetsIffStrands(s: Sys, step: Step)
    requires NobodyForgotten(s) && Enabled(s, step)
    ensures NobodyForgotten(Do(s, step)) <==> !Strands(s, step)
  {
    if step.Run? {
      if s.procs[step.p].Writer? {
        WriterStep(s, step.p);
      } else {
        ReaderStep(s, step.p);
      }
    } else {
      OtherStep(s, step);
    }
  }

  ghost predicate Legal(s: Sys, steps: seq<Step>)
    decreases |steps|
  {
    steps == [] || (Enabled(s, steps[0]) && Legal(Do(s, steps[0]), steps[1..]))
  }

  ghost function Exec(s: Sys, steps: seq<Step>): Sys
    requires Legal(s, steps)
    decreases |steps|
  {
    if steps == [] then s else Exec(Do(s, steps[0]), steps[1..])
  }

  ghost predicate NeverStrands(s: Sys, steps: seq<Step>)
    requires Legal(s, steps)
    decreases |steps|
  {
    steps == [] || (!Strands(s, steps[0]) && NeverStrands(Do(s, steps[0]), steps[1..]))
  }

  /** Over any run without that step nobody is forgotten; in particular a reader and a writer never
      both sleep on the same pipe. */
  lemma {:induction false} NoLostWakeup(s: Sys, steps: seq<Step>)
    requires NobodyForgotten(s) && Legal(s, steps) && NeverStrands(s, steps)
    ensures NobodyForgotten(Exec(s, steps))
    ensures forall i, j | ReaderAsleep(Exec(s, steps), i) && WriterAsleep(Exec(s, steps), j) :: false
    decreases |steps|
  {
    if steps != [] {
      StepForgetsIffStrands(s, steps[0]);
      NoLostWakeup(Do(s, steps[0]), steps[1..]);
    }
  }

  // ----- A killed process does not go on sleeping

  ghost predicate NoneKilledAsleep(s: Sys) {
    forall i | ReaderAsleep(s, i) || WriterAsleep(s, i) :: i !in s.killed
  }

  lemma AsleepStep(s: Sys, step: Step)
    requires NoneKilledAsleep(s) && Enabled(s, step)
    ensures NoneKilledAsleep(Do(s, step))
  {
    var t := Do(s, step);
    forall i | ReaderAsleep(t, i) || WriterAsleep(t, i) ensures i !in t.killed {
      if !(step.Run? && step.p == i) {
        assert ReaderAsleep(s, i) || WriterAsleep(s, i);
      }
    }
  }

  /** In every run a process that is killed is not, and will not be, asleep on the pipe: it fails instead. */
  lemma {:induction false} NobodySleepsKilled(s: Sys, steps: seq<Step>)
    requires NoneKilledAsleep(s) && Legal(s, steps)
    ensures NoneKilledAsleep(Exec(s, steps))
    decreases |steps|
  {
    if steps != [] {
      AsleepStep(s, steps[0]);
      NobodySleepsKilled(Do(s, steps[0]), steps[1..]);
    }
  }

  /** The step does happen: from a fresh pipe, with one reader and one killed writer. */
  lemma ReaderCanBeForgotten(addr: seq<char>) returns (steps: seq<Step>)
    requires |addr| > PIPESIZE
    ensures var s := Sys([], true, true, [Away, Away], {});
            && NobodyForgotten(s) && Legal(s, steps)
            && ReaderAsleep(Exec(s, steps), 0) && |Exec(s, steps).queue| == PIPESIZE
  {
    var s := Sys([], true, true, [Away, Away], {});
    steps := [CallRead(0, 1), Run(0), CallWrite(1, addr), Kill(1), Run(1)];
    var s1 := Do(s, steps[0]);
    var s2 := Do(s1, steps[1]);
    var s3 := Do(s2, steps[2]);
    var s4 := Do(s3, steps[3]);
    var s5 := Do(s4, steps[4]);
    assert ReaderAsleep(s2, 0) && ReaderAsleep(s3, 0) && ReaderAsleep(s4, 0) && ReaderAsleep(s5, 0);
    assert steps[4..][1..] == [];
    assert Legal(s5, []);
    assert steps[4..] == [steps[4]];
    assert Legal(s4, steps[4..]) && Exec(s4, steps[4..]) == s5;
    assert steps[3..][1..] == steps[4..];
    assert Legal(s3, steps[3..]) && Exec(s3, steps[3..]) == s5;
    assert steps[2..][1..] == steps[3..];
    assert Legal(s2, steps[2..]) && Exec(s2, steps[2..]) == s5;
    assert steps[1..][1..] == steps[2..];
    assert Legal(s1, steps[1..]) && Exec(s1, steps[1..]) == s5;
  }
}
