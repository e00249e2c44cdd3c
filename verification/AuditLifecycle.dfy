/** The lifecycle of the audit system under concurrent operations. Each hold of the state lock
    reads or sets the state once and is one step; the registry lock is held across
    steps, and what the target registry answers is a step input. */
module AuditLifecycle {

  type Pid = nat

  datatype Lifecycle = Stopped | Starting | Running | Paused | Stopping

  /** How far an operation has come. A start checks the state, waits for the registry, creates
      its targets, raises the state to starting and ends as running; a close marks the system as
      stopping, waits for the registry and ends as stopped. */
  datatype Phase =
    | StartArrived
    | StartPassed
    | StartInside
    | StartRaised
    | CloseArrived
    | CloseMarked
    | CloseInside
    | Ended

  /** `raised` lists the starts that have raised the state, in order. */
  datatype System = System(state: Lifecycle, holder: set<Pid>, ops: map<Pid, Phase>, raised: seq<Pid>)

  datatype Targets = NoTargets | Failed | Created

  datatype Step =
    | ArriveStart(p: Pid)
    | ArriveClose(p: Pid)
    | CheckStart(p: Pid)
    | EnterStart(p: Pid)
    | Create(p: Pid, targets: Targets)
    | FinishStart(p: Pid)
    | CheckClose(p: Pid)
    | EnterClose(p: Pid)
    | FinishClose(p: Pid)
    | Pause
    | Resume

  const INIT: System := System(Stopped, {}, map[], [])

  ghost predicate At(s: System, p: Pid, phase: Phase) {
    p in s.ops && s.ops[p] == phase
  }

  ghost predicate Enabled(s: System, step: Step) {
    match step
    case ArriveStart(p) => p !in s.ops
    case ArriveClose(p) => p !in s.ops
    case CheckStart(p) => At(s, p, StartArrived)
    case EnterStart(p) => At(s, p, StartPassed) && s.holder == {}
    case Create(p, _) => At(s, p, StartInside)
    case FinishStart(p) => At(s, p, StartRaised)
    case CheckClose(p) => At(s, p, CloseArrived)
    case EnterClose(p) => At(s, p, CloseMarked) && s.holder == {}
    case FinishClose(p) => At(s, p, CloseInside)
    case Pause => true
    case Resume => true
  }

  ghost function To(s: System, p: Pid, phase: Phase): System {
    s.(ops := s.ops[p := phase])
  }

  ghost function Next(s: System, step: Step): System
    requires Enabled(s, step)
  {
    match step
    case ArriveStart(p) => To(s, p, StartArrived)
    case ArriveClose(p) => To(s, p, CloseArrived)
    case CheckStart(p) => To(s, p, if s.state.Running? || s.state.Starting? then Ended else StartPassed)
    case EnterStart(p) => To(s, p, StartInside).(holder := {p})
    case Create(p, targets) =>
      (match targets
       case NoTargets => To(s, p, Ended).(holder := {})
       case Failed => To(s, p, Ended).(holder := {}, state := Stopped)
       case Created => To(s, p, StartRaised).(state := Starting, raised := s.raised + [p]))
    case FinishStart(p) => To(s, p, Ended).(holder := {}, state := Running)
    case CheckClose(p) =>
      if s.state.Stopped? || s.state.Stopping? then To(s, p, Ended)
      else To(s, p, CloseMarked).(state := Stopping)
    case EnterClose(p) => To(s, p, CloseInside).(holder := {p})
    case FinishClose(p) => To(s, p, Ended).(holder := {}, state := Stopped)
    case Pause => if s.state.Running? then s.(state := Paused) else s
    case Resume => if s.state.Paused? then s.(state := Running) else s
  }

  ghost predicate IsRun(run: seq<System>, steps: seq<Step>) {
    && |run| == |steps| + 1 && run[0] == INIT
    && forall i :: 0 <= i < |steps| ==> Follows(run[i], steps[i], run[i + 1])
  }

  ghost predicate Follows(s: System, step: Step, t: System) {
    Enabled(s, step) && t == Next(s, step)
  }

  // ---------------------------------------------------------------- every run

  ghost predicate Inside(s: System, p: Pid) {
    At(s, p, StartInside) || At(s, p, StartRaised) || At(s, p, CloseInside)
  }

  ghost predicate Closing(s: System, p: Pid) {
    At(s, p, CloseMarked) || At(s, p, CloseInside)
  }

  /** The registry has one user at a time; the state is starting only while a start that raised
      it is at work, and stopping only while a close is. */
  ghost predicate Invariant(s: System) {
    && (forall p :: Inside(s, p) <==> p in s.holder)
    && (forall p, q :: p in s.holder && q in s.holder ==> p == q)
    && (s.state.Starting? ==> exists p :: At(s, p, StartRaised))
    && (s.state.Stopping? ==> exists p :: Closing(s, p))
  }

  lemma StepKeepsHolder(s: System, step: Step)
    requires Invariant(s) && Enabled(s, step)
    ensures forall p :: Inside(Next(s, step), p) <==> p in Next(s, step).holder
    ensures forall p, q :: p in Next(s, step).holder && q in Next(s, step).holder ==> p == q
  {
    var n := Next(s, step);
    if step.Create? || step.FinishStart? || step.FinishClose? {
      assert Inside(s, step.p);
      assert s.holder == {step.p};
    }
    forall x ensures Inside(n, x) <==> x in n.holder {
      assert Inside(s, x) <==> x in s.holder;
    }
  }

  lemma StepKeepsStarting(s: System, step: Step)
    requires Invariant(s) && Enabled(s, step)
    ensures Next(s, step).state.Starting? ==> exists p :: At(Next(s, step), p, StartRaised)
  {
    var n := Next(s, step);
    if n.state.Starting? {
      if step.Create? && step.targets.Created? {
        assert At(n, step.p, StartRaised);
      } else {
        var p :| At(s, p, StartRaised);
        if step.Create? {
          assert Inside(s, p) && Inside(s, step.p);
        }
        assert At(n, p, StartRaised);
      }
    }
  }

  lemma StepKeepsStopping(s: System, step: Step)
    requires Invariant(s) && Enabled(s, step)
    ensures Next(s, step).state.Stopping? ==> exists p :: Closing(Next(s, step), p)
  {
    var n := Next(s, step);
    if n.state.Stopping? {
      if step.CheckClose? && !s.state.Stopping? {
        assert Closing(n, step.p);
      } else {
        var p :| Closing(s, p);
        assert Closing(n, p);
      }
    }
  }

  lemma {:induction false} EveryState(run: seq<System>, steps: seq<Step>, i: nat)
    requires IsRun(run, steps) && i < |run|
    ensures Invariant(run[i])
  {
    if i > 0 {
      EveryState(run, steps, i - 1);
      assert Follows(run[i - 1], steps[i - 1], run[i - 1 + 1]);
      StepKeepsHolder(run[i - 1], steps[i - 1]);
      StepKeepsStarting(run[i - 1], steps[i - 1]);
      StepKeepsStopping(run[i - 1], steps[i - 1]);
    }
  }

  /** In every run no two operations use the registry at once, and whenever all operations have
      ended the system is stopped, running or paused. */
  lemma SettledState(run: seq<System>, steps: seq<Step>, i: nat, p: Pid, q: Pid)
    requires IsRun(run, steps) && i < |run|
    ensures Inside(run[i], p) && Inside(run[i], q) ==> p == q
    ensures (forall o :: o in run[i].ops ==> run[i].ops[o].Ended?) ==>
              run[i].state.Stopped? || run[i].state.Running? || run[i].state.Paused?
  {
    EveryState(run, steps, i);
  }

  // ---------------------------------------------------------------- closing and pausing

  /** A close that ends, or a start that fails to create its targets. */
  predicate Stops(step: Step) {
    step.FinishClose? || (step.Create? && step.targets.Failed?)
  }

  predicate Raises(step: Step) {
    step.Create? && step.targets.Created?
  }

  ghost predicate NoneBetween(steps: seq<Step>, i: nat, j: nat, bad: Step -> bool) {
    forall k :: i < k < j && k < |steps| ==> !bad(steps[k])
  }

  /** Stopped, and no start is about to end as running. */
  ghost predicate Idle(s: System) {
    s.state.Stopped? && forall p :: !At(s, p, StartRaised)
  }

  lemma StopIsIdle(s: System, step: Step)
    requires Invariant(s) && Enabled(s, step) && Stops(step)
    ensures Idle(Next(s, step))
  {
    var n := Next(s, step);
    forall q ensures !At(n, q, StartRaised) {
      if At(n, q, StartRaised) {
        assert Inside(s, q) && Inside(s, step.p);
      }
    }
  }

  lemma IdleStays(s: System, step: Step)
    requires Idle(s) && Enabled(s, step) && !Raises(step)
    ensures Idle(Next(s, step))
  {
    var n := Next(s, step);
    forall q ensures !At(n, q, StartRaised) {
      assert !At(s, q, StartRaised);
    }
  }

  /** Once a close has ended, or a start has failed, the system is stopped and stays so until a
      start has created targets, whatever else is going on. */
  lemma {:induction false} StaysStopped(run: seq<System>, steps: seq<Step>, i: nat, j: nat)
    requires IsRun(run, steps) && i < j < |run| && Stops(steps[i]) && NoneBetween(steps, i, j, Raises)
    ensures Idle(run[j])
    decreases j
  {
    assert Follows(run[j - 1], steps[j - 1], run[j - 1 + 1]);
    if j == i + 1 {
      EveryState(run, steps, i);
      StopIsIdle(run[i], steps[i]);
    } else {
      StaysStopped(run, steps, i, j - 1);
      IdleStays(run[j - 1], steps[j - 1]);
    }
  }

  /** Steps that may end a pause: a resume, a close, or a start that goes on. */
  predicate EndsPause(step: Step) {
    step.Resume? || step.CheckClose? || step.FinishClose? || step.FinishStart? || (step.Create? && !step.targets.NoTargets?)
  }

  /** A running system that is paused stays paused until one of these, and resuming it makes it
      run again; pausing any other, or resuming one that is not paused, changes nothing. */
  lemma {:induction false} StaysPaused(run: seq<System>, steps: seq<Step>, i: nat, j: nat)
    requires IsRun(run, steps) && i < j < |run| && steps[i] == Pause
    ensures !run[i].state.Running? ==> run[i + 1] == run[i]
    ensures run[i].state.Running? && NoneBetween(steps, i, j, EndsPause) ==>
              run[j].state.Paused? && (j < |steps| && steps[j].Resume? ==> run[j + 1].state.Running?)
    decreases j
  {
    assert Follows(run[i], steps[i], run[i + 1]);
    assert Follows(run[j - 1], steps[j - 1], run[j - 1 + 1]);
    if j > i + 1 {
      StaysPaused(run, steps, i, j - 1);
    }
    if j < |steps| {
      assert Follows(run[j], steps[j], run[j + 1]);
    }
  }

  lemma ResumeOnlyPaused(run: seq<System>, steps: seq<Step>, i: nat)
    requires IsRun(run, steps) && i < |steps| && steps[i] == Resume && !run[i].state.Paused?
    ensures run[i + 1] == run[i]
  {
    assert Follows(run[i], steps[i], run[i + 1]);
  }

  // ---------------------------------------------------------------- concurrent starts

  /** Nothing but starts, none of which fails to create its targets. */
  ghost predicate OnlyStarts(steps: seq<Step>, n: nat)
    requires n <= |steps|
  {
    forall i :: 0 <= i < n ==> IsStart(steps[i])
  }

  predicate IsStart(step: Step) {
    match step
    case Create(_, targets) => !targets.Failed?
    case _ => step.ArriveStart? || step.CheckStart? || step.EnterStart? || step.FinishStart?
  }

  /** Among starts alone the state tells whether one of them has raised it. */
  lemma {:induction false} RaisedTellsState(run: seq<System>, steps: seq<Step>, n: nat)
    requires IsRun(run, steps) && n <= |steps| && OnlyStarts(steps, n)
    ensures Told(run[n])
    decreases n
  {
    if n > 0 {
      RaisedTellsState(run, steps, n - 1);
      EveryState(run, steps, n - 1);
      assert Follows(run[n - 1], steps[n - 1], run[n - 1 + 1]);
      RaisedStep(run[n - 1], steps[n - 1]);
    }
  }

  ghost predicate Told(s: System) {
    && s.state == (if s.raised == [] then Stopped
                   else if exists p :: At(s, p, StartRaised) then Starting else Running)
    && forall p :: At(s, p, StartRaised) ==> p in s.raised
  }

  lemma RaisedStep(s: System, step: Step)
    requires Invariant(s) && Told(s) && Enabled(s, step) && IsStart(step)
    ensures Told(Next(s, step))
  {
    var n := Next(s, step);
    match step
    case Create(p, Created) => assert At(n, p, StartRaised);
    case Create(p, NoTargets) => SameRaised(s, n, p);
    case FinishStart(p) =>
      assert p in s.raised;
      forall q ensures !At(n, q, StartRaised) {
        if At(n, q, StartRaised) { assert Inside(s, q) && Inside(s, p); }
      }
    case ArriveStart(p) => SameRaised(s, n, p);
    case CheckStart(p) => SameRaised(s, n, p);
    case EnterStart(p) => SameRaised(s, n, p);
  }

  lemma SameRaised(s: System, n: System, p: Pid)
    requires !At(s, p, StartRaised) && p in n.ops && !n.ops[p].StartRaised? && n.ops == s.ops[p := n.ops[p]]
    ensures forall q :: At(n, q, StartRaised) <==> At(s, q, StartRaised)
  {
  }

  /** Among starts alone, one passes its check if and only if no start has raised the state yet,
      however many have passed theirs. */
  lemma StartPassesIff(run: seq<System>, steps: seq<Step>, j: nat, p: Pid)
    requires IsRun(run, steps) && j < |steps| && OnlyStarts(steps, j) && steps[j] == CheckStart(p)
    ensures At(run[j + 1], p, StartPassed) <==> run[j].raised == []
  {
    RaisedTellsState(run, steps, j);
    assert Follows(run[j], steps[j], run[j + 1]);
  }

  ghost predicate ReachedByStarts(s: System) {
    exists run, steps :: IsRun(run, steps) && OnlyStarts(steps, |steps|) && run[|run| - 1] == s
  }

  lemma ReachedStep(s: System, step: Step)
    requires ReachedByStarts(s) && Enabled(s, step) && IsStart(step)
    ensures ReachedByStarts(Next(s, step))
  {
    var run, steps :| IsRun(run, steps) && OnlyStarts(steps, |steps|) && run[|run| - 1] == s;
    var run', steps' := run + [Next(s, step)], steps + [step];
    ExtendRun(run, steps, step, run', steps');
    assert run'[|run'| - 1] == Next(s, step);
  }

  lemma ExtendRun(run: seq<System>, steps: seq<Step>, step: Step, run': seq<System>, steps': seq<Step>)
    requires IsRun(run, steps) && OnlyStarts(steps, |steps|)
    requires Enabled(run[|run| - 1], step) && IsStart(step)
    requires run' == run + [Next(run[|run| - 1], step)] && steps' == steps + [step]
    ensures IsRun(run', steps') && OnlyStarts(steps', |steps'|)
  {
    forall i | 0 <= i < |steps'| ensures Follows(run'[i], steps'[i], run'[i + 1]) {
      if i < |steps| {
        assert Follows(run[i], steps[i], run[i + 1]);
      }
    }
  }

  lemma BothPassed() returns (s: System)
    ensures ReachedByStarts(s) && s == System(Stopped, {}, map[0 := StartPassed, 1 := StartPassed], [])
  {
    assert IsRun([INIT], []) && OnlyStarts([], 0);
    ReachedStep(INIT, ArriveStart(0));
    s := To(INIT, 0, StartArrived);
    ReachedStep(s, ArriveStart(1));
    s := To(s, 1, StartArrived);
    ReachedStep(s, CheckStart(0));
    s := To(s, 0, StartPassed);
    ReachedStep(s, CheckStart(1));
    s := To(s, 1, StartPassed);
  }

  /** So a system that several starts check before the first of them raises the state is started
      as often: here a second time while it is already running. */
  lemma StartedTwice() returns (s: System, t: System)
    ensures ReachedByStarts(s) && s.state.Running? && s.raised == [0]
    ensures Enabled(s, EnterStart(1)) && Enabled(Next(s, EnterStart(1)), Create(1, Created))
    ensures t == Next(Next(s, EnterStart(1)), Create(1, Created))
    ensures ReachedByStarts(t) && t.state.Starting? && t.raised == [0, 1]
  {
    s := BothPassed();
    ReachedStep(s, EnterStart(0));
    s := Next(s, EnterStart(0));
    ReachedStep(s, Create(0, Created));
    s := Next(s, Create(0, Created));
    ReachedStep(s, FinishStart(0));
    s := Next(s, FinishStart(0));
    ReachedStep(s, EnterStart(1));
    ReachedStep(Next(s, EnterStart(1)), Create(1, Created));
    t := Next(Next(s, EnterStart(1)), Create(1, Created));
  }
}
