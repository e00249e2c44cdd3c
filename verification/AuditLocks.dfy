/** Lock use of the audit system: every operation as the sequence of lock actions of each of
    its paths, run concurrently under fair locks. */
module AuditLocks {

  /** In the order in which nested locks are taken. */
  datatype Lock = Registry | State | Config

  datatype Mode = Shared | Exclusive

  datatype Action = Acquire(lock: Lock, mode: Mode) | Release(lock: Lock)

  function Rank(l: Lock): nat {
    match l case Registry => 0 case State => 1 case Config => 2
  }

  // ---------------------------------------------------------------- the operations

  datatype Operation =
    | Start
    | PauseOrResume
    | Close
    | ReadState
    | Dispatch
    | TargetOperation
    | ReloadConfig
    | Stream(passes: nat)

  /** A section of code that holds a lock. */
  function Holding(l: Lock, m: Mode, inner: seq<Action>): seq<Action> {
    [Acquire(l, m)] + inner + [Release(l)]
  }

  const WRITE_STATE: seq<Action> := Holding(State, Exclusive, [])
  const READ_STATE: seq<Action> := Holding(State, Shared, [])
  const WRITE_CONFIG: seq<Action> := Holding(Config, Exclusive, [])
  const LOCK_REGISTRY: seq<Action> := Holding(Registry, Exclusive, [])

  /** A stream that looks at the state once in each pass of its endless loop; as many passes as
      fit into a run stand for all of them. */
  function Passes(n: nat): seq<Action> {
    if n == 0 then [] else READ_STATE + Passes(n - 1)
  }

  /** The lock actions on each path through an operation. */
  function Paths(op: Operation): set<seq<Action>> {
    match op
    case Start => {
      WRITE_STATE,                                                                          // already started
      WRITE_STATE + WRITE_CONFIG + LOCK_REGISTRY,                                           // no targets
      WRITE_STATE + WRITE_CONFIG + Holding(Registry, Exclusive, WRITE_STATE),               // targets failed
      WRITE_STATE + WRITE_CONFIG + Holding(Registry, Exclusive, WRITE_STATE + WRITE_STATE)  // started
    }
    case PauseOrResume => {WRITE_STATE}
    case Close => {
      WRITE_STATE,                                                                          // already stopped
      WRITE_STATE + Holding(Registry, Exclusive, Holding(State, Exclusive, WRITE_CONFIG))
    }
    case ReadState => {READ_STATE}
    case Dispatch => {READ_STATE, READ_STATE + LOCK_REGISTRY}
    case TargetOperation => {LOCK_REGISTRY}
    case ReloadConfig => {WRITE_CONFIG + LOCK_REGISTRY}
    case Stream(passes) => {Passes(passes)}
  }

  /** Locks are taken in increasing order, released by their holders, and none is kept. */
  ghost predicate Disciplined(rest: seq<Action>, held: set<Lock>) {
    if rest == [] then held == {}
    else match rest[0]
      case Acquire(l, _) => (forall h :: h in held ==> Rank(h) < Rank(l)) && Disciplined(rest[1..], held + {l})
      case Release(l) => l in held && Disciplined(rest[1..], held - {l})
  }

  lemma {:induction false} DisciplinedAppend(a: seq<Action>, b: seq<Action>, held: set<Lock>)
    requires Disciplined(a, held) && Disciplined(b, {})
    ensures Disciplined(a + b, held)
    decreases |a|
  {
    if a == [] {
      assert a + b == b;
    } else {
      assert (a + b)[0] == a[0] && (a + b)[1..] == a[1..] + b;
      match a[0]
      case Acquire(l, _) => DisciplinedAppend(a[1..], b, held + {l});
      case Release(l) => DisciplinedAppend(a[1..], b, held - {l});
    }
  }

  ghost predicate Above(l: Lock, actions: seq<Action>) {
    forall i :: 0 <= i < |actions| ==> Rank(l) < Rank(actions[i].lock)
  }

  lemma {:induction false} DisciplinedInside(l: Lock, inner: seq<Action>, held: set<Lock>)
    requires l !in held && Disciplined(inner, held) && Above(l, inner)
    ensures Disciplined(inner + [Release(l)], held + {l})
    decreases |inner|
  {
    if inner == [] {
      assert [Release(l)][1..] == [] && held + {l} - {l} == {};
    } else {
      var rest := inner + [Release(l)];
      assert rest[0] == inner[0] && rest[1..] == inner[1..] + [Release(l)];
      assert Above(l, inner[1..]);
      match inner[0]
      case Acquire(k, _) =>
        DisciplinedInside(l, inner[1..], held + {k});
        assert held + {k} + {l} == held + {l} + {k};
      case Release(k) =>
        DisciplinedInside(l, inner[1..], held - {k});
        assert held - {k} + {l} == held + {l} - {k};
    }
  }

  /** Holding a lock around a disciplined section of higher locks is disciplined. */
  lemma DisciplinedHolding(l: Lock, m: Mode, inner: seq<Action>)
    requires Disciplined(inner, {}) && Above(l, inner)
    ensures Disciplined(Holding(l, m, inner), {})
  {
    DisciplinedInside(l, inner, {});
    assert Holding(l, m, inner)[1..] == inner + [Release(l)];
    assert {} + {l} == {l};
  }

  lemma SectionsDisciplined()
    ensures Disciplined(WRITE_STATE, {}) && Disciplined(READ_STATE, {})
    ensures Disciplined(WRITE_CONFIG, {}) && Disciplined(LOCK_REGISTRY, {})
  {
    DisciplinedHolding(State, Exclusive, []);
    DisciplinedHolding(State, Shared, []);
    DisciplinedHolding(Config, Exclusive, []);
    DisciplinedHolding(Registry, Exclusive, []);
  }

  lemma {:induction false} PassesDisciplined(n: nat)
    ensures Disciplined(Passes(n), {})
  {
    if n > 0 {
      SectionsDisciplined();
      PassesDisciplined(n - 1);
      DisciplinedAppend(READ_STATE, Passes(n - 1), {});
    }
  }

  lemma StartDisciplined(path: seq<Action>)
    requires path in Paths(Start)
    ensures Disciplined(path, {})
  {
    SectionsDisciplined();
    DisciplinedAppend(WRITE_STATE, WRITE_CONFIG, {});
    DisciplinedAppend(WRITE_STATE + WRITE_CONFIG, LOCK_REGISTRY, {});
    DisciplinedHolding(Registry, Exclusive, WRITE_STATE);
    DisciplinedAppend(WRITE_STATE + WRITE_CONFIG, Holding(Registry, Exclusive, WRITE_STATE), {});
    DisciplinedAppend(WRITE_STATE, WRITE_STATE, {});
    DisciplinedHolding(Registry, Exclusive, WRITE_STATE + WRITE_STATE);
    DisciplinedAppend(WRITE_STATE + WRITE_CONFIG, Holding(Registry, Exclusive, WRITE_STATE + WRITE_STATE), {});
  }

  lemma CloseDisciplined(path: seq<Action>)
    requires path in Paths(Close)
    ensures Disciplined(path, {})
  {
    SectionsDisciplined();
    DisciplinedHolding(State, Exclusive, WRITE_CONFIG);
    DisciplinedHolding(Registry, Exclusive, Holding(State, Exclusive, WRITE_CONFIG));
    DisciplinedAppend(WRITE_STATE, Holding(Registry, Exclusive, Holding(State, Exclusive, WRITE_CONFIG)), {});
  }

  /** Every path of every operation takes the locks in the order registry, state, config. */
  lemma OperationsDisciplined(op: Operation, path: seq<Action>)
    requires path in Paths(op)
    ensures Disciplined(path, {})
  {
    match op
    case Start => StartDisciplined(path);
    case Close => CloseDisciplined(path);
    case PauseOrResume => SectionsDisciplined();
    case ReadState => SectionsDisciplined();
    case Dispatch => SectionsDisciplined(); DisciplinedAppend(READ_STATE, LOCK_REGISTRY, {});
    case TargetOperation => SectionsDisciplined();
    case ReloadConfig => SectionsDisciplined(); DisciplinedAppend(WRITE_CONFIG, LOCK_REGISTRY, {});
    case Stream(passes) => PassesDisciplined(passes);
  }

  // ---------------------------------------------------------------- concurrent runs

  /** A running operation: the actions to come, and the locks it holds. */
  datatype Thread = Thread(rest: seq<Action>, held: map<Lock, Mode>)

  /** waiters lists the operations queued for a lock, in order of arrival. */
  datatype System = System(threads: seq<Thread>, waiters: seq<nat>)

  datatype Step = Request(t: nat) | Grant(t: nat) | Leave(t: nat)

  ghost predicate Wants(s: System, t: nat) {
    t < |s.threads| && s.threads[t].rest != [] && s.threads[t].rest[0].Acquire?
  }

  ghost function Wanted(s: System, t: nat): Lock
    requires Wants(s, t)
  {
    s.threads[t].rest[0].lock
  }

  ghost predicate Blocks(s: System, u: nat, t: nat)
    requires Wants(s, t)
  {
    && u < |s.threads| && u != t && Wanted(s, t) in s.threads[u].held
    && (s.threads[t].rest[0].mode.Exclusive? || s.threads[u].held[Wanted(s, t)].Exclusive?)
  }

  /** t stands in the queue with nobody before it who wants the same lock. */
  ghost predicate IsNext(s: System, t: nat)
    requires Wants(s, t)
  {
    exists i :: 0 <= i < |s.waiters| && s.waiters[i] == t
                && forall j :: 0 <= j < i ==> Wants(s, s.waiters[j]) ==> Wanted(s, s.waiters[j]) != Wanted(s, t)
  }

  ghost predicate Enabled(s: System, step: Step) {
    && step.t < |s.threads| && s.threads[step.t].rest != []
    && match step
       case Request(t) => Wants(s, t) && t !in s.waiters
       case Grant(t) => Wants(s, t) && t in s.waiters && IsNext(s, t) && forall u :: !Blocks(s, u, t)
       case Leave(t) => s.threads[t].rest[0].Release?
  }

  function Without(xs: seq<nat>, t: nat): seq<nat> {
    if xs == [] then [] else (if xs[0] == t then [] else [xs[0]]) + Without(xs[1..], t)
  }

  ghost function Next(s: System, step: Step): System
    requires Enabled(s, step)
  {
    var th := s.threads[step.t];
    match step
    case Request(t) => s.(waiters := s.waiters + [t])
    case Grant(t) =>
      System(s.threads[t := Thread(th.rest[1..], th.held[th.rest[0].lock := th.rest[0].mode])], Without(s.waiters, t))
    case Leave(t) => s.(threads := s.threads[t := Thread(th.rest[1..], th.held - {th.rest[0].lock})])
  }

  ghost function Init(programs: seq<seq<Action>>): System {
    System(seq(|programs|, i requires 0 <= i < |programs| => Thread(programs[i], map[])), [])
  }

  ghost predicate IsRun(programs: seq<seq<Action>>, run: seq<System>, steps: seq<Step>) {
    && |run| == |steps| + 1
    && run[0] == Init(programs)
    && forall k :: 0 <= k < |steps| ==> Enabled(run[k], steps[k]) && run[k + 1] == Next(run[k], steps[k])
  }

  // ---------------------------------------------------------------- invariants

  /** Holders of a lock share it only if they all do. */
  ghost predicate Exclusion(s: System) {
    forall t, u, l ::
      (0 <= t < u < |s.threads| && l in s.threads[t].held && l in s.threads[u].held)
      ==> s.threads[t].held[l].Shared? && s.threads[u].held[l].Shared?
  }

  ghost predicate Orderly(s: System) {
    && (forall t :: 0 <= t < |s.threads| ==> Disciplined(s.threads[t].rest, s.threads[t].held.Keys))
    && (forall t :: t in s.waiters ==> Wants(s, t))
    && Distinct(s.waiters)
  }

  ghost predicate Distinct(xs: seq<nat>) {
    forall i, j :: 0 <= i < j < |xs| ==> xs[i] != xs[j]
  }

  lemma {:induction false} WithoutDistinct(xs: seq<nat>, t: nat)
    requires Distinct(xs)
    ensures Distinct(Without(xs, t))
    ensures |Without(xs, t)| == |xs| - if t in xs then 1 else 0
  {
    if xs != [] {
      assert Distinct(xs[1..]);
      WithoutDistinct(xs[1..], t);
      WithoutContents(xs[1..], t, xs[0]);
      assert forall x :: x in xs[1..] ==> x != xs[0];
    }
  }

  lemma {:induction false} WithoutContents(xs: seq<nat>, t: nat, x: nat)
    ensures x in Without(xs, t) <==> x in xs && x != t
  {
    if xs != [] { WithoutContents(xs[1..], t, x); }
  }

  lemma OrderlyStep(s: System, step: Step)
    requires Orderly(s) && Enabled(s, step)
    ensures Orderly(Next(s, step))
  {
    var n := Next(s, step);
    var th := s.threads[step.t];
    assert Disciplined(th.rest, th.held.Keys);
    if step.Grant? {
      assert n.threads[step.t].held.Keys == th.held.Keys + {th.rest[0].lock};
    } else if step.Leave? {
      assert n.threads[step.t].held.Keys == th.held.Keys - {th.rest[0].lock};
      assert step.t !in s.waiters;
    }
    forall x | x in n.waiters ensures Wants(n, x) {
      if step.Grant? { WithoutContents(s.waiters, step.t, x); }
    }
    WithoutDistinct(s.waiters, step.t);
  }

  lemma ExclusionStep(s: System, step: Step)
    requires Exclusion(s) && Orderly(s) && Enabled(s, step)
    ensures Exclusion(Next(s, step))
  {
    if step.Grant? {
      var n := Next(s, step);
      forall t, u, l | 0 <= t < u < |n.threads| && l in n.threads[t].held && l in n.threads[u].held
        ensures n.threads[t].held[l].Shared? && n.threads[u].held[l].Shared?
      {
        assert !Blocks(s, t, step.t) && !Blocks(s, u, step.t);
      }
    }
  }

  /** In every interleaving, a lock held exclusively has one holder, and every operation still
      takes its locks in order. */
  lemma {:induction false} EveryState(programs: seq<seq<Action>>, run: seq<System>, steps: seq<Step>, k: nat)
    requires forall i :: 0 <= i < |programs| ==> Disciplined(programs[i], {})
    requires IsRun(programs, run, steps) && k < |run|
    ensures Exclusion(run[k]) && Orderly(run[k])
  {
    if k > 0 {
      EveryState(programs, run, steps, k - 1);
      OrderlyStep(run[k - 1], steps[k - 1]);
      ExclusionStep(run[k - 1], steps[k - 1]);
      assert run[k - 1 + 1] == Next(run[k - 1], steps[k - 1]);
    } else {
      var none: map<Lock, Mode> := map[];
      assert none.Keys == {};
    }
  }

  // ---------------------------------------------------------------- no deadlock

  /** Among those queued there is one that wants the highest lock and comes first for it. */
  lemma {:induction false} TopWaiter(s: System, n: nat) returns (i: nat)
    requires Orderly(s) && 0 < n <= |s.waiters|
    ensures i < n && Wants(s, s.waiters[i])
    ensures forall j :: 0 <= j < n ==> Wants(s, s.waiters[j]) && Rank(Wanted(s, s.waiters[j])) <= Rank(Wanted(s, s.waiters[i]))
    ensures forall j :: 0 <= j < i ==> Wanted(s, s.waiters[j]) != Wanted(s, s.waiters[i])
  {
    assert s.waiters[n - 1] in s.waiters;
    if n == 1 {
      return 0;
    }
    i := TopWaiter(s, n - 1);
    if Rank(Wanted(s, s.waiters[n - 1])) > Rank(Wanted(s, s.waiters[i])) {
      i := n - 1;
    }
  }

  /** A holder of locks that is queued wants a lock above all of them. */
  lemma HolderWantsHigher(s: System, u: nat, l: Lock)
    requires Orderly(s) && u < |s.threads| && l in s.threads[u].held
    ensures s.threads[u].rest != []
    ensures Wants(s, u) ==> Rank(l) < Rank(Wanted(s, u))
  {
    assert Disciplined(s.threads[u].rest, s.threads[u].held.Keys);
  }

  /** Whenever an operation is unfinished, some operation can take a step. */
  lemma NoDeadlock(s: System)
    requires Orderly(s) && exists t :: 0 <= t < |s.threads| && s.threads[t].rest != []
    ensures exists step :: Enabled(s, step)
  {
    var t :| 0 <= t < |s.threads| && s.threads[t].rest != [];
    if u: nat :| u < |s.threads| && s.threads[u].rest != [] && u !in s.waiters {
      if Wants(s, u) {
        assert Enabled(s, Request(u));
      } else {
        assert Enabled(s, Leave(u));
      }
    } else {
      assert t in s.waiters;
      var i := TopWaiter(s, |s.waiters|);
      var w := s.waiters[i];
      assert IsNext(s, w);
      forall u ensures !Blocks(s, u, w) {
        if Blocks(s, u, w) {
          HolderWantsHigher(s, u, Wanted(s, w));
        }
      }
      assert Enabled(s, Grant(w));
    }
  }

  /** t cannot go on before u does: u holds the lock t wants in a conflicting way, or stands
      before t in the queue for it. */
  ghost predicate WaitsFor(s: System, t: nat, u: nat) {
    && Wants(s, t) && t in s.waiters
    && (Blocks(s, u, t) ||
        exists i, j :: 0 <= i < j < |s.waiters| && s.waiters[i] == u && s.waiters[j] == t
                       && Wants(s, u) && Wanted(s, u) == Wanted(s, t))
  }

  ghost predicate WaitChain(s: System, p: seq<nat>) {
    |p| > 0 && forall i :: 0 <= i < |p| - 1 ==> WaitsFor(s, p[i], p[i + 1])
  }

  ghost function Position(s: System, t: nat): nat
    requires t in s.waiters
  {
    var i :| 0 <= i < |s.waiters| && s.waiters[i] == t; i
  }

  /** u wants a higher lock than t, or the same one and stands before t. */
  ghost predicate Ahead(s: System, t: nat, u: nat)
    requires Wants(s, t) && Wants(s, u) && t in s.waiters && u in s.waiters
  {
    || Rank(Wanted(s, t)) < Rank(Wanted(s, u))
    || (Wanted(s, t) == Wanted(s, u) && Position(s, u) < Position(s, t))
  }

  lemma WaitsForAhead(s: System, t: nat, u: nat)
    requires Orderly(s) && WaitsFor(s, t, u) && u in s.waiters
    ensures Wants(s, u) && Ahead(s, t, u)
  {
    if Blocks(s, u, t) {
      HolderWantsHigher(s, u, Wanted(s, t));
    }
  }

  lemma {:induction false} ChainAhead(s: System, p: seq<nat>)
    requires Orderly(s) && WaitChain(s, p) && |p| > 1 && p[|p| - 1] in s.waiters
    ensures Wants(s, p[0]) && p[0] in s.waiters && Wants(s, p[|p| - 1]) && Ahead(s, p[0], p[|p| - 1])
    decreases |p|
  {
    assert WaitsFor(s, p[0], p[0 + 1]);
    if |p| == 2 {
      WaitsForAhead(s, p[0], p[1]);
    } else {
      var q := p[1..];
      forall i | 0 <= i < |q| - 1 ensures WaitsFor(s, q[i], q[i + 1]) {
        assert WaitsFor(s, p[i + 1], p[i + 1 + 1]);
      }
      ChainAhead(s, q);
      WaitsForAhead(s, p[0], p[1]);
    }
  }

  /** No interleaving of the operations ever reaches a cyclic wait. */
  lemma NoWaitCycle(
    ops: seq<Operation>, programs: seq<seq<Action>>, run: seq<System>, steps: seq<Step>, k: nat, p: seq<nat>)
    requires |ops| == |programs| && forall i :: 0 <= i < |ops| ==> programs[i] in Paths(ops[i])
    requires IsRun(programs, run, steps) && k < |run|
    requires WaitChain(run[k], p) && |p| > 1
    ensures p[0] != p[|p| - 1]
  {
    forall i | 0 <= i < |programs| ensures Disciplined(programs[i], {}) {
      OperationsDisciplined(ops[i], programs[i]);
    }
    EveryState(programs, run, steps, k);
    assert WaitsFor(run[k], p[0], p[0 + 1]);
    if p[0] == p[|p| - 1] {
      ChainAhead(run[k], p);
    }
  }

  // ---------------------------------------------------------------- every run ends

  /** Steps an action sequence takes: two to obtain a lock, one to give it back. */
  function Cost(rest: seq<Action>): nat {
    if rest == [] then 0 else (if rest[0].Acquire? then 2 else 1) + Cost(rest[1..])
  }

  function TotalCost(threads: seq<Thread>): nat {
    if threads == [] then 0 else Cost(threads[0].rest) + TotalCost(threads[1..])
  }

  lemma {:induction false} TotalCostUpdate(threads: seq<Thread>, t: nat, th: Thread)
    requires t < |threads|
    ensures TotalCost(threads[t := th]) + Cost(threads[t].rest) == TotalCost(threads) + Cost(th.rest)
    decreases |threads|
  {
    if t == 0 {
      assert threads[t := th][1..] == threads[1..];
    } else {
      assert threads[t := th][1..] == threads[1..][t - 1 := th];
      TotalCostUpdate(threads[1..], t - 1, th);
    }
  }

  lemma StepCost(s: System, step: Step)
    requires Orderly(s) && Enabled(s, step)
    ensures TotalCost(Next(s, step).threads) - |Next(s, step).waiters| == TotalCost(s.threads) - |s.waiters| - 1
  {
    if !step.Request? {
      TotalCostUpdate(s.threads, step.t, Next(s, step).threads[step.t]);
    }
    WithoutDistinct(s.waiters, step.t);
  }

  lemma {:induction false} NothingLeft(threads: seq<Thread>)
    requires forall t :: 0 <= t < |threads| ==> threads[t].rest == []
    ensures TotalCost(threads) == 0
  {
    if threads != [] { NothingLeft(threads[1..]); }
  }

  lemma {:induction false} RunCost(programs: seq<seq<Action>>, run: seq<System>, steps: seq<Step>, k: nat)
    requires forall i :: 0 <= i < |programs| ==> Disciplined(programs[i], {})
    requires IsRun(programs, run, steps) && k < |run|
    ensures k + TotalCost(run[k].threads) - |run[k].waiters| == TotalCost(Init(programs).threads)
  {
    if k > 0 {
      RunCost(programs, run, steps, k - 1);
      EveryState(programs, run, steps, k - 1);
      StepCost(run[k - 1], steps[k - 1]);
      assert run[k - 1 + 1] == Next(run[k - 1], steps[k - 1]);
    }
  }

  ghost predicate AllFinished(s: System) {
    forall t :: 0 <= t < |s.threads| ==> s.threads[t].rest == [] && s.threads[t].held == map[]
  }

  lemma WaiterUnfinished(s: System)
    requires Orderly(s) && s.waiters != []
    ensures exists t :: 0 <= t < |s.threads| && s.threads[t].rest != []
  {
    assert s.waiters[0] in s.waiters;
  }

  /** Any set of operations, on any of their paths and in any interleaving: a run that cannot
      be extended has finished them all, and always takes the same number of steps. */
  lemma AllOperationsFinish(
    ops: seq<Operation>, programs: seq<seq<Action>>, run: seq<System>, steps: seq<Step>, last: System)
    requires |ops| == |programs| && forall i :: 0 <= i < |ops| ==> programs[i] in Paths(ops[i])
    requires IsRun(programs, run, steps) && last == run[|run| - 1]
    requires forall step :: !Enabled(last, step)
    ensures |last.threads| == |ops| && AllFinished(last)
    ensures |steps| == TotalCost(Init(programs).threads)
  {
    forall i | 0 <= i < |programs| ensures Disciplined(programs[i], {}) {
      OperationsDisciplined(ops[i], programs[i]);
    }
    EveryState(programs, run, steps, |run| - 1);
    RunCost(programs, run, steps, |run| - 1);
    SameThreads(programs, run, steps, |run| - 1);
    if last.waiters != [] { WaiterUnfinished(last); }
    if t :| 0 <= t < |last.threads| && last.threads[t].rest != [] {
      NoDeadlock(last);
    }
    NothingLeft(last.threads);
    forall t | 0 <= t < |last.threads| ensures last.threads[t].held == map[] {
      assert Disciplined(last.threads[t].rest, last.threads[t].held.Keys);
    }
  }

  lemma {:induction false} SameThreads(programs: seq<seq<Action>>, run: seq<System>, steps: seq<Step>, k: nat)
    requires IsRun(programs, run, steps) && k < |run|
    ensures |run[k].threads| == |programs|
  {
    if k > 0 {
      SameThreads(programs, run, steps, k - 1);
      assert run[k - 1 + 1] == Next(run[k - 1], steps[k - 1]);
    }
  }
}
