/** The refresh of the in-memory usage cache as interleaved steps of any number of readers.

    A stretch of code that holds the flag lock contains no await, so each such stretch is one
    step. Ages come from the clock and are step inputs. */
module UsageRefresh {
  import opened Arith

  type Pid = nat

  const TTL_SECS: nat := 30
  const MAX_TRIES: nat := 10

  /** Where a reader of the cache stands; a refresh in flight is `Loading`, whether it runs in
      the reader or in the background job it spawned. */
  datatype Reader =
    | Checking
    | Background
    | Foreground(tries: nat)
    | Loading
    | Finished

  /** gaveUp records the foreground readers that used up their tries. */
  datatype State = State(updating: bool, readers: map<Pid, Reader>, gaveUp: set<Pid>)

  datatype Step =
    | Arrive(p: Pid)
    | Check(p: Pid, age: nat)
    | TryBackground(p: Pid)
    | TryForeground(p: Pid)
    | Finish(p: Pid)

  const INIT: State := State(false, map[], {})

  ghost predicate Enabled(s: State, step: Step) {
    match step
    case Arrive(p) => p !in s.readers
    case Check(p, _) => p in s.readers && s.readers[p].Checking?
    case TryBackground(p) => p in s.readers && s.readers[p].Background?
    case TryForeground(p) => p in s.readers && s.readers[p].Foreground?
    case Finish(p) => p in s.readers && s.readers[p].Loading?
  }

  function Classify(age: nat): Reader {
    if age < TTL_SECS then Finished else if age < 2 * TTL_SECS then Background else Foreground(0)
  }

  ghost function Next(s: State, step: Step): State
    requires Enabled(s, step)
  {
    match step
    case Arrive(p) => s.(readers := s.readers[p := Checking])
    case Check(p, age) => s.(readers := s.readers[p := Classify(age)])
    case TryBackground(p) =>
      if s.updating then s.(readers := s.readers[p := Finished])
      else s.(updating := true, readers := s.readers[p := Loading])
    case TryForeground(p) =>
      var tries := s.readers[p].tries;
      if tries < MAX_TRIES && s.updating then s.(readers := s.readers[p := Foreground(tries + 1)])
      else State(true, s.readers[p := Loading], if tries < MAX_TRIES then s.gaveUp else s.gaveUp + {p})
    case Finish(p) => s.(updating := false, readers := s.readers[p := Finished])
  }

  ghost function InFlight(s: State): set<Pid> {
    set p | p in s.readers && s.readers[p].Loading?
  }

  ghost function One(b: bool): nat {
    if b then 1 else 0
  }

  // ---------------------------------------------------------------- runs

  /** The states of a run, one more than its steps. */
  ghost predicate IsRun(run: seq<State>, steps: seq<Step>) {
    && |run| == |steps| + 1
    && run[0] == INIT
    && forall i :: 0 <= i < |steps| ==> Enabled(run[i], steps[i]) && run[i + 1] == Next(run[i], steps[i])
  }

  /** At most one refresh per raised flag, and one more for every reader that gave up. */
  ghost predicate Bounded(s: State) {
    && |InFlight(s)| <= One(s.updating) + |s.gaveUp|
    && (s.gaveUp == {} ==> |InFlight(s)| == One(s.updating))
  }

  ghost predicate WellFormed(s: State) {
    && (forall p :: p in s.gaveUp ==> p in s.readers && (s.readers[p].Loading? || s.readers[p].Finished?))
    && (forall p :: p in s.readers && s.readers[p].Foreground? ==> s.readers[p].tries <= MAX_TRIES)
  }

  lemma InFlightStep(s: State, step: Step, p: Pid)
    requires Enabled(s, step) && p == step.p
    ensures InFlight(Next(s, step)) == if Next(s, step).readers[p].Loading? then InFlight(s) + {p} else InFlight(s) - {p}
    ensures p in InFlight(s) <==> step.Finish?
  {
  }

  lemma WellFormedStep(s: State, step: Step)
    requires WellFormed(s) && Enabled(s, step)
    ensures WellFormed(Next(s, step))
  {
  }

  lemma BoundedStep(s: State, step: Step)
    requires Bounded(s) && WellFormed(s) && Enabled(s, step)
    ensures Bounded(Next(s, step))
  {
    InFlightStep(s, step, step.p);
    var t := Next(s, step);
    if step.Finish? {
      assert |InFlight(t)| == |InFlight(s)| - 1;
    } else if t.readers[step.p].Loading? {
      assert |InFlight(t)| == |InFlight(s)| + 1;
      assert step.p !in s.gaveUp;
    } else {
      assert InFlight(t) == InFlight(s);
    }
  }

  /** In every interleaving, the refreshes in flight are at most the flag plus the readers
      that gave up; while nobody has given up, the flag is up exactly while one is in flight. */
  lemma {:induction false} RefreshesBounded(run: seq<State>, steps: seq<Step>, i: nat)
    requires IsRun(run, steps) && i < |run|
    ensures Bounded(run[i]) && WellFormed(run[i])
  {
    if i > 0 {
      RefreshesBounded(run, steps, i - 1);
      BoundedStep(run[i - 1], steps[i - 1]);
      WellFormedStep(run[i - 1], steps[i - 1]);
      assert run[i - 1 + 1] == Next(run[i - 1], steps[i - 1]);
    }
  }

  // ---------------------------------------------------------------- what the age decides

  /** The reader checks the age in step i, and j is later. */
  ghost predicate CheckedAt(run: seq<State>, steps: seq<Step>, i: nat, j: nat, p: Pid, age: nat) {
    IsRun(run, steps) && i < j < |run| && steps[i] == Check(p, age)
  }

  ghost predicate LoadedBetween(run: seq<State>, i: nat, j: nat, p: Pid) {
    exists k :: i < k < j < |run| && p in run[k].readers && run[k].readers[p].Loading?
  }

  /** After reading an age below thirty seconds a reader never refreshes and never waits. */
  lemma {:induction false} FreshIsLeftAlone(run: seq<State>, steps: seq<Step>, i: nat, j: nat, p: Pid, age: nat)
    requires CheckedAt(run, steps, i, j, p, age) && age < 30
    ensures p in run[j].readers && run[j].readers[p].Finished?
    decreases j
  {
    assert run[j - 1 + 1] == Next(run[j - 1], steps[j - 1]);
    if j > i + 1 {
      FreshIsLeftAlone(run, steps, i, j - 1, p, age);
    }
  }

  /** The reader finds the flag up when it tries. */
  ghost predicate BusyBetween(run: seq<State>, steps: seq<Step>, i: nat, j: nat, p: Pid) {
    exists k :: i < k < j && k < |steps| && k < |run| && steps[k] == TryBackground(p) && run[k].updating
  }

  /** From there and below sixty seconds it never waits: it is about to try once, at work, or
      done, and then it has refreshed or found the flag up. */
  lemma {:induction false} StaleDoesNotWait(run: seq<State>, steps: seq<Step>, i: nat, j: nat, p: Pid, age: nat)
    requires CheckedAt(run, steps, i, j, p, age) && 30 <= age < 60
    ensures p in run[j].readers
    ensures run[j].readers[p].Background? || run[j].readers[p].Loading?
            || (run[j].readers[p].Finished? && (LoadedBetween(run, i, j, p) || BusyBetween(run, steps, i, j, p)))
    decreases j
  {
    assert run[j - 1 + 1] == Next(run[j - 1], steps[j - 1]);
    if j > i + 1 {
      StaleDoesNotWait(run, steps, i, j - 1, p, age);
      LaterStill(run, steps, i, j, p);
      if steps[j - 1] == TryBackground(p) && run[j - 1].updating {
        assert BusyBetween(run, steps, i, j, p);
      }
    }
  }

  lemma LaterStill(run: seq<State>, steps: seq<Step>, i: nat, j: nat, p: Pid)
    requires j > 0
    ensures LoadedBetween(run, i, j - 1, p) && j < |run| ==> LoadedBetween(run, i, j, p)
    ensures BusyBetween(run, steps, i, j - 1, p) ==> BusyBetween(run, steps, i, j, p)
  {
    if LoadedBetween(run, i, j - 1, p) && j < |run| {
      var k :| i < k < j - 1 && p in run[k].readers && run[k].readers[p].Loading?;
      assert i < k < j;
    }
    if BusyBetween(run, steps, i, j - 1, p) {
      var k :| i < k < j - 1 && k < |steps| && k < |run| && steps[k] == TryBackground(p) && run[k].updating;
      assert i < k < j;
    }
  }

  /** From sixty seconds on it does not end without having refreshed. */
  lemma {:induction false} OldIsRefreshed(run: seq<State>, steps: seq<Step>, i: nat, j: nat, p: Pid, age: nat)
    requires CheckedAt(run, steps, i, j, p, age) && age >= 60
    ensures p in run[j].readers
    ensures run[j].readers[p].Foreground? || run[j].readers[p].Loading?
            || (run[j].readers[p].Finished? && LoadedBetween(run, i, j, p))
    decreases j
  {
    assert run[j - 1 + 1] == Next(run[j - 1], steps[j - 1]);
    if j > i + 1 {
      OldIsRefreshed(run, steps, i, j - 1, p, age);
      LaterStill(run, steps, i, j, p);
    }
  }

  // ---------------------------------------------------------------- single flight

  /** A reader gives up and starts while another refresh is in flight. */
  ghost predicate Overtakes(s: State, step: Step) {
    && Enabled(s, step) && step.TryForeground? && s.readers[step.p].tries >= MAX_TRIES
    && InFlight(s) != {}
  }

  lemma NoOvertakingKeepsFlag(s: State, step: Step)
    requires |InFlight(s)| == One(s.updating) && Enabled(s, step) && !Overtakes(s, step)
    ensures |InFlight(Next(s, step))| == One(Next(s, step).updating)
  {
    InFlightStep(s, step, step.p);
  }

  lemma OvertakingOverlaps(s: State, step: Step)
    requires Overtakes(s, step)
    ensures |InFlight(Next(s, step))| > 1
  {
    InFlightStep(s, step, step.p);
  }

  lemma {:induction false} NoOvertakingSingleFlight(run: seq<State>, steps: seq<Step>, i: nat)
    requires IsRun(run, steps) && i < |run|
    requires forall j :: 0 <= j < i ==> !Overtakes(run[j], steps[j])
    ensures |InFlight(run[i])| == One(run[i].updating)
  {
    if i > 0 {
      NoOvertakingSingleFlight(run, steps, i - 1);
      NoOvertakingKeepsFlag(run[i - 1], steps[i - 1]);
      assert run[i - 1 + 1] == Next(run[i - 1], steps[i - 1]);
    }
  }

  /** A run never has two refreshes in flight if and only if no reader that used up its tries
      starts while another refresh is in flight. */
  lemma SingleFlightIff(run: seq<State>, steps: seq<Step>)
    requires IsRun(run, steps)
    ensures (forall i :: 0 <= i < |run| ==> |InFlight(run[i])| <= 1)
       <==> (forall j :: 0 <= j < |steps| ==> !Overtakes(run[j], steps[j]))
  {
    if forall i :: 0 <= i < |run| ==> |InFlight(run[i])| <= 1 {
      forall j | 0 <= j < |steps| ensures !Overtakes(run[j], steps[j]) {
        assert run[j + 1] == Next(run[j], steps[j]);
        if Overtakes(run[j], steps[j]) {
          OvertakingOverlaps(run[j], steps[j]);
        }
      }
    }
    if forall j :: 0 <= j < |steps| ==> !Overtakes(run[j], steps[j]) {
      forall i | 0 <= i < |run| ensures |InFlight(run[i])| <= 1 {
        NoOvertakingSingleFlight(run, steps, i);
      }
    }
  }

  // ---------------------------------------------------------------- the bound is reached

  ghost predicate Reachable(s: State) {
    exists run, steps :: IsRun(run, steps) && run[|run| - 1] == s
  }

  lemma ReachableStep(s: State, step: Step)
    requires Reachable(s) && Enabled(s, step)
    ensures Reachable(Next(s, step))
  {
    var run, steps :| IsRun(run, steps) && run[|run| - 1] == s;
    assert IsRun(run + [Next(s, step)], steps + [step]);
  }

  lemma {:induction false} WaitOut(s: State, p: Pid, n: nat)
    requires Reachable(s) && s.updating && p in s.readers && s.readers[p] == Foreground(0) && n <= MAX_TRIES
    ensures Reachable(s.(readers := s.readers[p := Foreground(n)]))
  {
    if n == 0 {
      assert s.(readers := s.readers[p := Foreground(0)]) == s;
    } else {
      WaitOut(s, p, n - 1);
      var t := s.(readers := s.readers[p := Foreground(n - 1)]);
      ReachableStep(t, TryForeground(p));
      assert t.readers[p := Foreground(n)] == s.readers[p := Foreground(n)];
    }
  }

  /** The bound is tight: for every n there is a run in which n readers have given up, the
      flag is up, and n + 1 refreshes are in flight. */
  lemma BoundReached(n: nat) returns (s: State)
    ensures Reachable(s) && s.updating && |s.gaveUp| == n && |InFlight(s)| == n + 1
    ensures forall p :: p in s.readers ==> p <= n
    ensures s.gaveUp <= s.readers.Keys
  {
    if n == 0 {
      assert IsRun([INIT], []);
      s := INIT;
    } else {
      s := BoundReached(n - 1);
    }
    s := GiveUpOrStart(s, n);
  }

  lemma GiveUpOrStart(s: State, p: Pid) returns (t: State)
    requires Reachable(s) && p !in s.readers && s.gaveUp <= s.readers.Keys
    ensures Reachable(t) && t.updating && t.readers == s.readers[p := Loading]
    ensures t.gaveUp == if s.updating then s.gaveUp + {p} else s.gaveUp
    ensures InFlight(t) == InFlight(s) + {p}
  {
    ReachableStep(s, Arrive(p));
    var a := Next(s, Arrive(p));
    ReachableStep(a, Check(p, 2 * TTL_SECS));
    var b := Next(a, Check(p, 2 * TTL_SECS));
    if s.updating {
      WaitOut(b, p, MAX_TRIES);
      b := b.(readers := b.readers[p := Foreground(MAX_TRIES)]);
    }
    ReachableStep(b, TryForeground(p));
    t := Next(b, TryForeground(p));
    assert t.readers == s.readers[p := Loading];
  }

  // ---------------------------------------------------------------- bounded waiting

  /** Steps a reader can still take before it is done. */
  ghost function Left(s: State, p: Pid): nat {
    if p !in s.readers then 14
    else match s.readers[p]
      case Checking => 13
      case Foreground(tries) => if tries <= MAX_TRIES then 12 - tries else 0
      case Background => 2
      case Loading => 1
      case Finished => 0
  }

  ghost function StepsOf(steps: seq<Step>, p: Pid): nat {
    if steps == [] then 0
    else StepsOf(steps[..|steps| - 1], p) + One(steps[|steps| - 1].p == p)
  }

  /** Whatever the others do, a reader is done after at most fourteen steps of its own, of
      which at most eleven take the flag lock. */
  lemma {:induction false} WaitingIsBounded(run: seq<State>, steps: seq<Step>, p: Pid)
    requires IsRun(run, steps)
    ensures StepsOf(steps, p) + Left(run[|run| - 1], p) <= 14
    decreases |steps|
  {
    if steps != [] {
      var n := |steps| - 1;
      assert IsRun(run[..n + 1], steps[..n]);
      WaitingIsBounded(run[..n + 1], steps[..n], p);
      RefreshesBounded(run, steps, n);
      assert run[n + 1] == Next(run[n], steps[n]);
      LeftStep(run[n], steps[n], p);
    }
  }

  lemma LeftStep(s: State, step: Step, p: Pid)
    requires WellFormed(s) && Enabled(s, step)
    ensures One(step.p == p) + Left(Next(s, step), p) <= Left(s, p)
  {
  }

  /** Milliseconds slept before try number n, the i-th pause being 2^i. */
  function Slept(n: nat): nat {
    if n == 0 then 0 else Slept(n - 1) + Pow2(n - 1)
  }

  lemma {:induction false} SleptClosed(n: nat)
    ensures Slept(n) + 1 == Pow2(n)
  {
    if n > 0 { SleptClosed(n - 1); }
  }

  /** A foreground reader sleeps at most 1023 milliseconds in all. */
  lemma SleepIsBounded(run: seq<State>, steps: seq<Step>, i: nat, p: Pid)
    requires IsRun(run, steps) && i < |run| && p in run[i].readers && run[i].readers[p].Foreground?
    ensures Slept(run[i].readers[p].tries) <= 1023
  {
    RefreshesBounded(run, steps, i);
    SleptMonotone(run[i].readers[p].tries, MAX_TRIES);
    SleptClosed(MAX_TRIES);
    assert Pow2(10) == 1024;
  }

  lemma {:induction false} SleptMonotone(m: nat, n: nat)
    requires m <= n
    ensures Slept(m) <= Slept(n)
  {
    if m < n { SleptMonotone(m, n - 1); }
  }
}
