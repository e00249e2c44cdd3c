/** The batch processor: tasks under a semaphore that finish and are joined in any order, with
    their results put back by task index, and the quorum form on top. */
module BatchProcessor {
  import opened Prelude

  /** What a task will do once it runs. */
  datatype Task<T, E> = Returns(result: Result<T, E>) | Panics

  datatype Phase = Waiting | Running | Ended | Joined

  datatype State<T, E> = State(permits: nat, phases: seq<Phase>, results: seq<Result<T, E>>)

  datatype Step = Acquire(i: nat) | End(i: nat) | Join(i: nat)

  ghost function Init<T, E>(tasks: seq<Task<T, E>>, maxConcurrent: nat, notCompleted: E): State<T, E> {
    State(maxConcurrent, seq(|tasks|, _ => Waiting), seq(|tasks|, _ => Err(notCompleted)))
  }

  ghost predicate Enabled<T, E>(tasks: seq<Task<T, E>>, s: State<T, E>, step: Step) {
    && |s.phases| == |s.results| == |tasks| && step.i < |tasks|
    && match step
       case Acquire(i) => s.phases[i].Waiting? && s.permits > 0
       case End(i) => s.phases[i].Running?
       case Join(i) => s.phases[i].Ended?
  }

  ghost function Next<T, E>(tasks: seq<Task<T, E>>, s: State<T, E>, step: Step): State<T, E>
    requires Enabled(tasks, s, step)
  {
    match step
    case Acquire(i) => State(s.permits - 1, s.phases[i := Running], s.results)
    case End(i) => State(s.permits + 1, s.phases[i := Ended], s.results)
    case Join(i) =>
      s.(phases := s.phases[i := Joined],
         results := if tasks[i].Returns? then s.results[i := tasks[i].result] else s.results)
  }

  ghost predicate IsRun<T, E>(tasks: seq<Task<T, E>>, init: State<T, E>, run: seq<State<T, E>>, steps: seq<Step>) {
    && |run| == |steps| + 1
    && run[0] == init
    && forall k :: 0 <= k < |steps| ==>
         Enabled(tasks, run[k], steps[k]) && run[k + 1] == Next(tasks, run[k], steps[k])
  }

  ghost predicate AllJoined<T, E>(s: State<T, E>) {
    forall i :: 0 <= i < |s.phases| ==> s.phases[i].Joined?
  }

  // ---------------------------------------------------------------- invariants

  ghost function Holders(phases: seq<Phase>): set<nat> {
    set i | 0 <= i < |phases| && phases[i].Running?
  }

  /** What the result vector is to hold for a task, once it has been joined. */
  function Expected<T, E>(task: Task<T, E>, notCompleted: E): Result<T, E> {
    if task.Returns? then task.result else Err(notCompleted)
  }

  ghost predicate ResultsInPlace<T, E>(tasks: seq<Task<T, E>>, notCompleted: E, s: State<T, E>) {
    && |s.phases| == |s.results| == |tasks|
    && forall i :: 0 <= i < |tasks| ==>
         s.results[i] == if s.phases[i].Joined? then Expected(tasks[i], notCompleted) else Err(notCompleted)
  }

  ghost predicate Invariant<T, E>(tasks: seq<Task<T, E>>, maxConcurrent: nat, notCompleted: E, s: State<T, E>) {
    ResultsInPlace(tasks, notCompleted, s) && s.permits + |Holders(s.phases)| == maxConcurrent
  }

  lemma InitInvariant<T, E>(tasks: seq<Task<T, E>>, maxConcurrent: nat, notCompleted: E)
    ensures Invariant(tasks, maxConcurrent, notCompleted, Init(tasks, maxConcurrent, notCompleted))
  {
    assert Holders(Init(tasks, maxConcurrent, notCompleted).phases) == {};
  }

  lemma HoldersUpdate(phases: seq<Phase>, i: nat, p: Phase)
    requires i < |phases|
    ensures Holders(phases[i := p]) == if p.Running? then Holders(phases) + {i} else Holders(phases) - {i}
  {
  }

  lemma StepPermits<T, E>(tasks: seq<Task<T, E>>, s: State<T, E>, step: Step)
    requires Enabled(tasks, s, step)
    ensures Next(tasks, s, step).permits + |Holders(Next(tasks, s, step).phases)| == s.permits + |Holders(s.phases)|
  {
    var t := Next(tasks, s, step);
    HoldersUpdate(s.phases, step.i, t.phases[step.i]);
    match step
    case Acquire(i) => assert i !in Holders(s.phases);
    case End(i) => assert i in Holders(s.phases);
    case Join(i) => assert Holders(t.phases) == Holders(s.phases);
  }

  lemma StepInvariant<T, E>(tasks: seq<Task<T, E>>, maxConcurrent: nat, notCompleted: E, s: State<T, E>, step: Step)
    requires Invariant(tasks, maxConcurrent, notCompleted, s) && Enabled(tasks, s, step)
    ensures Invariant(tasks, maxConcurrent, notCompleted, Next(tasks, s, step))
  {
    StepPermits(tasks, s, step);
    assert ResultsInPlace(tasks, notCompleted, Next(tasks, s, step));
  }

  /** In every schedule at most maxConcurrent tasks hold a permit, and the result vector holds
      at every joined index the outcome of that task, or the placeholder if it panicked. */
  lemma {:induction false} EveryState<T, E>(
    tasks: seq<Task<T, E>>, maxConcurrent: nat, notCompleted: E, run: seq<State<T, E>>, steps: seq<Step>, k: nat)
    requires IsRun(tasks, Init(tasks, maxConcurrent, notCompleted), run, steps) && k < |run|
    ensures Invariant(tasks, maxConcurrent, notCompleted, run[k])
    ensures |Holders(run[k].phases)| <= maxConcurrent
  {
    if k == 0 {
      InitInvariant(tasks, maxConcurrent, notCompleted);
    } else {
      EveryState(tasks, maxConcurrent, notCompleted, run, steps, k - 1);
      StepInvariant(tasks, maxConcurrent, notCompleted, run[k - 1], steps[k - 1]);
      assert run[k - 1 + 1] == Next(tasks, run[k - 1], steps[k - 1]);
    }
  }

  /** A finished batch has the same results whatever the order of completion was. */
  lemma FinishedResults<T, E>(
    tasks: seq<Task<T, E>>, maxConcurrent: nat, notCompleted: E, run: seq<State<T, E>>, steps: seq<Step>)
    requires IsRun(tasks, Init(tasks, maxConcurrent, notCompleted), run, steps)
    requires AllJoined(run[|run| - 1])
    ensures run[|run| - 1].results == seq(|tasks|, i requires 0 <= i < |tasks| => Expected(tasks[i], notCompleted))
  {
    EveryState(tasks, maxConcurrent, notCompleted, run, steps, |run| - 1);
  }

  // ---------------------------------------------------------------- progress

  /** Unless the semaphore has no permits at all, an unfinished batch can always go on. */
  lemma Progress<T, E>(tasks: seq<Task<T, E>>, maxConcurrent: nat, notCompleted: E, s: State<T, E>)
    requires Invariant(tasks, maxConcurrent, notCompleted, s) && !AllJoined(s) && maxConcurrent > 0
    ensures exists step :: Enabled(tasks, s, step)
  {
    var i :| 0 <= i < |s.phases| && !s.phases[i].Joined?;
    if s.phases[i].Running? {
      assert Enabled(tasks, s, End(i));
    } else if s.phases[i].Ended? {
      assert Enabled(tasks, s, Join(i));
    } else if s.permits > 0 {
      assert Enabled(tasks, s, Acquire(i));
    } else {
      assert Holders(s.phases) != {};
      var j :| j in Holders(s.phases);
      assert Enabled(tasks, s, End(j));
    }
  }

  /** With no permits a non-empty batch never starts. */
  lemma NoPermitsStuck<T, E>(tasks: seq<Task<T, E>>, notCompleted: E, step: Step)
    ensures !Enabled(tasks, Init(tasks, 0, notCompleted), step)
  {
  }

  /** Steps still to be taken: acquire, end, join. */
  function Remaining(phases: seq<Phase>): nat {
    if phases == [] then 0
    else (match phases[0] case Waiting => 3 case Running => 2 case Ended => 1 case Joined => 0) + Remaining(phases[1..])
  }

  lemma {:induction false} RemainingUpdate(phases: seq<Phase>, i: nat, p: Phase)
    requires i < |phases|
    ensures Remaining(phases[i := p]) + Remaining([phases[i]]) == Remaining(phases) + Remaining([p])
    decreases |phases|
  {
    if i == 0 {
      assert phases[i := p][1..] == phases[1..];
    } else {
      assert phases[i := p][1..] == phases[1..][i - 1 := p];
      RemainingUpdate(phases[1..], i - 1, p);
    }
  }

  lemma {:induction false} RemainingInit(n: nat)
    ensures Remaining(seq(n, _ => Waiting)) == 3 * n
  {
    if n > 0 {
      assert seq(n, _ => Waiting)[1..] == seq(n - 1, _ => Waiting);
      RemainingInit(n - 1);
    }
  }

  lemma {:induction false} RemainingNone(phases: seq<Phase>)
    ensures Remaining(phases) == 0 <==> forall i :: 0 <= i < |phases| ==> phases[i].Joined?
  {
    if phases != [] {
      RemainingNone(phases[1..]);
      assert forall i :: 0 <= i < |phases| - 1 ==> phases[1..][i] == phases[i + 1];
      assert (forall i :: 0 <= i < |phases| ==> phases[i].Joined?) <==>
             phases[0].Joined? && forall i :: 0 <= i < |phases[1..]| ==> phases[1..][i].Joined?;
    }
  }

  /** Every schedule takes exactly three steps per task, no more and no fewer, to finish. */
  lemma {:induction false} RunLength<T, E>(
    tasks: seq<Task<T, E>>, maxConcurrent: nat, notCompleted: E, run: seq<State<T, E>>, steps: seq<Step>)
    requires IsRun(tasks, Init(tasks, maxConcurrent, notCompleted), run, steps)
    ensures |steps| + Remaining(run[|run| - 1].phases) == 3 * |tasks|
    ensures AllJoined(run[|run| - 1]) <==> |steps| == 3 * |tasks|
    decreases |steps|
  {
    RemainingNone(run[|run| - 1].phases);
    if steps == [] {
      RemainingInit(|tasks|);
      assert run[0].phases == seq(|tasks|, _ => Waiting);
    } else {
      var n := |steps| - 1;
      assert IsRun(tasks, Init(tasks, maxConcurrent, notCompleted), run[..n + 1], steps[..n]);
      RunLength(tasks, maxConcurrent, notCompleted, run[..n + 1], steps[..n]);
      assert run[n + 1] == Next(tasks, run[n], steps[n]);
      RemainingUpdate(run[n].phases, steps[n].i, run[n + 1].phases[steps[n].i]);
    }
  }

  // ---------------------------------------------------------------- quorum

  /** The successful values, in task order. */
  function Successes<T, E>(results: seq<Result<T, E>>): seq<T> {
    if results == [] then []
    else
      var rest := Successes(results[..|results| - 1]);
      match results[|results| - 1]
      case Ok(v) => rest + [v]
      case Err(_) => rest
  }

  lemma {:induction false} SuccessesPrefix<T, E>(results: seq<Result<T, E>>, k: nat)
    requires k <= |results|
    ensures Successes(results[..k]) <= Successes(results)
    decreases |results| - k
  {
    if k == |results| {
      assert results[..k] == results;
    } else {
      SuccessesPrefix(results, k + 1);
      assert results[..k + 1][..k] == results[..k];
    }
  }

  /** The successes are as many as the successful places, and that of place i comes after those
      of the places before it. */
  lemma {:induction false} SuccessesAt<T, E>(results: seq<Result<T, E>>, i: nat)
    ensures |Successes(results)| == |set k | 0 <= k < |results| && results[k].Ok?|
    ensures i < |results| && results[i].Ok? ==>
              && |Successes(results[..i])| < |Successes(results)|
              && Successes(results)[|Successes(results[..i])|] == results[i].value
    decreases |results|
  {
    if results != [] {
      var n := |results| - 1;
      var init := results[..n];
      SuccessesAt(init, i);
      var before := set k | 0 <= k < |init| && init[k].Ok?;
      assert (set k | 0 <= k < |results| && results[k].Ok?) == before + (if results[n].Ok? then {n} else {});
      if i < n {
        assert init[..i] == results[..i];
      }
    }
  }

  /** Succeeds if and only if enough tasks did, and then returns the first that many successes
      in task order; asked for none, it still returns the first success if there is one. */
  method ExecuteWithQuorum<T, E>(results: seq<Result<T, E>>, required: nat) returns (r: Result<seq<T>, nat>)
    ensures r.Ok? <==> |Successes(results)| >= required
    ensures r.Ok? && required > 0 ==> r.value == Successes(results)[..required]
    ensures required == 0 ==> r == Ok(if Successes(results) == [] then [] else [Successes(results)[0]])
    ensures r.Err? ==> r.error == |Successes(results)|
  {
    var successes: seq<T> := [];
    for i := 0 to |results|
      invariant successes == Successes(results[..i])
      invariant successes != [] ==> |successes| < required
    {
      assert results[..i + 1][..i] == results[..i];
      if results[i].Ok? {
        successes := successes + [results[i].value];
        if |successes| >= required {
          SuccessesPrefix(results, i + 1);
          assert successes == Successes(results)[..|successes|];
          assert required == 0 ==> successes == [Successes(results)[0]];
          return Ok(successes);
        }
      }
    }
    assert results[..|results|] == results;
    r := if |successes| >= required then Ok(successes) else Err(|successes|);
  }

  /** What the tasks that return successfully return, in task order. */
  function ReturnedValues<T, E>(tasks: seq<Task<T, E>>): seq<T> {
    if tasks == [] then []
    else
      var rest := ReturnedValues(tasks[..|tasks| - 1]);
      match tasks[|tasks| - 1]
      case Returns(Ok(v)) => rest + [v]
      case _ => rest
  }

  lemma {:induction false} SuccessesOfTasks<T, E>(tasks: seq<Task<T, E>>, notCompleted: E, results: seq<Result<T, E>>)
    requires |results| == |tasks| && forall i :: 0 <= i < |tasks| ==> results[i] == Expected(tasks[i], notCompleted)
    ensures Successes(results) == ReturnedValues(tasks)
    decreases |tasks|
  {
    if tasks != [] {
      SuccessesOfTasks(tasks[..|tasks| - 1], notCompleted, results[..|tasks| - 1]);
    }
  }

  /** `execute_batch_with_quorum` from the tasks on: in every finished schedule, whatever order
      the tasks completed in and whichever of them panicked, the outcome is told by what the
      tasks return. */
  method BatchWithQuorum<T, E>(
    tasks: seq<Task<T, E>>, maxConcurrent: nat, notCompleted: E, ghost run: seq<State<T, E>>, ghost steps: seq<Step>,
    results: seq<Result<T, E>>, required: nat)
    returns (r: Result<seq<T>, nat>)
    requires IsRun(tasks, Init(tasks, maxConcurrent, notCompleted), run, steps)
    requires AllJoined(run[|run| - 1]) && results == run[|run| - 1].results
    ensures r.Ok? <==> |ReturnedValues(tasks)| >= required
    ensures r.Ok? && required > 0 ==> r.value == ReturnedValues(tasks)[..required]
    ensures required == 0 ==> r == Ok(if ReturnedValues(tasks) == [] then [] else [ReturnedValues(tasks)[0]])
    ensures r.Err? ==> r.error == |ReturnedValues(tasks)|
  {
    FinishedResults(tasks, maxConcurrent, notCompleted, run, steps);
    SuccessesOfTasks(tasks, notCompleted, results);
    r := ExecuteWithQuorum(results, required);
  }
}
