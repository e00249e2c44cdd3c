/** One pass of an audit stream over the stored keys, with retries and exponential backoff. */
module AuditRetry {
  import opened Arith

  const MAX_RETRIES: nat := 5
  const BASE_DELAY_SECS: nat := 2

  datatype SendOutcome = Sent | NotConnected | TimedOut | Permanent

  predicate Transient(o: SendOutcome) {
    o.NotConnected? || o.TimedOut?
  }

  /** What became of a key: how often it was sent, how long the pass slept for it, and what was
      recorded. */
  datatype Fate = Fate(sends: nat, slept: nat, success: bool, successes: nat, failures: nat)

  /** The first attempt that ends the retries of a key, or the limit if none does. */
  ghost predicate EndsAt(outcomes: nat -> SendOutcome, a: nat) {
    && a <= MAX_RETRIES
    && (forall b: nat :: b < a ==> Transient(outcomes(b)))
    && (a < MAX_RETRIES ==> !Transient(outcomes(a)))
  }

  lemma EndsOnce(outcomes: nat -> SendOutcome, a: nat, b: nat)
    requires EndsAt(outcomes, a) && EndsAt(outcomes, b)
    ensures a == b
  {
  }

  /** Seconds slept after n transient failures, the i-th pause being the base times 2^i. */
  function Backoff(n: nat): nat {
    if n == 0 then 0 else Backoff(n - 1) + BASE_DELAY_SECS * Pow2(n)
  }

  lemma {:induction false} BackoffClosed(n: nat)
    ensures Backoff(n) + 4 == Pow2(n + 2)
  {
    if n > 0 { BackoffClosed(n - 1); }
  }

  lemma BackoffBound(n: nat)
    requires n <= MAX_RETRIES
    ensures Backoff(n) <= 124 && Pow2(7) == 128
  {
    BackoffClosed(n);
    assert Pow2(2) == 4 && Pow2(3) == 8 && Pow2(4) == 16;
    assert Pow2(5) == 32 && Pow2(6) == 64 && Pow2(7) == 128;
  }

  /** The first k sends find the target not connected or time out. */
  ghost predicate NotReached(outcomes: nat -> SendOutcome, k: nat) {
    forall b: nat :: b < k ==> outcomes(b) == NotConnected || outcomes(b) == TimedOut
  }

  lemma EndsWhereReached(outcomes: nat -> SendOutcome, a: nat)
    requires EndsAt(outcomes, a)
    ensures NotReached(outcomes, 5) <==> a == 5
    ensures forall k: nat :: k < 5 && NotReached(outcomes, k) && (outcomes(k) == Sent || outcomes(k) == Permanent) ==> a == k
  {
  }

  /** The retry loop for one key. */
  method SendKey(outcomes: nat -> SendOutcome) returns (fate: Fate, ghost a: nat)
    ensures EndsAt(outcomes, a)
    ensures fate.success <==> a < MAX_RETRIES && outcomes(a) == Sent
    ensures fate.successes == (if fate.success then 1 else 0) && fate.failures == 1 - fate.successes
    ensures fate.sends == (if a < MAX_RETRIES then a + 1 else MAX_RETRIES)
    ensures fate.slept == Backoff(a)
    ensures NotReached(outcomes, 5) ==> fate == Fate(5, 124, false, 0, 1)
    ensures forall k: nat :: k < 5 && NotReached(outcomes, k) && outcomes(k) == Sent ==>
              fate == Fate(k + 1, fate.slept, true, 1, 0) && fate.slept + 4 == Pow2(k + 2)
    ensures forall k: nat :: k < 5 && NotReached(outcomes, k) && outcomes(k) == Permanent ==>
              fate == Fate(k + 1, fate.slept, false, 0, 1) && fate.slept + 4 == Pow2(k + 2)
  {
    var retries := 0;
    var sends, slept, success, good, bad := 0, 0, false, 0, 0;
    a := 0;
    var broken := false;
    while retries < MAX_RETRIES && !success && !broken
      invariant a == retries <= MAX_RETRIES
      invariant forall b: nat :: b < a ==> Transient(outcomes(b))
      invariant !(success && broken)
      invariant success ==> a < MAX_RETRIES && outcomes(a) == Sent
      invariant broken ==> a < MAX_RETRIES && outcomes(a) == Permanent
      invariant sends == a + if success || broken then 1 else 0
      invariant good == if success then 1 else 0
      invariant bad == if broken then 1 else 0
      invariant slept == Backoff(a)
      decreases MAX_RETRIES - retries, !success && !broken
    {
      var outcome := outcomes(retries);
      sends := sends + 1;
      match outcome {
        case Sent =>
          good := good + 1;
          success := true;
        case Permanent =>
          bad := bad + 1;
          broken := true;
        case _ =>
          retries := retries + 1;
          a := retries;
          slept := slept + BASE_DELAY_SECS * Pow2(retries);
      }
    }
    if retries >= MAX_RETRIES && !success {
      bad := bad + 1;
    }
    fate := Fate(sends, slept, success, good, bad);
    EndsWhereReached(outcomes, a);
    BackoffClosed(a);
    assert Pow2(7) == 128 by { BackoffBound(5); }
  }

  ghost predicate Delivered(outcomes: nat -> SendOutcome) {
    exists a: nat :: a < MAX_RETRIES && EndsAt(outcomes, a) && outcomes(a) == Sent
  }

  lemma DeliveredIff(outcomes: nat -> SendOutcome, a: nat)
    requires EndsAt(outcomes, a)
    ensures Delivered(outcomes) <==> a < MAX_RETRIES && outcomes(a) == Sent
  {
    if Delivered(outcomes) {
      var b: nat :| b < MAX_RETRIES && EndsAt(outcomes, b) && outcomes(b) == Sent;
      EndsOnce(outcomes, a, b);
    }
  }

  /** A key is sent between one and five times, slept for at most 124 seconds, and recorded
      exactly once, as a success just when it was sent before a permanent error and in time. */
  ghost predicate WellTreated(fate: Fate, outcomes: nat -> SendOutcome) {
    && 1 <= fate.sends <= MAX_RETRIES && fate.slept <= 124
    && (fate.success <==> Delivered(outcomes))
    && fate.successes == (if fate.success then 1 else 0) && fate.failures == 1 - fate.successes
  }

  method TreatKey(outcomes: nat -> SendOutcome) returns (fate: Fate)
    ensures WellTreated(fate, outcomes)
  {
    ghost var a;
    fate, a := SendKey(outcomes);
    BackoffBound(a);
    DeliveredIff(outcomes, a);
  }

  function CountSent(fates: seq<Fate>): nat {
    if fates == [] then 0
    else CountSent(fates[..|fates| - 1]) + if fates[|fates| - 1].success then 1 else 0
  }

  lemma OneMoreFate(fates: seq<Fate>, fate: Fate)
    ensures CountSent(fates + [fate]) == CountSent(fates) + if fate.success then 1 else 0
  {
    assert (fates + [fate])[..|fates|] == fates;
  }

  /** For every behaviour of the target, which may treat a key differently each time it comes up. */
  method StreamPass<Key>(keys: seq<Key>, send: nat -> (nat -> SendOutcome))
    returns (fates: seq<Fate>, successes: nat, failures: nat)
    ensures |fates| == |keys| && forall i: nat :: i < |keys| ==> WellTreated(fates[i], send(i))
    ensures successes == CountSent(fates) && successes + failures == |keys|
  {
    fates, successes, failures := [], 0, 0;
    for i := 0 to |keys|
      invariant |fates| == i && forall j: nat :: j < i ==> WellTreated(fates[j], send(j))
      invariant successes == CountSent(fates) && successes + failures == i
    {
      var fate := TreatKey(send(i));
      OneMoreFate(fates, fate);
      fates := fates + [fate];
      successes := successes + fate.successes;
      failures := failures + fate.failures;
    }
  }
}
