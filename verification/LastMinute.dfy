/** The last-minute latency ring: sixty slots of wrapping 64-bit sums that stand for a plain
    log of timed additions. */
module LastMinute {
  import opened Prelude

  const SLOTS: nat := 60
  const WORD: nat := 0x1_0000_0000_0000_0000

  datatype AccElem = AccElem(total: nat, size: nat, n: nat)

  const EMPTY: AccElem := AccElem(0, 0, 0)

  datatype Field = Total | Size | Count

  function Get(e: AccElem, f: Field): nat {
    match f case Total => e.total case Size => e.size case Count => e.n
  }

  /** `wrapping_add` on every field. */
  function Plus(a: AccElem, b: AccElem): AccElem {
    AccElem((a.total + b.total) % WORD, (a.size + b.size) % WORD, (a.n + b.n) % WORD)
  }

  // ---------------------------------------------------------------- the log

  datatype Event = Event(sec: nat, elem: AccElem)

  /** Everything logged in one second. */
  function SumAt(log: seq<Event>, s: int, f: Field): nat {
    if log == [] then 0
    else
      var e := log[|log| - 1];
      SumAt(log[..|log| - 1], s, f) + if e.sec == s then Get(e.elem, f) else 0
  }

  /** Everything logged in the sixty seconds up to and including t. */
  function WindowSum(log: seq<Event>, t: int, f: Field): nat {
    if log == [] then 0
    else
      var e := log[|log| - 1];
      WindowSum(log[..|log| - 1], t, f) + if t - SLOTS < e.sec <= t then Get(e.elem, f) else 0
  }

  lemma {:induction false} SumAtConcat(a: seq<Event>, b: seq<Event>, s: int, f: Field)
    ensures SumAt(a + b, s, f) == SumAt(a, s, f) + SumAt(b, s, f)
    decreases |b|
  {
    if b == [] {
      assert a + b == a;
    } else {
      assert (a + b)[..|a + b| - 1] == a + b[..|b| - 1];
      SumAtConcat(a, b[..|b| - 1], s, f);
    }
  }

  lemma {:induction false} WindowConcat(a: seq<Event>, b: seq<Event>, t: int, f: Field)
    ensures WindowSum(a + b, t, f) == WindowSum(a, t, f) + WindowSum(b, t, f)
    decreases |b|
  {
    if b == [] {
      assert a + b == a;
    } else {
      assert (a + b)[..|a + b| - 1] == a + b[..|b| - 1];
      WindowConcat(a, b[..|b| - 1], t, f);
    }
  }

  ghost predicate NoLaterThan(log: seq<Event>, t: int) {
    forall i :: 0 <= i < |log| ==> log[i].sec <= t
  }

  lemma {:induction false} NothingLater(log: seq<Event>, s: int, f: Field)
    requires NoLaterThan(log, s - 1)
    ensures SumAt(log, s, f) == 0
  {
    if log != [] { NothingLater(log[..|log| - 1], s, f); }
  }

  // ---------------------------------------------------------------- the ring

  /** The second of the current minute that a slot stands for. */
  function SecondOf(last: nat, slot: nat): (s: int)
    requires slot < SLOTS
    ensures last - SLOTS < s <= last
  {
    last - (last - slot) % SLOTS
  }

  lemma SecondOfIff(last: nat, slot: nat, s: nat)
    requires slot < SLOTS
    ensures SecondOf(last, slot) == s <==> last - SLOTS < s <= last && s % SLOTS == slot
  {
  }

  /** A slot holds the wrapped sum of a second. */
  ghost predicate Holds(e: AccElem, log: seq<Event>, s: int) {
    forall f :: Get(e, f) == SumAt(log, s, f) % WORD
  }

  /** The ring stands for the log: each slot holds its second. */
  ghost predicate Represents(totals: seq<AccElem>, last: nat, log: seq<Event>) {
    && |totals| == SLOTS && NoLaterThan(log, last)
    && forall i :: 0 <= i < SLOTS ==> Holds(totals[i], log, SecondOf(last, i))
  }

  lemma WrapAdd(a: nat, b: nat)
    ensures (a % WORD + b) % WORD == (a + b) % WORD
    ensures (a % WORD + b % WORD) % WORD == (a + b) % WORD
  {
  }

  lemma HoldsEvent(x: AccElem, log: seq<Event>, s: int, e: Event)
    requires Holds(x, log, s)
    ensures Holds(if e.sec == s then Plus(x, e.elem) else x, log + [e], s)
  {
    assert (log + [e])[..|log|] == log;
    forall f
      ensures Get(if e.sec == s then Plus(x, e.elem) else x, f) == SumAt(log + [e], s, f) % WORD
    {
      assert Get(x, f) == SumAt(log, s, f) % WORD;
      WrapAdd(SumAt(log, s, f), Get(e.elem, f));
    }
  }

  lemma HoldsNothing(log: seq<Event>, s: int)
    requires NoLaterThan(log, s - 1)
    ensures Holds(EMPTY, log, s)
  {
    forall f ensures SumAt(log, s, f) == 0 {
      NothingLater(log, s, f);
    }
  }

  /** The slots from the first n, added up without wrapping, by what they stand for. */
  function SlotSum(log: seq<Event>, last: nat, f: Field, n: nat): nat
    requires n <= SLOTS
  {
    if n == 0 then 0 else SlotSum(log, last, f, n - 1) + SumAt(log, SecondOf(last, n - 1), f)
  }

  lemma {:induction false} SlotSumEmpty(last: nat, f: Field, n: nat)
    requires n <= SLOTS
    ensures SlotSum([], last, f, n) == 0
  {
    if n > 0 { SlotSumEmpty(last, f, n - 1); }
  }

  /** A logged event counts in exactly one slot if it is in the window, and in none otherwise. */
  lemma {:induction false} SlotSumEvent(log: seq<Event>, e: Event, last: nat, f: Field, n: nat)
    requires n <= SLOTS
    ensures SlotSum(log + [e], last, f, n)
         == SlotSum(log, last, f, n) + if last - SLOTS < e.sec <= last && e.sec % SLOTS < n then Get(e.elem, f) else 0
  {
    if n > 0 {
      SlotSumEvent(log, e, last, f, n - 1);
      assert (log + [e])[..|log|] == log;
      SecondOfIff(last, n - 1, e.sec);
    }
  }

  /** All slots together stand for the window. */
  lemma {:induction false} SlotsAreWindow(log: seq<Event>, last: nat, f: Field)
    ensures SlotSum(log, last, f, SLOTS) == WindowSum(log, last, f)
    decreases |log|
  {
    if log == [] {
      SlotSumEmpty(last, f, SLOTS);
    } else {
      var rest := log[..|log| - 1];
      SlotsAreWindow(rest, last, f);
      SlotSumEvent(rest, log[|log| - 1], last, f, SLOTS);
      assert rest + [log[|log| - 1]] == log;
    }
  }

  class LastMinuteLatency {
    var totals: seq<AccElem>
    var lastSec: nat
    ghost var log: seq<Event>

    ghost predicate Valid()
      reads this
    {
      Represents(totals, lastSec, log)
    }

    constructor ()
      ensures Valid() && log == [] && lastSec == 0
    {
      totals, lastSec, log := seq(SLOTS, _ => EMPTY), 0, [];
    }

    /** Moves the window on, emptying the slots of the seconds that passed. */
    method ForwardTo(t: nat)
      requires Valid()
      modifies this`totals, this`lastSec
      ensures Valid() && lastSec == if old(lastSec) >= t then old(lastSec) else t
      ensures old(lastSec) >= t ==> totals == old(totals)
    {
      if lastSec >= t {
        return;
      }
      if t - lastSec >= SLOTS {
        totals := seq(SLOTS, _ => EMPTY);
        OldMinuteGone(log, lastSec, t);
        lastSec := t;
        return;
      }
      while lastSec != t
        invariant Valid() && old(lastSec) <= lastSec <= t
        decreases t - lastSec
      {
        ForwardOne(totals, lastSec, log);
        var idx := (lastSec + 1) % SLOTS;
        totals := totals[idx := EMPTY];
        lastSec := lastSec + 1;
      }
    }

    /** Adds a batch of measurements. The ring stays faithful unless the second goes back past
        something that was logged, or past the emptying of a slot that is now needed again. */
    method AddAll(sec: nat, a: AccElem)
      requires Valid()
      modifies this
      ensures lastSec == sec && log == old(log) + [Event(sec, a)]
      ensures Valid() <==> sec >= old(lastSec) || GoesBackSafely(old(log), sec, old(lastSec))
      ensures sec < old(lastSec) ==>
                totals == old(totals)[sec % SLOTS := Plus(old(totals)[sec % SLOTS], a)]
    {
      ForwardTo(sec);
      if lastSec == sec {
        AddOne(totals, sec, log, a);
      } else {
        AddBackIff(totals, lastSec, log, sec, a);
      }
      var idx := sec % SLOTS;
      totals := totals[idx := Plus(totals[idx], a)];
      lastSec := sec;
      log := log + [Event(sec, a)];
    }

    /** The totals of the last minute: the wrapped sum of the log over the window. */
    method GetTotal(now: nat) returns (r: AccElem)
      requires Valid()
      modifies this`totals, this`lastSec
      ensures Valid() && lastSec == if old(lastSec) >= now then old(lastSec) else now
      ensures forall f :: Get(r, f) == WindowSum(log, lastSec, f) % WORD
    {
      ForwardTo(now);
      r := EMPTY;
      for i := 0 to |totals|
        modifies {}
        invariant forall f :: Get(r, f) == SlotSum(log, lastSec, f, i) % WORD
      {
        assert Holds(totals[i], log, SecondOf(lastSec, i));
        PlusWraps(r, totals[i]);
        forall f ensures Get(Plus(r, totals[i]), f) == SlotSum(log, lastSec, f, i + 1) % WORD {
          WrapAdd(SlotSum(log, lastSec, f, i), SumAt(log, SecondOf(lastSec, i), f));
        }
        r := Plus(r, totals[i]);
      }
      forall f ensures Get(r, f) == WindowSum(log, lastSec, f) % WORD {
        SlotsAreWindow(log, lastSec, f);
      }
    }

    /** The slotwise sum of two rings at the later of their times. This ring is moved on if it
        is the older one; a newer ring is added to the other one as that stands. The sums wrap,
        or panic in a build with overflow checks, in which case there is no merged ring. */
    method Merge(o: LastMinuteLatency, checked: bool) returns (merged: LastMinuteLatency?)
      requires o != this && Valid() && o.Valid()
      modifies this`totals, this`lastSec
      ensures Valid() && lastSec == if old(lastSec) > o.lastSec then old(lastSec) else o.lastSec
      ensures merged == null <==> checked && Overflows(totals, o.totals)
      ensures merged != null ==>
                && fresh(merged) && merged.lastSec == lastSec && merged.log == log + o.log
                && merged.totals == Added(totals, o.totals)
                && (merged.Valid() <==> NoStaleSlots(o.totals, o.lastSec, merged.lastSec))
                && (old(lastSec) <= o.lastSec ==> merged.Valid())
    {
      var later := o.lastSec;
      if lastSec > o.lastSec {
        later := lastSec;
      } else {
        ForwardTo(o.lastSec);
      }
      var sums := AddSlots(totals, o.totals, checked);
      if sums.None? {
        return null;
      }
      MergeSlots(totals, lastSec, log, o.totals, o.lastSec, o.log, sums.value);
      merged := new LastMinuteLatency();
      merged.lastSec := later;
      merged.totals := sums.value;
      merged.log := log + o.log;
    }
  }

  function Added(a: seq<AccElem>, b: seq<AccElem>): seq<AccElem>
    requires |a| == |b|
  {
    seq(|a|, i requires 0 <= i < |a| => Plus(a[i], b[i]))
  }

  predicate PairOverflows(x: AccElem, y: AccElem) {
    x.total + y.total >= WORD || x.size + y.size >= WORD || x.n + y.n >= WORD
  }

  /** Some slot of the two rings adds up to more than 64 bits hold. */
  ghost predicate Overflows(a: seq<AccElem>, b: seq<AccElem>)
    requires |a| == |b|
  {
    exists i :: 0 <= i < |a| && PairOverflows(a[i], b[i])
  }

  /** A field of the sum takes more than 64 bits. */
  ghost predicate TooBig(x: AccElem, y: AccElem) {
    || x.total + y.total > 0xFFFF_FFFF_FFFF_FFFF
    || x.size + y.size > 0xFFFF_FFFF_FFFF_FFFF
    || x.n + y.n > 0xFFFF_FFFF_FFFF_FFFF
  }

  method AddSlots(a: seq<AccElem>, b: seq<AccElem>, checked: bool) returns (sums: Option<seq<AccElem>>)
    requires |a| == |b|
    ensures sums.None? <==> checked && Overflows(a, b)
    ensures sums.Some? ==> sums.value == Added(a, b)
    ensures sums.Some? && checked ==> forall i :: 0 <= i < |a| ==>
              sums.value[i] == AccElem(a[i].total + b[i].total, a[i].size + b[i].size, a[i].n + b[i].n)
    ensures sums.None? ==> exists i :: 0 <= i < |a| && TooBig(a[i], b[i])
  {
    var slots: seq<AccElem> := [];
    for i := 0 to |a|
      invariant slots == Added(a[..i], b[..i])
      invariant checked ==> forall k :: 0 <= k < i ==> !PairOverflows(a[k], b[k])
    {
      if checked && PairOverflows(a[i], b[i]) {
        return None;
      }
      slots := slots + [Plus(a[i], b[i])];
    }
    assert a[..|a|] == a && b[..|b|] == b;
    return Some(slots);
  }

  lemma {:induction false} SlotWithinSum(log: seq<Event>, last: nat, f: Field, n: nat, i: nat)
    requires i < n <= SLOTS
    ensures SumAt(log, SecondOf(last, i), f) <= SlotSum(log, last, f, n)
    decreases n
  {
    if i < n - 1 {
      SlotWithinSum(log, last, f, n - 1, i);
    }
  }

  lemma SlotWithinWindow(e: AccElem, log: seq<Event>, last: nat, i: nat, f: Field)
    requires i < SLOTS && Holds(e, log, SecondOf(last, i))
    ensures Get(e, f) <= WindowSum(log, last, f)
  {
    SlotWithinSum(log, last, f, SLOTS, i);
    SlotsAreWindow(log, last, f);
    assert Get(e, f) == SumAt(log, SecondOf(last, i), f) % WORD <= SumAt(log, SecondOf(last, i), f);
  }

  /** Merging does not overflow if the two minutes together fit in 64 bits. */
  lemma MergeFits(a: seq<AccElem>, last: nat, log: seq<Event>, b: seq<AccElem>, older: nat, other: seq<Event>)
    requires Represents(a, last, log) && Represents(b, older, other)
    requires forall f :: WindowSum(log, last, f) + WindowSum(other, older, f) < WORD
    ensures !Overflows(a, b)
  {
    forall i | 0 <= i < SLOTS ensures !PairOverflows(a[i], b[i]) {
      forall f ensures Get(a[i], f) + Get(b[i], f) < WORD {
        SlotWithinWindow(a[i], log, last, i, f);
        SlotWithinWindow(b[i], other, older, i, f);
      }
      assert Get(a[i], Total) + Get(b[i], Total) < WORD;
      assert Get(a[i], Size) + Get(b[i], Size) < WORD;
      assert Get(a[i], Count) + Get(b[i], Count) < WORD;
    }
  }

  /** Nothing was logged after the second, and nothing is left of the seconds in its window
      whose slots have meanwhile stood for later ones. */
  ghost predicate GoesBackSafely(log: seq<Event>, sec: nat, last: nat) {
    && NoLaterThan(log, sec)
    && forall i :: 0 <= i < SLOTS && SecondOf(last, i) > sec ==> Holds(EMPTY, log, SecondOf(sec, i))
  }

  lemma SlotGoneBack(e: AccElem, log: seq<Event>, sec: nat, last: nat, i: nat)
    requires sec < last && i < SLOTS && NoLaterThan(log, sec) && Holds(e, log, SecondOf(last, i))
    ensures SecondOf(last, i) <= sec ==> Holds(e, log, SecondOf(sec, i))
    ensures SecondOf(last, i) > sec ==> (Holds(e, log, SecondOf(sec, i)) <==> Holds(EMPTY, log, SecondOf(sec, i)))
  {
    SecondOfLater(sec, last, i);
    if SecondOf(last, i) > sec {
      forall f ensures Get(e, f) == 0 {
        NothingLater(log, SecondOf(last, i), f);
      }
      assert e == EMPTY by {
        assert Get(e, Total) == 0 && Get(e, Size) == 0 && Get(e, Count) == 0;
      }
    }
  }

  lemma AddEventIff(x: AccElem, log: seq<Event>, s: int, e: Event)
    requires forall f :: Get(x, f) < WORD
    ensures Holds(if e.sec == s then Plus(x, e.elem) else x, log + [e], s) <==> Holds(x, log, s)
  {
    PlusWraps(x, e.elem);
    forall f
      ensures SumAt(log + [e], s, f) == SumAt(log, s, f) + if e.sec == s then Get(e.elem, f) else 0
      ensures (Get(x, f) + Get(e.elem, f)) % WORD == (SumAt(log, s, f) + Get(e.elem, f)) % WORD
         <==> Get(x, f) == SumAt(log, s, f) % WORD
    {
      assert (log + [e])[..|log|] == log;
      CancelWrap(Get(x, f), SumAt(log, s, f), Get(e.elem, f));
    }
  }

  lemma CancelWrap(x: nat, y: nat, a: nat)
    requires x < WORD
    ensures (x + a) % WORD == (y + a) % WORD <==> x == y % WORD
  {
  }

  /** Going back keeps the ring faithful if and only if it is safe. */
  lemma AddBackIff(totals: seq<AccElem>, last: nat, log: seq<Event>, sec: nat, a: AccElem)
    requires Represents(totals, last, log) && sec < last
    ensures Represents(totals[sec % SLOTS := Plus(totals[sec % SLOTS], a)], sec, log + [Event(sec, a)])
       <==> GoesBackSafely(log, sec, last)
  {
    var e := Event(sec, a);
    var next := totals[sec % SLOTS := Plus(totals[sec % SLOTS], a)];
    assert NoLaterThan(log + [e], sec) <==> NoLaterThan(log, sec) by {
      assert forall k :: 0 <= k < |log| ==> (log + [e])[k] == log[k];
    }
    if NoLaterThan(log, sec) {
      forall i | 0 <= i < SLOTS
        ensures Holds(next[i], log + [e], SecondOf(sec, i)) <==>
                SecondOf(last, i) <= sec || Holds(EMPTY, log, SecondOf(sec, i))
      {
        SecondOfIff(sec, i, sec);
        SlotGoneBack(totals[i], log, sec, last, i);
        AddEventIff(totals[i], log, SecondOf(sec, i), e);
      }
    }
  }

  /** A ring at second 100 and one at second 10 with something in slot 10: the merged ring has
      it in the slot of second 70, though neither log has anything in the last minute. */
  lemma StaleSlotCounted(a: seq<AccElem>, b: seq<AccElem>, sum: seq<AccElem>, x: AccElem, other: seq<Event>)
    requires a == seq(SLOTS, _ => EMPTY) && b == a[10 := x] && sum == Added(a, b)
    requires x == AccElem(1, 0, 1) && other == [Event(10, x)]
    ensures Represents(a, 100, []) && Represents(b, 10, other)
    ensures SecondOf(100, 10) == 70 && sum[10] == x && !Overflows(a, b)
    ensures WindowSum([] + other, 100, Total) == 0
    ensures !NoStaleSlots(b, 10, 100) && !Represents(sum, 100, [] + other)
  {
    forall i | 0 <= i < SLOTS ensures Holds(EMPTY, [], SecondOf(100, i)) {
      HoldsNothing([], SecondOf(100, i));
    }
    forall i | 0 <= i < SLOTS ensures Holds(b[i], other, SecondOf(10, i)) {
      SecondOfIff(10, i, 10);
      HoldsNothing([], SecondOf(10, i));
      HoldsEvent(EMPTY, [], SecondOf(10, i), Event(10, x));
      assert [] + [Event(10, x)] == other;
    }
    assert [] + other == other && other[..0] == [];
    MergeSlots(a, 100, [], b, 10, other, sum);
  }

  /** Every slot whose second has left the window of a later time is empty. */
  ghost predicate NoStaleSlots(totals: seq<AccElem>, last: nat, later: nat)
    requires |totals| == SLOTS
  {
    forall i :: 0 <= i < SLOTS && SecondOf(later, i) != SecondOf(last, i) ==> totals[i] == EMPTY
  }

  /** Adding an older ring slot by slot is right if and only if it has no stale slot. */
  lemma MergeSlots(
    a: seq<AccElem>, last: nat, log: seq<Event>, b: seq<AccElem>, older: nat, other: seq<Event>, sum: seq<AccElem>)
    requires Represents(a, last, log) && Represents(b, older, other) && older <= last && sum == Added(a, b)
    ensures Represents(sum, last, log + other) <==> NoStaleSlots(b, older, last)
  {
    assert NoLaterThan(log + other, last);
    forall i | 0 <= i < SLOTS
      ensures Holds(sum[i], log + other, SecondOf(last, i)) <==> SecondOf(last, i) == SecondOf(older, i) || b[i] == EMPTY
    {
      SecondOfLater(older, last, i);
      if SecondOf(last, i) == SecondOf(older, i) {
        SlotFresh(a[i], b[i], log, other, SecondOf(last, i));
      } else {
        SlotStale(a[i], b[i], log, other, SecondOf(last, i), SecondOf(older, i));
      }
    }
  }

  lemma SecondOfLater(older: nat, last: nat, slot: nat)
    requires older <= last && slot < SLOTS
    ensures SecondOf(last, slot) == SecondOf(older, slot) || SecondOf(last, slot) > older
  {
  }

  lemma SlotFresh(x: AccElem, y: AccElem, log: seq<Event>, other: seq<Event>, s: int)
    requires Holds(x, log, s) && Holds(y, other, s)
    ensures Holds(Plus(x, y), log + other, s)
  {
    PlusWraps(x, y);
    forall f ensures Get(Plus(x, y), f) == SumAt(log + other, s, f) % WORD {
      SumAtConcat(log, other, s, f);
      WrapAdd(SumAt(log, s, f), SumAt(other, s, f));
    }
  }

  lemma AddNothing(a: nat, b: nat)
    requires a < WORD && b < WORD
    ensures (a + b) % WORD == a <==> b == 0
  {
  }

  lemma SlotStale(x: AccElem, y: AccElem, log: seq<Event>, other: seq<Event>, s: int, old_: int)
    requires Holds(x, log, s) && Holds(y, other, old_) && NoLaterThan(other, s - 1)
    ensures Holds(Plus(x, y), log + other, s) <==> y == EMPTY
  {
    PlusWraps(x, y);
    forall f
      ensures Get(Plus(x, y), f) == SumAt(log + other, s, f) % WORD <==> Get(y, f) == 0
    {
      SumAtConcat(log, other, s, f);
      NothingLater(other, s, f);
      assert Get(x, f) == SumAt(log, s, f) % WORD && Get(y, f) == SumAt(other, old_, f) % WORD;
      AddNothing(Get(x, f), Get(y, f));
    }
    assert y == EMPTY <==> Get(y, Total) == 0 && Get(y, Size) == 0 && Get(y, Count) == 0;
  }

  /** The slots of two rings at the same time add up to the window of both logs. */
  lemma MergedWindow(log: seq<Event>, other: seq<Event>, t: nat, f: Field)
    ensures SlotSum(log + other, t, f, SLOTS) == WindowSum(log, t, f) + WindowSum(other, t, f)
  {
    SlotsAreWindow(log + other, t, f);
    WindowConcat(log, other, t, f);
  }

  ghost predicate NonDecreasing(events: seq<Event>) {
    forall i, j :: 0 <= i < j < |events| ==> events[i].sec <= events[j].sec
  }

  /** For every run of additions in order of time, reading the ring at the end or later gives
      exactly the wrapped sum of the events of the last sixty seconds. */
  method Replay(events: seq<Event>, now: nat) returns (r: AccElem)
    requires NonDecreasing(events) && NoLaterThan(events, now)
    ensures forall f :: Get(r, f) == WindowSum(events, now, f) % WORD
  {
    var ring := new LastMinuteLatency();
    for i := 0 to |events|
      invariant fresh(ring) && ring.Valid() && ring.log == events[..i]
      invariant ring.lastSec <= now && (i < |events| ==> ring.lastSec <= events[i].sec)
    {
      ring.AddAll(events[i].sec, events[i].elem);
      assert events[..i + 1] == events[..i] + [events[i]];
    }
    assert events[..|events|] == events;
    r := ring.GetTotal(now);
  }

  lemma PlusWraps(a: AccElem, b: AccElem)
    ensures forall f :: Get(Plus(a, b), f) == (Get(a, f) + Get(b, f)) % WORD
  {
  }

  /** After a minute or more every slot stands for a second with nothing logged. */
  lemma OldMinuteGone(log: seq<Event>, last: nat, t: nat)
    requires NoLaterThan(log, last) && t - last >= SLOTS
    ensures Represents(seq(SLOTS, _ => EMPTY), t, log)
  {
    forall i | 0 <= i < SLOTS ensures Holds(EMPTY, log, SecondOf(t, i)) {
      HoldsNothing(log, SecondOf(t, i));
    }
  }

  lemma SecondOfNext(last: nat, slot: nat)
    requires slot < SLOTS
    ensures SecondOf(last + 1, slot) == if slot == (last + 1) % SLOTS then last + 1 else SecondOf(last, slot)
  {
  }

  /** One second later the next slot is empty and all others stand for what they did. */
  lemma ForwardOne(totals: seq<AccElem>, last: nat, log: seq<Event>)
    requires Represents(totals, last, log)
    ensures Represents(totals[(last + 1) % SLOTS := EMPTY], last + 1, log)
  {
    HoldsNothing(log, last + 1);
    var next := totals[(last + 1) % SLOTS := EMPTY];
    forall i | 0 <= i < SLOTS ensures Holds(next[i], log, SecondOf(last + 1, i)) {
      SecondOfNext(last, i);
    }
  }

  /** Adding to the current second's slot is logging an event in that second. */
  lemma AddOne(totals: seq<AccElem>, last: nat, log: seq<Event>, a: AccElem)
    requires Represents(totals, last, log)
    ensures Represents(totals[last % SLOTS := Plus(totals[last % SLOTS], a)], last, log + [Event(last, a)])
  {
    var next := totals[last % SLOTS := Plus(totals[last % SLOTS], a)];
    forall i | 0 <= i < SLOTS ensures Holds(next[i], log + [Event(last, a)], SecondOf(last, i)) {
      SecondOfIff(last, i, last);
      HoldsEvent(totals[i], log, SecondOf(last, i), Event(last, a));
    }
  }
}
