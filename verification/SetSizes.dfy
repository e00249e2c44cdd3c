/** Which set sizes are used, in terms of remainders alone. */
module SetSizes {
  import opened Arith
  import opened Prelude
  import opened DisksLayout

  lemma SmallerDoesNotDivide(a: nat, b: nat)
    requires 0 < a < b
    ensures a % b == a
  {
    DivModUnique(a, b, 0, a);
  }

  /** The number of labels of the last ellipsis of the last argument. */
  function LastCount(patterns: seq<ArgPattern>): nat
    requires patterns != [] && patterns[|patterns| - 1] != []
  {
    var last := patterns[|patterns| - 1];
    |last[|last| - 1]|
  }

  /** A size passes the filter if and only if it divides, or is divided by, the number of labels
      of the last ellipsis. */
  lemma SymmetricIff(patterns: seq<ArgPattern>, s: nat)
    requires patterns != [] && EachHasEllipsis(patterns) && NoEmptyEllipsis(patterns) && s > 0
    ensures LastCount(patterns) > 0
    ensures Symmetric(patterns, s) <==> LastCount(patterns) % s == 0 || s % LastCount(patterns) == 0
  {
    var last := patterns[|patterns| - 1];
    assert last[|last| - 1] != [];
    var n := LastCount(patterns);
    if n > s {
      SmallerDoesNotDivide(s, n);
    } else if n < s {
      SmallerDoesNotDivide(n, s);
    }
  }

  /** A supported size that divides n. */
  ghost predicate Usable(s: nat, n: nat) {
    2 <= s <= 16 && n % s == 0
  }

  ghost predicate UsableForAll(s: nat, totals: seq<nat>) {
    2 <= s <= 16 && forall i :: 0 <= i < |totals| ==> totals[i] % s == 0
  }

  lemma UsableForAllIff(s: nat, totals: seq<nat>)
    ensures UsableForAll(s, totals) <==> MIN_SET_SIZE <= s <= MAX_SET_SIZE && DividesAll(s, totals)
  {
    if 2 <= s <= 16 {
      forall i | 0 <= i < |totals| ensures Divides(s, totals[i]) <==> totals[i] % s == 0 {
      }
    }
  }

  /** A size may be used if and only if it is supported, divides every total and passes the
      filter. */
  lemma CandidateIff(s: nat, totals: seq<nat>, patterns: seq<ArgPattern>)
    requires EachHasEllipsis(patterns) && NoEmptyEllipsis(patterns)
    ensures patterns != [] ==> LastCount(patterns) > 0
    ensures Candidate(s, totals, patterns) <==>
              UsableForAll(s, totals)
              && (patterns == [] || LastCount(patterns) % s == 0 || s % LastCount(patterns) == 0)
  {
    UsableForAllIff(s, totals);
    if patterns != [] {
      SymmetricIff(patterns, if s > 0 then s else 1);
    }
  }

  /** What counts of drives and requested counts are accepted, and which size is taken. */
  lemma SizeChoice(totals: seq<nat>, requested: nat, patterns: seq<ArgPattern>, s: nat)
    requires EachHasEllipsis(patterns) && NoEmptyEllipsis(patterns)
    ensures RightSize(s, totals, requested, patterns) <==>
              && Passes(s, totals, patterns)
              && (requested > 0 ==> s == requested)
              && (requested == 0 ==> forall t: nat :: Passes(t, totals, patterns) ==> t <= s)
    ensures Admissible(totals, requested, patterns) <==>
              && totals != [] && (forall i :: 0 <= i < |totals| ==> totals[i] >= 2 && totals[i] >= requested)
              && (if requested > 0 then Passes(requested, totals, patterns)
                  else exists t: nat :: Passes(t, totals, patterns))
  {
    forall t: nat ensures Candidate(t, totals, patterns) <==> Passes(t, totals, patterns) {
      CandidateIff(t, totals, patterns);
    }
  }

  ghost predicate Passes(s: nat, totals: seq<nat>, patterns: seq<ArgPattern>)
    requires EachHasEllipsis(patterns)
  {
    && UsableForAll(s, totals)
    && (patterns == [] || LastCount(patterns) % s == 0 || (LastCount(patterns) > 0 && s % LastCount(patterns) == 0))
  }

  /** With no requested count the drives can be cut if and only if their number has a divisor
      from 2 to 16, and the sets are of the largest. */
  ghost predicate LargestDivisor(n: nat, patterns: seq<ArgPattern>) {
    && (Admissible([n], 0, patterns) <==> n >= 2 && exists d: nat :: Usable(d, n))
    && (forall s: nat :: RightSize(s, [n], 0, patterns) <==> Usable(s, n) && forall d: nat :: Usable(d, n) ==> d <= s)
  }

  lemma FromPasses(n: nat, patterns: seq<ArgPattern>)
    requires EachHasEllipsis(patterns) && NoEmptyEllipsis(patterns)
    requires forall s: nat :: Passes(s, [n], patterns) <==> Usable(s, n)
    ensures LargestDivisor(n, patterns)
  {
    forall s: nat
      ensures RightSize(s, [n], 0, patterns) <==> Usable(s, n) && forall d: nat :: Usable(d, n) ==> d <= s
      ensures Admissible([n], 0, patterns) <==> n >= 2 && exists d: nat :: Usable(d, n)
    {
      SizeChoice([n], 0, patterns, s);
      assert [n][0] == n;
    }
    assert Admissible([n], 0, patterns) <==> n >= 2 && exists d: nat :: Usable(d, n) by {
      SizeChoice([n], 0, patterns, 0);
      assert [n][0] == n;
    }
  }

  lemma UsableForOne(s: nat, n: nat)
    ensures UsableForAll(s, [n]) <==> Usable(s, n)
  {
    assert [n][0] == n;
  }

  /** One argument with a single ellipsis. */
  lemma OneEllipsis(labels: seq<string>)
    requires labels != []
    ensures TotalSizes([[labels]]) == [|labels|] && LargestDivisor(|labels|, [[labels]])
  {
    var n := |labels|;
    assert [labels][1..] == [] && Product([labels]) == n;
    forall s: nat ensures Passes(s, [n], [[labels]]) <==> Usable(s, n) {
      UsableForOne(s, n);
    }
    FromPasses(n, [[labels]]);
  }

  /** Arguments without ellipses. */
  lemma PlainArguments(n: nat)
    ensures LargestDivisor(n, [])
  {
    forall s: nat ensures Passes(s, [n], []) <==> Usable(s, n) {
      UsableForOne(s, n);
    }
    FromPasses(n, []);
  }

  lemma LargestIs(n: nat, patterns: seq<ArgPattern>)
    requires LargestDivisor(n, patterns) && n % 16 == 0
    ensures RightSize(16, [n], 0, patterns)
  {
    assert Usable(16, n);
  }

  lemma FourRows(rows: seq<seq<nat>>)
    requires rows == Rows([64], 16)
    ensures rows == [[16, 16, 16, 16]]
  {
    assert rows[0] == seq(4, _ => 16) == [16, 16, 16, 16];
  }

  /** Sixty-four drives make four sets of sixteen. */
  lemma SixtyFourDrives(labels: seq<string>)
    requires |labels| == 64
    ensures RightSize(16, [64], 0, [[labels]]) && Rows([64], 16) == [[16, 16, 16, 16]]
  {
    OneEllipsis(labels);
    LargestIs(64, [[labels]]);
    FourRows(Rows([64], 16));
  }
}
