/** Erasure-set layout: the common divisor of the drive counts, the choice of a set size, and
    the partition of the endpoints into sets of that size. */
module DisksLayout {
  import opened Arith
  import opened Prelude

  const MIN_SET_SIZE: nat := 2    // SET_SIZES lists every size from 2 to 16
  const MAX_SET_SIZE: nat := 16

  // ---------------------------------------------------------------- common divisor

  predicate Divides(d: nat, n: nat)
    requires d > 0
  {
    n % d == 0
  }

  lemma MultipleOfMultiple(d: nat, k: nat, q: nat, r: nat)
    requires d > 0
    ensures ((d * k) * q + r) % d == r % d
  {
    assert (d * k) * q == d * (k * q);
    DivModShift(d, k * q, r);
  }

  /** One step of the Euclidean loop keeps the common divisors. */
  lemma EuclidStep(d: nat, x: nat, y: nat, k: nat, q: nat, r: nat)
    requires d > 0 && y > 0 && q == x / y && r == x % y && k == y / d
    ensures Divides(d, y) ==> (Divides(d, x) <==> Divides(d, r))
  {
    if Divides(d, y) {
      assert y == d * k;
      assert x == y * q + r;
      MultipleOfMultiple(d, k, q, r);
    }
  }

  /** The result is divided by exactly the common divisors. */
  method Gcd(a: nat, b: nat) returns (g: nat)
    ensures forall d: nat :: d > 0 ==> (Divides(d, g) <==> Divides(d, a) && Divides(d, b))
  {
    var x: nat, y: nat := a, b;
    while y != 0
      invariant forall d: nat :: d > 0 ==> (Divides(d, x) && Divides(d, y) <==> Divides(d, a) && Divides(d, b))
      decreases y
    {
      forall d: nat | d > 0
        ensures Divides(d, y) && Divides(d, x % y) <==> Divides(d, a) && Divides(d, b)
      {
        EuclidStep(d, x, y, y / d, x / y, x % y);
      }
      x, y := y, x % y;
    }
    g := x;
  }

  ghost predicate DividesAll(d: nat, totals: seq<nat>)
    requires d > 0
  {
    forall i :: 0 <= i < |totals| ==> Divides(d, totals[i])
  }

  /** `get_divisible_size`: divided by exactly the numbers that divide every total. */
  method DivisibleSize(totals: seq<nat>) returns (g: nat)
    requires totals != []
    ensures forall d: nat :: d > 0 ==> (Divides(d, g) <==> DividesAll(d, totals))
  {
    g := totals[0];
    for i := 1 to |totals|
      invariant forall d: nat :: d > 0 ==> (Divides(d, g) <==> DividesAll(d, totals[..i]))
    {
      ghost var before := g;
      g := Gcd(g, totals[i]);
      forall d: nat | d > 0
        ensures Divides(d, g) <==> DividesAll(d, totals[..i + 1])
      {
        assert Divides(d, before) <==> DividesAll(d, totals[..i]);
        DividesAllOneMore(d, totals, i);
      }
    }
    assert totals[..|totals|] == totals;
  }

  lemma DividesAllOneMore(d: nat, totals: seq<nat>, i: nat)
    requires d > 0 && i < |totals|
    ensures DividesAll(d, totals[..i + 1]) <==> DividesAll(d, totals[..i]) && Divides(d, totals[i])
  {
    if DividesAll(d, totals[..i + 1]) {
      assert Divides(d, totals[..i + 1][i]);
      assert forall j :: 0 <= j < i ==> totals[..i][j] == totals[..i + 1][j];
    }
    if DividesAll(d, totals[..i]) && Divides(d, totals[i]) {
      assert forall j :: 0 <= j < i ==> totals[..i + 1][j] == totals[..i][j];
    }
  }

  // ---------------------------------------------------------------- candidate set sizes

  ghost predicate Increasing(s: seq<nat>) {
    forall i, j :: 0 <= i < j < |s| ==> s[i] < s[j]
  }

  /** The supported set sizes that divide a drive count, in increasing order. */
  method PossibleSetCounts(setSize: nat) returns (ss: seq<nat>)
    ensures Increasing(ss)
    ensures forall s :: s in ss <==> MIN_SET_SIZE <= s <= MAX_SET_SIZE && Divides(s, setSize)
  {
    ss := [];
    for s := MIN_SET_SIZE to MAX_SET_SIZE + 1
      invariant Increasing(ss)
      invariant forall t :: t in ss <==> MIN_SET_SIZE <= t < s && Divides(t, setSize)
    {
      if setSize % s == 0 {
        assert forall i :: 0 <= i < |ss| ==> ss[i] in ss;
        ss := ss + [s];
      }
    }
  }

  /** The ellipses of one argument, each given by its labels. */
  type ArgPattern = seq<seq<string>>

  ghost predicate NoEmptyEllipsis(patterns: seq<ArgPattern>) {
    forall i, j :: 0 <= i < |patterns| && 0 <= j < |patterns[i]| ==> patterns[i][j] != []
  }

  predicate Fits(length: nat, s: nat) {
    length > 0 && s > 0 && if length > s then length % s == 0 else s % length == 0
  }

  /** The symmetry flag after the given arguments: the last ellipsis alone decides. */
  function SymmetryFlag(patterns: seq<ArgPattern>, s: nat): bool {
    if patterns == [] then false
    else
      var last := patterns[|patterns| - 1];
      if last == [] then SymmetryFlag(patterns[..|patterns| - 1], s)
      else Fits(|last[|last| - 1]|, s)
  }

  predicate Symmetric(patterns: seq<ArgPattern>, s: nat) {
    patterns == [] || SymmetryFlag(patterns, s)
  }

  method ComputeSymmetry(patterns: seq<ArgPattern>, s: nat) returns (symmetry: bool)
    requires s > 0 && NoEmptyEllipsis(patterns)
    ensures symmetry == SymmetryFlag(patterns, s)
  {
    symmetry := false;
    for i := 0 to |patterns|
      invariant symmetry == SymmetryFlag(patterns[..i], s)
    {
      var pattern := patterns[i];
      ghost var before := symmetry;
      for j := 0 to |pattern|
        invariant symmetry == if j == 0 then before else Fits(|pattern[j - 1]|, s)
      {
        assert pattern[j] != [];
        if |pattern[j]| > s {
          symmetry := |pattern[j]| % s == 0;
        } else {
          symmetry := s % |pattern[j]| == 0;
        }
      }
      assert patterns[..i + 1][..i] == patterns[..i];
    }
    assert patterns[..|patterns|] == patterns;
  }

  /** The elements of a set in increasing order. */
  method Sorted(S: set<nat>) returns (r: seq<nat>)
    ensures Increasing(r)
    ensures forall x :: x in r <==> x in S
  {
    r := [];
    var todo := S;
    while todo != {}
      invariant Increasing(r) && todo <= S
      invariant forall x :: x in r <==> x in S - todo
      invariant forall i, x :: 0 <= i < |r| && x in todo ==> r[i] < x
    {
      var m := Least(todo);
      assert forall x :: x in todo - {m} ==> m < x;
      r, todo := r + [m], todo - {m};
    }
  }

  method Least(S: set<nat>) returns (m: nat)
    requires S != {}
    ensures m in S && forall x :: x in S ==> m <= x
  {
    m :| m in S;
    var todo := S - {m};
    while todo != {}
      invariant m in S && todo <= S
      invariant forall x :: x in S && x !in todo ==> m <= x
    {
      var x :| x in todo;
      if x < m { m := x; }
      todo := todo - {x};
    }
  }

  /** The candidates that pass the symmetry filter. */
  method SymmetricSetCounts(counts: seq<nat>, patterns: seq<ArgPattern>) returns (r: seq<nat>)
    requires NoEmptyEllipsis(patterns) && forall s :: s in counts ==> s > 0
    ensures Increasing(r)
    ensures forall s :: s in r <==> s in counts && Symmetric(patterns, s)
  {
    var kept: set<nat> := {};
    for i := 0 to |counts|
      invariant forall s :: s in kept <==> s in counts[..i] && Symmetric(patterns, s)
    {
      var ss := counts[i];
      assert ss in counts;
      var symmetry := ComputeSymmetry(patterns, ss);
      if ss !in kept && (symmetry || patterns == []) {
        kept := kept + {ss};
      }
      assert counts[..i + 1] == counts[..i] + [ss];
    }
    assert counts[..|counts|] == counts;
    r := Sorted(kept);
  }

  /** `common_set_drive_count`: the largest count that divides the size, if any does. */
  method CommonSetDriveCount(size: nat, counts: seq<nat>) returns (r: nat)
    requires counts != [] && Increasing(counts) && counts[0] > 0
    ensures size < counts[|counts| - 1] ==> r == size
    ensures size >= counts[|counts| - 1] ==>
              (if exists c :: c in counts && Chosen(size, counts, c) then Chosen(size, counts, r) else r == 0)
  {
    if size < counts[|counts| - 1] {
      return size;
    }
    var prev := size / counts[0];
    r := 0;
    for i := 0 to |counts|
      invariant prev == if r == 0 then size / counts[0] else size / r
      invariant r == 0 ==> forall j :: 0 <= j < i ==> !Divides(counts[j], size)
      invariant r != 0 ==> r in counts[..i] && Divides(r, size)
      invariant r != 0 ==> forall j :: 0 <= j < i && Divides(counts[j], size) ==> counts[j] <= r
    {
      var cnt := counts[i];
      assert counts[0] <= cnt;
      if size % cnt == 0 {
        var d := size / cnt;
        DivAntitone(size, if r == 0 then counts[0] else r, cnt);
        if d <= prev {
          prev, r := d, cnt;
        }
      }
    }
  }

  /** c divides the size and no larger listed count does. */
  ghost predicate Chosen(size: nat, counts: seq<nat>, c: nat) {
    && c in counts && c > 0 && Divides(c, size)
    && forall j :: 0 <= j < |counts| && counts[j] > 0 && Divides(counts[j], size) ==> counts[j] <= c
  }

  lemma DivAntitone(n: nat, a: nat, b: nat)
    requires 0 < a <= b
    ensures n / b <= n / a
  {
    if n / a < n / b {
      MulLess(a, n / a, n / b);
      MulMore(n / b, a, b);
    }
  }

  lemma MulMore(k: nat, a: nat, b: nat)
    requires a <= b
    ensures a * k <= b * k
  {
    assert b * k == a * k + (b - a) * k;
  }

  // ---------------------------------------------------------------- the set size

  datatype LayoutError =
    | InvalidArgument
    | TooFewEndpoints
    | NoSupportedSize
    | NoSymmetry
    | InvalidDriveCount
    | InvalidSetSize
    | BadDriveCount
    | BadEllipsis
    | MixedArguments
    | DuplicateEllipses

  /** A supported size that divides every total. */
  ghost predicate Supported(s: nat, totals: seq<nat>) {
    MIN_SET_SIZE <= s <= MAX_SET_SIZE && DividesAll(s, totals)
  }

  /** A set size that may be used: supported, common to all totals, and symmetric. */
  ghost predicate Candidate(s: nat, totals: seq<nat>, patterns: seq<ArgPattern>) {
    MIN_SET_SIZE <= s <= MAX_SET_SIZE && DividesAll(s, totals) && Symmetric(patterns, s)
  }

  ghost predicate Best(s: nat, totals: seq<nat>, patterns: seq<ArgPattern>) {
    && Candidate(s, totals, patterns)
    && forall t: nat :: Candidate(t, totals, patterns) ==> t <= s
  }

  /** The promise behind the symmetry filter: the set size is uniform across all ellipses. */
  ghost predicate AllFit(patterns: seq<ArgPattern>, s: nat) {
    forall i, j :: 0 <= i < |patterns| && 0 <= j < |patterns[i]| ==> Fits(|patterns[i][j]|, s)
  }

  predicate IsLast(patterns: seq<ArgPattern>, i: nat, j: nat)
    requires i < |patterns| && j < |patterns[i]|
  {
    i == |patterns| - 1 && j == |patterns[i]| - 1
  }

  /** All ellipses fit, the last of the parsed list apart. */
  ghost predicate OthersFit(patterns: seq<ArgPattern>, s: nat) {
    forall i: nat, j: nat ::
      i < |patterns| && j < |patterns[i]| && !IsLast(patterns, i, j) ==> Fits(|patterns[i][j]|, s)
  }

  ghost predicate LastFits(patterns: seq<ArgPattern>, s: nat)
    requires patterns != [] && patterns[|patterns| - 1] != []
  {
    var last := patterns[|patterns| - 1];
    Fits(|last[|last| - 1]|, s)
  }

  /** The filter keeps every size that the promise allows. */
  lemma UniformIsSymmetric(patterns: seq<ArgPattern>, s: nat)
    requires EachHasEllipsis(patterns) && AllFit(patterns, s)
    ensures Symmetric(patterns, s)
  {
    if patterns != [] {
      var last := patterns[|patterns| - 1];
      assert Fits(|last[|last| - 1]|, s);
    }
  }

  /** The filter and the promise agree on a size if and only if the last ellipsis does not fit
      it or all others do too. A size that passes is thus uniform just when all others fit. */
  lemma SymmetryHonestIff(patterns: seq<ArgPattern>, s: nat)
    requires patterns != [] && EachHasEllipsis(patterns)
    ensures (Symmetric(patterns, s) <==> AllFit(patterns, s)) <==> !LastFits(patterns, s) || OthersFit(patterns, s)
    ensures Symmetric(patterns, s) ==> (AllFit(patterns, s) <==> OthersFit(patterns, s))
  {
    var m := |patterns| - 1;
    var n := |patterns[m]| - 1;
    assert IsLast(patterns, m, n);
    assert Symmetric(patterns, s) <==> Fits(|patterns[m][n]|, s);
    if OthersFit(patterns, s) && LastFits(patterns, s) {
      forall i, j | 0 <= i < |patterns| && 0 <= j < |patterns[i]| ensures Fits(|patterns[i][j]|, s) {
        assert IsLast(patterns, i, j) ==> i == m && j == n;
      }
    }
  }

  /** With a single ellipsis the filter is the promise. */
  lemma OneEllipsisHonest(labels: seq<string>, s: nat)
    ensures Symmetric([[labels]], s) <==> AllFit([[labels]], s)
  {
    SymmetryHonestIff([[labels]], s);
  }

  /** Nine drives on each of two hosts: the code settles for sets of six, which nine drives do
      not fit, and no supported size at all would keep the promise. */
  lemma SymmetryMissesOne(nine: seq<string>, two: seq<string>, patterns: seq<ArgPattern>)
    requires |nine| == 9 && |two| == 2 && patterns == [[nine, two]]
    ensures TotalSizes(patterns) == [18]
    ensures Best(6, TotalSizes(patterns), patterns) && Divisible(0, Ellipses(patterns))
    ensures !Fits(9, 6)
    ensures forall s: nat :: MIN_SET_SIZE <= s <= MAX_SET_SIZE && DividesAll(s, TotalSizes(patterns)) ==> !AllFit(patterns, s)
  {
    NineTimesTwo(nine, two);
    var totals := TotalSizes(patterns);
    assert patterns[..0] == [];
    forall s: nat | MIN_SET_SIZE <= s <= MAX_SET_SIZE && DividesAll(s, totals)
      ensures s in {2, 3, 6, 9} && (Symmetric(patterns, s) <==> s in {2, 6}) && !AllFit(patterns, s)
    {
      DivisorsOfEighteen(totals, s);
      assert Fits(|patterns[0][0]|, s) <==> Fits(9, s);
      assert Fits(|patterns[0][1]|, s) <==> Fits(2, s);
    }
    assert DividesAll(6, totals);
    assert Candidate(6, totals, patterns);
  }

  lemma NineTimesTwo(nine: seq<string>, two: seq<string>)
    requires |nine| == 9 && |two| == 2
    ensures TotalSizes([[nine, two]]) == [18]
  {
    assert [nine, two][1..] == [two] && [two][1..] == [];
    assert Product([two]) == 2 && Product([nine, two]) == 18;
  }

  lemma DivisorsOfEighteen(totals: seq<nat>, s: nat)
    requires totals == [18] && MIN_SET_SIZE <= s <= MAX_SET_SIZE && DividesAll(s, totals)
    ensures s in {2, 3, 6, 9}
  {
    assert Divides(s, totals[0]);
  }

  /** The totals are large enough for the smallest set and for the requested one. */
  ghost predicate BigEnough(totals: seq<nat>, requested: nat) {
    forall i :: 0 <= i < |totals| ==> totals[i] >= MIN_SET_SIZE && totals[i] >= requested
  }

  lemma CommonIsLarge(common: nat, totals: seq<nat>, c: nat)
    requires forall d: nat :: d > 0 ==> (Divides(d, common) <==> DividesAll(d, totals))
    requires totals != [] && totals[0] > 0 && c > 0 && Divides(c, common)
    ensures c <= common
  {
    var d := totals[0] + 1;
    assert !Divides(d, totals[0]);
    assert Divides(d, 0);
  }

  lemma BestIsChosen(common: nat, counts: seq<nat>, totals: seq<nat>, patterns: seq<ArgPattern>, r: nat)
    requires counts != [] && Increasing(counts)
    requires forall t: nat :: t in counts <==> Candidate(t, totals, patterns)
    requires forall d: nat :: d > 0 ==> (Divides(d, common) <==> DividesAll(d, totals))
    requires if exists c :: c in counts && Chosen(common, counts, c) then Chosen(common, counts, r) else r == 0
    ensures Best(r, totals, patterns)
  {
    var last := counts[|counts| - 1];
    assert last in counts;
    assert Chosen(common, counts, last);
    forall t: nat | Candidate(t, totals, patterns) ensures t <= r {
      assert t in counts;
      assert DividesAll(t, totals);
    }
  }

  /** For every total, the sizes of its sets. */
  function Rows(totals: seq<nat>, s: nat): (rows: seq<seq<nat>>)
    requires s > 0
    ensures |rows| == |totals|
  {
    seq(|totals|, i requires 0 <= i < |totals| => seq(totals[i] / s, _ => s))
  }

  /** Some set size can be used; the requested one, if one is requested. */
  ghost predicate Admissible(totals: seq<nat>, requested: nat, patterns: seq<ArgPattern>) {
    && totals != [] && BigEnough(totals, requested)
    && (if requested > 0 then Candidate(requested, totals, patterns)
        else exists t: nat :: Candidate(t, totals, patterns))
  }

  ghost predicate RightSize(s: nat, totals: seq<nat>, requested: nat, patterns: seq<ArgPattern>) {
    Candidate(s, totals, patterns) && if requested > 0 then s == requested else Best(s, totals, patterns)
  }

  /** `get_set_indexes` succeeds exactly when the arguments allow a set size, and then splits
      every total into sets of one size: the requested one, or else the largest candidate. */
  method GetSetIndexes(args: nat, totals: seq<nat>, requested: nat, patterns: seq<ArgPattern>)
    returns (r: Result<seq<seq<nat>>, LayoutError>, ghost s: nat)
    requires NoEmptyEllipsis(patterns)
    ensures r.Ok? <==> args > 0 && Admissible(totals, requested, patterns)
    ensures r.Ok? ==> s > 0 && r.value == Rows(totals, s) && RightSize(s, totals, requested, patterns)
    ensures r == Err(InvalidArgument) <==> args == 0 || totals == []
    ensures r == Err(TooFewEndpoints) <==> args > 0 && totals != [] && !BigEnough(totals, requested)
    ensures args > 0 && totals != [] && BigEnough(totals, requested) ==>
      && (r == Err(NoSupportedSize) <==> !exists t: nat :: Supported(t, totals))
      && (r == Err(NoSymmetry) <==>
            (exists t: nat :: Supported(t, totals)) && !exists t: nat :: Candidate(t, totals, patterns))
      && (r == Err(InvalidDriveCount) <==>
            (exists t: nat :: Candidate(t, totals, patterns)) && requested > 0 && !Candidate(requested, totals, patterns))
    ensures r.Err? ==> r.error in {InvalidArgument, TooFewEndpoints, NoSupportedSize, NoSymmetry, InvalidDriveCount}
  {
    s := 0;
    if args == 0 || totals == [] {
      return Err(InvalidArgument), s;
    }
    for i := 0 to |totals|
      invariant BigEnough(totals[..i], requested)
    {
      if totals[i] < MIN_SET_SIZE || totals[i] < requested {
        return Err(TooFewEndpoints), s;
      }
    }
    assert BigEnough(totals, requested);
    var common := DivisibleSize(totals);
    var counts := PossibleSetCounts(common);
    assert forall t: nat :: t in counts <==> Supported(t, totals);
    assert counts != [] ==> Supported(counts[0], totals);
    if counts == [] {
      return Err(NoSupportedSize), s;
    }
    counts := SymmetricSetCounts(counts, patterns);
    assert forall t: nat :: t in counts <==> Candidate(t, totals, patterns);
    assert counts != [] ==> Candidate(counts[0], totals, patterns);
    if counts == [] {
      return Err(NoSymmetry), s;
    }
    var setSize := requested;
    if requested > 0 {
      if requested !in counts {
        return Err(InvalidDriveCount), s;
      }
    } else {
      counts := SymmetricSetCounts(counts, patterns);
      if counts == [] {
        return Err(NoSymmetry), s;
      }
      setSize := LargestSetSize(common, counts, totals, patterns);
    }
    if setSize < MIN_SET_SIZE || setSize > MAX_SET_SIZE {
      return Err(InvalidSetSize), s;
    }
    s := setSize;
    r := Ok(Rows(totals, setSize));
  }

  /** The common drive count for the candidates is the largest of them. */
  method LargestSetSize(common: nat, counts: seq<nat>, ghost totals: seq<nat>, ghost patterns: seq<ArgPattern>)
    returns (setSize: nat)
    requires totals != [] && totals[0] > 0 && counts != [] && Increasing(counts)
    requires forall t: nat :: t in counts <==> Candidate(t, totals, patterns)
    requires forall d: nat :: d > 0 ==> (Divides(d, common) <==> DividesAll(d, totals))
    ensures Best(setSize, totals, patterns)
  {
    assert counts[0] in counts && counts[|counts| - 1] in counts;
    CommonIsLarge(common, totals, counts[|counts| - 1]);
    setSize := CommonSetDriveCount(common, counts);
    BestIsChosen(common, counts, totals, patterns, setSize);
  }

  // ---------------------------------------------------------------- splitting the endpoints

  function Concat<T>(ss: seq<seq<T>>): seq<T> {
    if ss == [] then [] else Concat(ss[..|ss| - 1]) + ss[|ss| - 1]
  }

  function Sum(s: seq<nat>): nat {
    if s == [] then 0 else Sum(s[..|s| - 1]) + s[|s| - 1]
  }

  lemma {:induction false} ConcatAppend<T>(ss: seq<seq<T>>, ts: seq<seq<T>>)
    ensures Concat(ss + ts) == Concat(ss) + Concat(ts)
    decreases |ts|
  {
    if ts == [] {
      assert ss + ts == ss;
    } else {
      var init, last := ts[..|ts| - 1], ts[|ts| - 1];
      assert (ss + ts)[..|ss + ts| - 1] == ss + init;
      assert Concat(ss + ts) == Concat(ss + init) + last;
      ConcatAppend(ss, init);
      assert Concat(ss) + Concat(init) + last == Concat(ss) + (Concat(init) + last);
    }
  }

  lemma ConcatOneMore<T>(ss: seq<seq<T>>, last: seq<T>)
    ensures Concat(ss + [last]) == Concat(ss) + last
  {
    assert (ss + [last])[..|ss|] == ss;
  }

  lemma {:induction false} SumAppend(s: seq<nat>, t: seq<nat>)
    ensures Sum(s + t) == Sum(s) + Sum(t)
    decreases |t|
  {
    if t == [] {
      assert s + t == s;
    } else {
      assert (s + t)[..|s + t| - 1] == s + t[..|t| - 1];
      SumAppend(s, t[..|t| - 1]);
    }
  }

  lemma {:induction false} SumPrefix(s: seq<nat>, k: nat)
    requires k <= |s|
    ensures Sum(s[..k]) <= Sum(s)
    decreases |s|
  {
    if k < |s| {
      SumPrefix(s[..|s| - 1], k);
      assert s[..|s| - 1][..k] == s[..k];
    } else {
      assert s[..k] == s;
    }
  }

  ghost predicate Lengths<T>(sets: seq<seq<T>>, sizes: seq<nat>) {
    |sets| == |sizes| && forall i :: 0 <= i < |sets| ==> |sets[i]| == sizes[i]
  }

  /** The inner loop of `EndpointSet::get`. */
  method SplitRow<T>(endpoints: seq<T>, row: seq<nat>, first: nat) returns (sets: seq<seq<T>>, start: nat)
    requires first + Sum(row) <= |endpoints|
    ensures start == first + Sum(row) && Lengths(sets, row)
    ensures Concat(sets) == endpoints[first..start]
  {
    sets, start := [], first;
    for j := 0 to |row|
      invariant start == first + Sum(row[..j]) <= |endpoints| && Lengths(sets, row[..j])
      invariant Concat(sets) == endpoints[first..start]
    {
      assert row[..j + 1][..j] == row[..j];
      SumPrefix(row, j + 1);
      var end := row[j] + start;
      ConcatOneMore(sets, endpoints[start..end]);
      assert endpoints[first..start] + endpoints[start..end] == endpoints[first..end];
      sets, start := sets + [endpoints[start..end]], end;
    }
    assert row[..|row|] == row;
  }

  /** `EndpointSet::get`: when the set sizes add up to no more than there are endpoints, no
      slice is out of range, and the sets follow one another through the list. */
  method SplitEndpoints<T>(endpoints: seq<T>, rows: seq<seq<nat>>) returns (sets: seq<seq<T>>)
    requires Sum(Concat(rows)) <= |endpoints|
    ensures Lengths(sets, Concat(rows))
    ensures Concat(sets) == endpoints[..Sum(Concat(rows))]
  {
    sets := [];
    var start := 0;
    for i := 0 to |rows|
      invariant start == Sum(Concat(rows[..i])) <= |endpoints| && Lengths(sets, Concat(rows[..i]))
      invariant Concat(sets) == endpoints[..start]
    {
      RowsOneMore(rows, i);
      var more, end := SplitRow(endpoints, rows[i], start);
      ConcatAppend(sets, more);
      LengthsAppend(sets, Concat(rows[..i]), more, rows[i]);
      assert endpoints[..start] + endpoints[start..end] == endpoints[..end];
      sets, start := sets + more, end;
    }
    assert rows[..|rows|] == rows;
  }

  lemma RowsOneMore(rows: seq<seq<nat>>, i: nat)
    requires i < |rows|
    ensures Concat(rows[..i + 1]) == Concat(rows[..i]) + rows[i]
    ensures Sum(Concat(rows[..i])) + Sum(rows[i]) == Sum(Concat(rows[..i + 1])) <= Sum(Concat(rows))
  {
    assert rows[..i + 1][..i] == rows[..i];
    SumAppend(Concat(rows[..i]), rows[i]);
    PrefixOfConcat(rows, i + 1);
  }

  lemma LengthsAppend<T>(sets: seq<seq<T>>, a: seq<nat>, more: seq<seq<T>>, b: seq<nat>)
    requires Lengths(sets, a) && Lengths(more, b)
    ensures Lengths(sets + more, a + b)
  {
  }

  lemma {:induction false} PrefixOfConcat(rows: seq<seq<nat>>, i: nat)
    requires i <= |rows|
    ensures Sum(Concat(rows[..i])) <= Sum(Concat(rows))
    decreases |rows|
  {
    if i < |rows| {
      PrefixOfConcat(rows[..|rows| - 1], i);
      assert rows[..|rows| - 1][..i] == rows[..i];
      SumAppend(Concat(rows[..|rows| - 1]), rows[|rows| - 1]);
    } else {
      assert rows[..i] == rows;
    }
  }

  lemma {:induction false} SumConstant(n: nat, s: nat, row: seq<nat>)
    requires row == seq(n, _ => s)
    ensures Sum(row) == n * s
  {
    if n > 0 {
      SumConstant(n - 1, s, row[..n - 1]);
      assert n * s == (n - 1) * s + s;
    }
  }

  /** Every row adds up to its total. */
  lemma RowSum(totals: seq<nat>, s: nat, i: nat)
    requires s > 0 && DividesAll(s, totals) && i < |totals|
    ensures Sum(Rows(totals, s)[i]) == totals[i]
  {
    SumConstant(totals[i] / s, s, Rows(totals, s)[i]);
    assert Divides(s, totals[i]);
    assert totals[i] == (totals[i] / s) * s;
  }

  /** The rows together add up to the number of endpoints. */
  lemma {:induction false} RowsSum(totals: seq<nat>, s: nat)
    requires s > 0 && DividesAll(s, totals)
    ensures Sum(Concat(Rows(totals, s))) == Sum(totals)
    decreases |totals|
  {
    if totals != [] {
      var n := |totals| - 1;
      var rows := Rows(totals, s);
      assert rows[..n] == Rows(totals[..n], s);
      RowsSum(totals[..n], s);
      RowSum(totals, s, n);
      SumAppend(Concat(rows[..n]), rows[n]);
    }
  }

  lemma {:induction false} RowsUniform(totals: seq<nat>, s: nat)
    requires s > 0
    ensures forall x :: x in Concat(Rows(totals, s)) ==> x == s
    decreases |totals|
  {
    if totals != [] {
      var n := |totals| - 1;
      assert Rows(totals, s)[..n] == Rows(totals[..n], s);
      RowsUniform(totals[..n], s);
    }
  }

  lemma {:induction false} UniformLength<T>(sets: seq<seq<T>>, s: nat)
    requires forall i :: 0 <= i < |sets| ==> |sets[i]| == s
    ensures |Concat(sets)| == |sets| * s
    decreases |sets|
  {
    if sets != [] {
      var n := |sets| - 1;
      UniformLength(sets[..n], s);
      assert |sets| * s == n * s + s;
    }
  }

  /** In sets of one size s, the k-th endpoint is number k % s of set k / s. */
  lemma {:induction false} UniformSets<T>(sets: seq<seq<T>>, s: nat, k: nat)
    requires s > 0 && (forall i :: 0 <= i < |sets| ==> |sets[i]| == s) && k < |Concat(sets)|
    ensures k / s < |sets| && Concat(sets)[k] == sets[k / s][k % s]
    decreases |sets|
  {
    var n := |sets| - 1;
    UniformLength(sets[..n], s);
    if k < n * s {
      UniformSets(sets[..n], s, k);
    } else {
      DivModUnique(k, s, n, k - n * s);
    }
  }

  // ---------------------------------------------------------------- expanding ellipses

  function Product(pattern: ArgPattern): nat {
    if pattern == [] then 1 else |pattern[0]| * Product(pattern[1..])
  }

  function AppendToAll(others: seq<seq<string>>, value: string): seq<seq<string>> {
    seq(|others|, i requires 0 <= i < |others| => others[i] + [value])
  }

  function ForEachLabel(labels: seq<string>, others: seq<seq<string>>): seq<seq<string>> {
    if labels == [] then [] else AppendToAll(others, labels[0]) + ForEachLabel(labels[1..], others)
  }

  /** `arg_expander`: every combination of one label per ellipsis. */
  function Expand(pattern: ArgPattern): seq<seq<string>>
    requires pattern != []
  {
    if |pattern| == 1 then seq(|pattern[0]|, i requires 0 <= i < |pattern[0]| => [pattern[0][i]])
    else ForEachLabel(pattern[0], Expand(pattern[1..]))
  }

  lemma {:induction false} ForEachLabelLength(labels: seq<string>, others: seq<seq<string>>)
    ensures |ForEachLabel(labels, others)| == |labels| * |others|
    decreases |labels|
  {
    if labels != [] {
      ForEachLabelLength(labels[1..], others);
      assert |labels| * |others| == |others| + (|labels| - 1) * |others|;
    } else {
      assert |labels| * |others| == 0;
    }
  }

  /** An argument expands to as many endpoints as `total_sizes` says. */
  lemma {:induction false} ExpandLength(pattern: ArgPattern)
    requires pattern != []
    ensures |Expand(pattern)| == Product(pattern)
    decreases |pattern|
  {
    if |pattern| == 1 {
      assert Product(pattern[1..]) == 1;
    } else {
      ExpandLength(pattern[1..]);
      ForEachLabelLength(pattern[0], Expand(pattern[1..]));
    }
  }

  function Joined(parts: seq<string>): string {
    if parts == [] then "" else parts[0] + Joined(parts[1..])
  }

  function ExpandOne(pattern: ArgPattern): seq<string>
    requires pattern != []
  {
    seq(|Expand(pattern)|, i requires 0 <= i < |Expand(pattern)| => Joined(Expand(pattern)[i]))
  }

  ghost predicate EachHasEllipsis(patterns: seq<ArgPattern>) {
    forall i :: 0 <= i < |patterns| ==> patterns[i] != []
  }

  function ExpandAll(patterns: seq<ArgPattern>): seq<string>
    requires EachHasEllipsis(patterns)
  {
    if patterns == [] then []
    else ExpandAll(patterns[..|patterns| - 1]) + ExpandOne(patterns[|patterns| - 1])
  }

  function TotalSizes(patterns: seq<ArgPattern>): seq<nat> {
    seq(|patterns|, i requires 0 <= i < |patterns| => Product(patterns[i]))
  }

  /** The list has as many endpoints as the totals add up to. */
  lemma {:induction false} ExpandAllLength(patterns: seq<ArgPattern>)
    requires EachHasEllipsis(patterns)
    ensures |ExpandAll(patterns)| == Sum(TotalSizes(patterns))
    decreases |patterns|
  {
    if patterns != [] {
      var n := |patterns| - 1;
      assert TotalSizes(patterns)[..n] == TotalSizes(patterns[..n]);
      ExpandAllLength(patterns[..n]);
      ExpandLength(patterns[n]);
    }
  }

  // ---------------------------------------------------------------- the layout of one pool

  datatype Args = Plain(args: seq<string>) | Ellipses(patterns: seq<ArgPattern>)

  ghost predicate ValidArgs(a: Args) {
    match a
    case Plain(args) => args != []
    case Ellipses(patterns) => NoEmptyEllipsis(patterns) && EachHasEllipsis(patterns)
  }

  function EndpointsOf(a: Args): seq<string>
    requires ValidArgs(a)
  {
    match a
    case Plain(args) => args
    case Ellipses(patterns) => ExpandAll(patterns)
  }

  ghost function Elements<T>(s: seq<T>): set<T> {
    set x | x in s
  }

  /** There are as many elements as places. */
  ghost predicate NoDuplicates<T>(s: seq<T>) {
    |Elements(s)| == |s|
  }

  lemma {:induction false} NoDuplicatesIff<T>(s: seq<T>)
    ensures NoDuplicates(s) <==> forall i, j :: 0 <= i < j < |s| ==> s[i] != s[j]
    ensures |Elements(s)| <= |s|
    decreases |s|
  {
    if s != [] {
      var init, last := s[..|s| - 1], s[|s| - 1];
      NoDuplicatesIff(init);
      assert Elements(s) == Elements(init) + {last};
      assert last in init <==> exists i :: 0 <= i < |init| && s[i] == last;
    }
  }

  /** The sets have one common size and, put together in order, are the endpoints. */
  ghost predicate Partition<T>(endpoints: seq<T>, sets: seq<seq<T>>, s: nat) {
    s > 0 && Concat(sets) == endpoints && forall i :: 0 <= i < |sets| ==> |sets[i]| == s
  }

  /** Cutting along the rows of one set size gives a partition. */
  method SplitUniform<T>(endpoints: seq<T>, rows: seq<seq<nat>>, ghost totals: seq<nat>, ghost s: nat)
    returns (sets: seq<seq<T>>)
    requires s > 0 && DividesAll(s, totals) && rows == Rows(totals, s) && Sum(totals) == |endpoints|
    ensures Partition(endpoints, sets, s)
  {
    RowsSum(totals, s);
    RowsUniform(totals, s);
    sets := SplitEndpoints(endpoints, rows);
    assert endpoints[..|endpoints|] == endpoints;
    forall i | 0 <= i < |sets| ensures |sets[i]| == s {
      assert Concat(rows)[i] in Concat(rows);
    }
  }

  /** The arguments can be cut into sets; a lone one always can. */
  ghost predicate Divisible(requested: nat, a: Args) {
    match a
    case Plain(args) => |args| <= 1 || Admissible([|args|], requested, [])
    case Ellipses(patterns) => patterns != [] && Admissible(TotalSizes(patterns), requested, patterns)
  }

  ghost predicate FinalSize(s: nat, requested: nat, a: Args) {
    match a
    case Plain(args) => if |args| <= 1 then s == |args| else RightSize(s, [|args|], requested, [])
    case Ellipses(patterns) => RightSize(s, TotalSizes(patterns), requested, patterns)
  }

  /** The set sizes for the arguments of one pool. */
  method SetIndexesFor(requested: nat, a: Args)
    returns (rows: Result<seq<seq<nat>>, LayoutError>, ghost totals: seq<nat>, ghost s: nat)
    requires ValidArgs(a)
    ensures Sum(totals) == |EndpointsOf(a)|
    ensures rows.Ok? <==> Divisible(requested, a)
    ensures rows.Ok? ==> s > 0 && DividesAll(s, totals) && rows.value == Rows(totals, s) && FinalSize(s, requested, a)
    ensures rows.Err? ==> rows.error != DuplicateEllipses
  {
    match a {
      case Plain(args) =>
        totals := [|args|];
        assert totals[..0] == [];
        if |args| > 1 {
          rows, s := GetSetIndexes(|args|, [|args|], requested, []);
        } else {
          rows, s := Ok([[|args|]]), 1;
          assert Rows(totals, 1)[0] == [1];
        }
      case Ellipses(patterns) =>
        ExpandAllLength(patterns);
        totals := TotalSizes(patterns);
        rows, s := GetSetIndexes(|patterns|, TotalSizes(patterns), requested, patterns);
    }
  }

  /** `get_all_sets`: an accepted layout has no endpoint twice and cuts the list, in order,
      into sets of one size. */
  method GetAllSets(requested: nat, a: Args) returns (r: Result<seq<seq<string>>, LayoutError>, ghost s: nat)
    requires ValidArgs(a)
    ensures r.Ok? <==> Divisible(requested, a) && NoDuplicates(EndpointsOf(a))
    ensures r.Ok? ==> Partition(EndpointsOf(a), r.value, s) && FinalSize(s, requested, a)
    ensures r == Err(DuplicateEllipses) <==> Divisible(requested, a) && !NoDuplicates(EndpointsOf(a))
  {
    var rows: Result<seq<seq<nat>>, LayoutError>;
    ghost var totals: seq<nat>;
    rows, totals, s := SetIndexesFor(requested, a);
    if rows.Err? {
      return Err(rows.error), s;
    }
    var sets := SplitUniform(EndpointsOf(a), rows.value, totals, s);
    var unique := CheckUnique(Concat(sets));
    if !unique {
      return Err(DuplicateEllipses), s;
    }
    r := Ok(sets);
  }

  method CheckUnique<T(==)>(args: seq<T>) returns (unique: bool)
    ensures unique <==> NoDuplicates(args)
  {
    NoDuplicatesIff(args);
    var seen: set<T> := {};
    for i := 0 to |args|
      invariant seen == set k | 0 <= k < i :: args[k]
      invariant forall j, k :: 0 <= j < k < i ==> args[j] != args[k]
    {
      if args[i] in seen {
        return false;
      }
      seen := seen + {args[i]};
    }
    unique := true;
  }

  // ---------------------------------------------------------------- from the command line

  /** `marks` tells an argument with braces or dots, `parse` reads its ellipses, the rightmost
      first. An argument that can be read has an ellipsis, and ranges are not empty. */
  datatype Syntax = Syntax(marks: string -> bool, parse: string -> Option<ArgPattern>)

  ghost predicate ValidSyntax(x: Syntax) {
    forall a :: x.parse(a).Some? ==> x.parse(a).value != [] && NoEmptyEllipsis([x.parse(a).value])
  }

  ghost predicate AnyMarked(x: Syntax, args: seq<string>) {
    exists i :: 0 <= i < |args| && x.marks(args[i])
  }

  /** The arguments of each pool: all of them without ellipses, or one pool for each with. */
  ghost function PoolArgs(x: Syntax, args: seq<string>): seq<Option<Args>> {
    if !AnyMarked(x, args) then [Some(Plain(args))]
    else seq(|args|, i requires 0 <= i < |args| => OneEllipsesArg(x, args[i]))
  }

  function OneEllipsesArg(x: Syntax, arg: string): Option<Args> {
    match x.parse(arg)
    case None => None
    case Some(pattern) => Some(Ellipses([pattern]))
  }

  ghost predicate Cuttable(driveCount: nat, a: Option<Args>) {
    a.Some? && ValidArgs(a.value) && Divisible(driveCount, a.value) && NoDuplicates(EndpointsOf(a.value))
  }

  /** The command lines that lay out drives. */
  ghost predicate Layable(x: Syntax, args: seq<string>, driveCount: Option<nat>) {
    && args != [] && driveCount.Some?
    && (AnyMarked(x, args) && |args| > 1 ==> forall i :: 0 <= i < |args| ==> x.marks(args[i]))
    && forall p :: 0 <= p < |PoolArgs(x, args)| ==> Cuttable(driveCount.value, PoolArgs(x, args)[p])
  }

  /** The sets of a pool: its endpoints in order, cut into sets of the right size. */
  ghost predicate CutRight(driveCount: nat, a: Option<Args>, sets: seq<seq<string>>, s: nat) {
    && a.Some? && ValidArgs(a.value)
    && Partition(EndpointsOf(a.value), sets, s) && FinalSize(s, driveCount, a.value)
  }

  ghost predicate LaidOut(
    x: Syntax, args: seq<string>, driveCount: Option<nat>, pools: seq<seq<seq<string>>>, sizes: seq<nat>, n: nat)
  {
    && driveCount.Some? && n == |pools| == |sizes| <= |PoolArgs(x, args)|
    && forall p :: 0 <= p < n ==> CutRight(driveCount.value, PoolArgs(x, args)[p], pools[p], sizes[p])
  }

  method FindMarked(x: Syntax, args: seq<string>) returns (found: bool)
    ensures found <==> AnyMarked(x, args)
  {
    for i := 0 to |args|
      invariant forall k :: 0 <= k < i ==> !x.marks(args[k])
    {
      if x.marks(args[i]) {
        return true;
      }
    }
    return false;
  }

  /** An argument that cannot be laid out beside n - 1 others. */
  ghost predicate Rejected(x: Syntax, arg: string, driveCount: nat, n: nat) {
    (n > 1 && !x.marks(arg)) || !Cuttable(driveCount, OneEllipsesArg(x, arg))
  }

  /** Names for what can be cut and what is cut right, so that a loop over arguments need not
      look into either. */
  ghost predicate Names(
    x: Syntax, driveCount: nat, can: string -> bool, right: (string, seq<seq<string>>, nat) -> bool)
  {
    && (forall a {:trigger Cuttable(driveCount, OneEllipsesArg(x, a))} ::
          can(a) <==> Cuttable(driveCount, OneEllipsesArg(x, a)))
    && (forall a, sets, s {:trigger CutRight(driveCount, OneEllipsesArg(x, a), sets, s)} ::
          right(a, sets, s) <==> CutRight(driveCount, OneEllipsesArg(x, a), sets, s))
  }

  /** One pool from an argument with ellipses. */
  method LayOutOne(
    x: Syntax, arg: string, driveCount: nat, ghost can: string -> bool, ghost right: (string, seq<seq<string>>, nat) -> bool)
    returns (r: Result<seq<seq<string>>, LayoutError>, ghost s: nat)
    requires ValidSyntax(x) && Names(x, driveCount, can, right)
    ensures r.Ok? <==> can(arg)
    ensures r.Ok? ==> right(arg, r.value, s)
  {
    assert can(arg) <==> Cuttable(driveCount, OneEllipsesArg(x, arg));
    var pattern := x.parse(arg);
    if pattern.None? {
      return Err(BadEllipsis), 0;
    }
    r, s := GetAllSets(driveCount, Ellipses([pattern.value]));
    assert r.Ok? ==> CutRight(driveCount, OneEllipsesArg(x, arg), r.value, s);
  }

  /** The loop over arguments with ellipses, one pool for each. */
  method LayOutArgs(
    x: Syntax, args: seq<string>, driveCount: nat, ghost can: string -> bool,
    ghost right: (string, seq<seq<string>>, nat) -> bool)
    returns (r: Result<seq<seq<seq<string>>>, LayoutError>, ghost sizes: seq<nat>)
    requires ValidSyntax(x) && Names(x, driveCount, can, right)
    ensures r.Ok? <==> forall i :: 0 <= i < |args| ==> can(args[i]) && (|args| > 1 ==> x.marks(args[i]))
    ensures r.Ok? ==> |r.value| == |sizes| == |args|
    ensures r.Ok? ==> forall i :: 0 <= i < |args| ==> right(args[i], r.value[i], sizes[i])
  {
    var pools: seq<seq<seq<string>>> := [];
    sizes := [];
    for i := 0 to |args|
      invariant |pools| == |sizes| == i
      invariant forall k :: 0 <= k < i ==> can(args[k]) && (|args| > 1 ==> x.marks(args[k]))
      invariant forall k :: 0 <= k < i ==> right(args[k], pools[k], sizes[k])
    {
      if !x.marks(args[i]) && |args| > 1 {
        return Err(MixedArguments), sizes;
      }
      var sets, s := LayOutOne(x, args[i], driveCount, can, right);
      if sets.Err? {
        return Err(sets.error), sizes;
      }
      pools, sizes := pools + [sets.value], sizes + [s];
    }
    r := Ok(pools);
  }

  method LayOutEach(x: Syntax, args: seq<string>, driveCount: nat)
    returns (r: Result<seq<seq<seq<string>>>, LayoutError>, ghost sizes: seq<nat>)
    requires ValidSyntax(x)
    ensures r.Ok? <==> forall i :: 0 <= i < |args| ==> !Rejected(x, args[i], driveCount, |args|)
    ensures r.Ok? ==> |r.value| == |sizes| == |args|
    ensures r.Ok? ==> forall i :: 0 <= i < |args| ==> CutRight(driveCount, OneEllipsesArg(x, args[i]), r.value[i], sizes[i])
  {
    ghost var can := a => Cuttable(driveCount, OneEllipsesArg(x, a));
    ghost var right := (a, sets, s: nat) => CutRight(driveCount, OneEllipsesArg(x, a), sets, s);
    r, sizes := LayOutArgs(x, args, driveCount, can, right);
    assert forall i :: 0 <= i < |args| ==>
      (Rejected(x, args[i], driveCount, |args|) <==> !can(args[i]) || (|args| > 1 && !x.marks(args[i])));
  }

  lemma EachMarked(
    x: Syntax, args: seq<string>, driveCount: nat, ok: bool, pools: seq<seq<seq<string>>>, sizes: seq<nat>)
    requires AnyMarked(x, args)
    requires ok <==> forall i :: 0 <= i < |args| ==> !Rejected(x, args[i], driveCount, |args|)
    requires ok ==> |pools| == |sizes| == |args|
    requires ok ==> forall i :: 0 <= i < |args| ==> CutRight(driveCount, OneEllipsesArg(x, args[i]), pools[i], sizes[i])
    ensures ok <==> Layable(x, args, Some(driveCount))
    ensures ok ==> LaidOut(x, args, Some(driveCount), pools, sizes, |PoolArgs(x, args)|)
  {
    forall i | 0 <= i < |args| ensures PoolArgs(x, args)[i] == OneEllipsesArg(x, args[i]) {
    }
    LayableMarked(x, args, driveCount);
  }

  lemma LayableMarked(x: Syntax, args: seq<string>, driveCount: nat)
    requires AnyMarked(x, args)
    ensures Layable(x, args, Some(driveCount)) <==> forall i :: 0 <= i < |args| ==> !Rejected(x, args[i], driveCount, |args|)
  {
    var all := PoolArgs(x, args);
    assert |all| == |args| && args != [];
    if Layable(x, args, Some(driveCount)) {
      forall i | 0 <= i < |args| ensures !Rejected(x, args[i], driveCount, |args|) {
        assert Cuttable(driveCount, all[i]);
      }
    } else if forall i :: 0 <= i < |args| ==> !Rejected(x, args[i], driveCount, |args|) {
      forall i | 0 <= i < |args| ensures (|args| > 1 ==> x.marks(args[i])) && Cuttable(driveCount, all[i]) {
        assert !Rejected(x, args[i], driveCount, |args|);
      }
      assert false;
    }
  }

  /** Without ellipses all arguments make one pool. */
  method LayOutPlain(x: Syntax, args: seq<string>, driveCount: nat)
    returns (r: Result<seq<seq<seq<string>>>, LayoutError>, ghost sizes: seq<nat>)
    requires args != [] && !AnyMarked(x, args)
    ensures r.Ok? <==> Layable(x, args, Some(driveCount))
    ensures r.Ok? ==> LaidOut(x, args, Some(driveCount), r.value, sizes, 1)
  {
    var sets, s := GetAllSets(driveCount, Plain(args));
    ghost var all := PoolArgs(x, args);
    assert all[0] == Some(Plain(args));
    if sets.Err? {
      assert !Cuttable(driveCount, all[0]);
      return Err(sets.error), [];
    }
    r, sizes := Ok([sets.value]), [s];
  }

  /** `DisksLayout::from_volumes` lays out exactly the layable command lines. The drive count is
      read from the environment and is absent if it is no number. */
  method FromVolumes(x: Syntax, args: seq<string>, driveCount: Option<nat>)
    returns (r: Result<seq<seq<seq<string>>>, LayoutError>, ghost sizes: seq<nat>)
    requires ValidSyntax(x)
    ensures r.Ok? <==> Layable(x, args, driveCount)
    ensures r.Ok? ==> LaidOut(x, args, driveCount, r.value, sizes, |PoolArgs(x, args)|)
  {
    if args == [] {
      return Err(InvalidArgument), [];
    }
    var marked := FindMarked(x, args);
    if driveCount.None? {
      return Err(BadDriveCount), [];
    }
    if marked {
      r, sizes := LayOutEach(x, args, driveCount.value);
      EachMarked(x, args, driveCount.value, r.Ok?, if r.Ok? then r.value else [], sizes);
    } else {
      r, sizes := LayOutPlain(x, args, driveCount.value);
    }
  }
}
