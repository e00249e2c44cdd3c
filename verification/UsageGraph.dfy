/** Graph theory of the data-usage cache: a map from path keys to entries that name their
    children. Children may be missing, shared, or lie on a cycle. */
module UsageGraph {
  import opened UsageStats

  type Key = string

  datatype Entry = Entry(children: set<Key>, stats: Stats, compacted: bool)

  const DEFAULT_ENTRY: Entry := Entry({}, NO_STATS, false)

  type Graph = map<Key, Entry>

  /** What is added up along a subtree: a counter of the entry, or its number of children. */
  datatype Weight = Own(f: Counter) | ChildCount

  function Weigh(e: Entry, w: Weight): (n: nat) {
    match w
    case Own(f) => Count(e.stats, f)
    case ChildCount => |e.children|
  }

  // ---------------------------------------------------------------- reachability

  /** S keeps every present child of each of its entries. */
  ghost predicate Closed(c: Graph, S: set<Key>) {
    forall k, ch :: k in S && k in c && ch in c[k].children && ch in c ==> ch in S
  }

  ghost predicate ClosureOf(c: Graph, S: set<Key>, T: set<Key>) {
    Closed(c, T) && S * c.Keys <= T
  }

  /** r is the least closed set of present keys that holds the present keys of S. */
  ghost predicate IsReach(c: Graph, S: set<Key>, r: set<Key>) {
    && ClosureOf(c, S, r)
    && r <= c.Keys
    && forall T :: ClosureOf(c, S, T) ==> r <= T
  }

  lemma ReachExists(c: Graph, S: set<Key>)
    ensures exists r :: IsReach(c, S, r)
  {
    var r := set k | k in c && forall T: set<Key> :: ClosureOf(c, S, T) ==> k in T;
    assert IsReach(c, S, r);
  }

  /** The keys reachable from S through present entries. */
  ghost function Reach(c: Graph, S: set<Key>): (r: set<Key>)
    ensures S * c.Keys <= r <= c.Keys
    ensures Closed(c, r)
  {
    ReachExists(c, S);
    var r :| IsReach(c, S, r);
    r
  }

  lemma ReachLeast(c: Graph, S: set<Key>, T: set<Key>)
    requires Closed(c, T) && S * c.Keys <= T
    ensures Reach(c, S) <= T
  {
    assert ClosureOf(c, S, T);
  }

  ghost predicate IsPath(c: Graph, p: seq<Key>) {
    && |p| > 0
    && (forall i :: 0 <= i < |p| ==> p[i] in c)
    && (forall i :: 0 <= i < |p| - 1 ==> p[i + 1] in c[p[i]].children)
  }

  lemma {:induction false} PathStaysInside(c: Graph, p: seq<Key>, T: set<Key>, i: nat)
    requires IsPath(c, p) && Closed(c, T) && p[0] in T && i < |p|
    ensures p[i] in T
  {
    if i > 0 {
      PathStaysInside(c, p, T, i - 1);
      assert p[i - 1 + 1] in c[p[i - 1]].children;
    }
  }

  ghost predicate PathFrom(c: Graph, S: set<Key>, p: seq<Key>, k: Key) {
    IsPath(c, p) && p[0] in S && p[|p| - 1] == k
  }

  /** The least closed set is the set of keys at the end of a chain of present entries. */
  lemma ReachIffPath(c: Graph, S: set<Key>, k: Key)
    ensures k in Reach(c, S) <==> exists p :: PathFrom(c, S, p, k)
  {
    if p :| PathFrom(c, S, p, k) {
      PathStaysInside(c, p, Reach(c, S), |p| - 1);
    }
    var T := set x | x in c && exists p :: PathFrom(c, S, p, x);
    forall x, ch | x in T && x in c && ch in c[x].children && ch in c
      ensures ch in T
    {
      var p :| PathFrom(c, S, p, x);
      assert PathFrom(c, S, p + [ch], ch);
    }
    forall x | x in S * c.Keys
      ensures x in T
    {
      assert PathFrom(c, S, [x], x);
    }
    ReachLeast(c, S, T);
  }

  lemma ReachMonotone(c: Graph, S: set<Key>, T: set<Key>)
    requires S * c.Keys <= Reach(c, T)
    ensures Reach(c, S) <= Reach(c, T)
  {
    ReachLeast(c, S, Reach(c, T));
  }

  lemma ReachUnion(c: Graph, S: set<Key>, T: set<Key>)
    ensures Reach(c, S + T) == Reach(c, S) + Reach(c, T)
  {
    ReachLeast(c, S + T, Reach(c, S) + Reach(c, T));
    ReachMonotone(c, S, S + T);
    ReachMonotone(c, T, S + T);
  }

  /** A key reaches itself and whatever its children reach. */
  lemma ReachStep(c: Graph, k: Key)
    requires k in c
    ensures Reach(c, {k}) == {k} + Reach(c, c[k].children)
  {
    var T := {k} + Reach(c, c[k].children);
    forall x, ch | x in T && x in c && ch in c[x].children && ch in c
      ensures ch in T
    {
      if x == k { assert ch in c[k].children * c.Keys; }
    }
    ReachLeast(c, {k}, T);
    assert {k} * c.Keys == {k};
    assert c[k].children * c.Keys <= Reach(c, {k});
    ReachMonotone(c, c[k].children, {k});
  }

  /** Two graphs that agree on what is reachable in the first reach the same keys, provided
      no child missing from the first is present in the second. */
  ghost predicate AgreeFrom(c: Graph, d: Graph, S: set<Key>) {
    && (forall k :: k in Reach(c, S) ==> k in d && d[k] == c[k])
    && (forall k, ch :: k in Reach(c, S) && ch in c[k].children && ch in d ==> ch in c)
    && (forall k :: k in S && k in d ==> k in c)
  }

  lemma AgreeSameReach(c: Graph, d: Graph, S: set<Key>)
    requires AgreeFrom(c, d, S)
    ensures Reach(c, S) == Reach(d, S)
  {
    forall k, ch | k in Reach(c, S) && k in d && ch in d[k].children && ch in d
      ensures ch in Reach(c, S)
    {
      assert ch in c[k].children;
    }
    ReachLeast(d, S, Reach(c, S));
    forall k, ch | k in Reach(d, S) && k in c && ch in c[k].children && ch in c
      ensures ch in Reach(d, S)
    {
      assert k in Reach(c, S);
      assert ch in Reach(c, S);
      assert ch in d && ch in d[k].children;
    }
    forall k | k in S * c.Keys ensures k in Reach(d, S) {
      assert k in Reach(c, S);
    }
    ReachLeast(c, S, Reach(d, S));
  }

  lemma AgreeBelow(c: Graph, d: Graph, S: set<Key>, T: set<Key>)
    requires AgreeFrom(c, d, S)
    requires T * c.Keys <= Reach(c, S)
    requires forall k :: k in T && k in d ==> k in c
    ensures AgreeFrom(c, d, T)
  {
    ReachMonotone(c, T, S);
  }

  // ---------------------------------------------------------------- acyclic graphs

  /** No entry reachable from S can be reached again from its own children. */
  ghost predicate Acyclic(c: Graph, S: set<Key>) {
    forall x :: x in Reach(c, S) ==> x !in Reach(c, c[x].children)
  }

  lemma AcyclicBelow(c: Graph, S: set<Key>, T: set<Key>)
    requires Acyclic(c, S) && T * c.Keys <= Reach(c, S)
    ensures Acyclic(c, T)
    ensures Reach(c, T) <= Reach(c, S)
  {
    ReachMonotone(c, T, S);
  }

  lemma SelfLinkIsCycle(c: Graph, k: Key)
    requires k in c && k in c[k].children
    ensures !Acyclic(c, {k})
  {
    assert k in {k} * c.Keys && k in c[k].children * c.Keys;
  }

  lemma DescendChildren(c: Graph, S: set<Key>, k: Key)
    requires Acyclic(c, S) && k in S && k in c
    ensures Acyclic(c, c[k].children)
    ensures Reach(c, c[k].children) < Reach(c, S)
  {
    assert k in S * c.Keys;
    assert k in Reach(c, S) && k !in Reach(c, c[k].children);
    forall ch | ch in c[k].children * c.Keys ensures ch in Reach(c, S) {
      assert ch in c[k].children && ch in c;
    }
    AcyclicBelow(c, S, c[k].children);
  }

  lemma DescendRest(c: Graph, S: set<Key>, k: Key)
    requires Acyclic(c, S)
    ensures Acyclic(c, S - {k})
    ensures Reach(c, S - {k}) <= Reach(c, S)
  {
    AcyclicBelow(c, S, S - {k});
  }

  /** What `flatten` adds up below the children S: an entry counts once for every chain of
      entries that leads to it from S. */
  ghost function Flat(c: Graph, S: set<Key>, w: Weight): (n: nat)
    requires Acyclic(c, S)
    decreases Reach(c, S), S
  {
    if S == {} then 0
    else
      var k :| k in S;
      DescendRest(c, S, k);
      (if k in c then
        DescendChildren(c, S, k);
        Weigh(c[k], w) + Flat(c, c[k].children, w)
      else 0)
      + Flat(c, S - {k}, w)
  }

  /** The contribution of one child. */
  ghost function FlatAt(c: Graph, k: Key, w: Weight): (n: nat)
    requires k in c ==> Acyclic(c, c[k].children)
  {
    if k in c then Weigh(c[k], w) + Flat(c, c[k].children, w) else 0
  }

  lemma FlatFirst(c: Graph, S: set<Key>, w: Weight) returns (j: Key)
    requires Acyclic(c, S) && S != {}
    ensures j in S && Acyclic(c, S - {j}) && Reach(c, S - {j}) <= Reach(c, S)
    ensures j in c ==> Acyclic(c, c[j].children) && Reach(c, c[j].children) < Reach(c, S)
    ensures Flat(c, S, w) == FlatAt(c, j, w) + Flat(c, S - {j}, w)
  {
    forall k | k in S
      ensures Acyclic(c, S - {k}) && Reach(c, S - {k}) <= Reach(c, S)
      ensures k in c ==> Acyclic(c, c[k].children) && Reach(c, c[k].children) < Reach(c, S)
    {
      DescendRest(c, S, k);
      if k in c { DescendChildren(c, S, k); }
    }
    j :| j in S && Flat(c, S, w) == FlatAt(c, j, w) + Flat(c, S - {j}, w);
  }

  /** The order in which the children are visited does not matter. */
  lemma {:induction false} FlatPick(c: Graph, S: set<Key>, k: Key, w: Weight)
    requires Acyclic(c, S) && k in S
    ensures Acyclic(c, S - {k})
    ensures k in c ==> Acyclic(c, c[k].children)
    ensures Flat(c, S, w) == FlatAt(c, k, w) + Flat(c, S - {k}, w)
    decreases |S|
  {
    DescendRest(c, S, k);
    if k in c { DescendChildren(c, S, k); }
    var j := FlatFirst(c, S, w);
    if j != k {
      FlatPick(c, S - {j}, k, w);
      FlatPick(c, S - {k}, j, w);
      assert S - {j} - {k} == S - {k} - {j};
    }
  }

  lemma FlatOne(c: Graph, k: Key, w: Weight)
    requires Acyclic(c, {k})
    ensures k in c ==> Acyclic(c, c[k].children)
    ensures Flat(c, {k}, w) == FlatAt(c, k, w)
  {
    FlatPick(c, {k}, k, w);
    assert {k} - {k} == {};
  }

  lemma {:induction false} FlatDisjoint(c: Graph, S: set<Key>, T: set<Key>, w: Weight)
    requires Acyclic(c, S + T) && S !! T
    ensures Acyclic(c, S) && Acyclic(c, T)
    ensures Flat(c, S + T, w) == Flat(c, S, w) + Flat(c, T, w)
    decreases |S|
  {
    AcyclicBelow(c, S + T, S);
    AcyclicBelow(c, S + T, T);
    if S == {} {
      assert S + T == T;
    } else {
      var k :| k in S;
      FlatPick(c, S + T, k, w);
      FlatPick(c, S, k, w);
      assert S + T - {k} == (S - {k}) + T;
      FlatDisjoint(c, S - {k}, T, w);
    }
  }

  lemma AcyclicOne(c: Graph, k: Key)
    requires k in c && Acyclic(c, c[k].children) && k !in Reach(c, c[k].children)
    ensures Acyclic(c, {k})
  {
    ReachStep(c, k);
  }

  lemma {:induction false} FlatAgree(c: Graph, d: Graph, S: set<Key>, w: Weight)
    requires AgreeFrom(c, d, S) && Acyclic(c, S)
    ensures Acyclic(d, S)
    ensures Flat(d, S, w) == Flat(c, S, w)
    decreases Reach(c, S), S
  {
    AgreeAcyclic(c, d, S);
    if S != {} {
      var j := FlatFirst(c, S, w);
      AgreeBelow(c, d, S, S - {j});
      FlatAgree(c, d, S - {j}, w);
      FlatPick(d, S, j, w);
      if j in c {
        assert j in S * c.Keys;
        AgreeBelow(c, d, S, c[j].children);
        FlatAgree(c, d, c[j].children, w);
      }
    }
  }

  lemma AgreeAcyclic(c: Graph, d: Graph, S: set<Key>)
    requires AgreeFrom(c, d, S) && Acyclic(c, S)
    ensures Acyclic(d, S)
  {
    AgreeSameReach(c, d, S);
    forall x | x in Reach(d, S)
      ensures x !in Reach(d, d[x].children)
    {
      AgreeBelow(c, d, S, c[x].children);
      AgreeSameReach(c, d, c[x].children);
    }
  }

  // ---------------------------------------------------------------- tree-shaped graphs

  /** Entries reachable from S have one parent each, and those of S have none. */
  ghost predicate Tree(c: Graph, S: set<Key>) {
    && Acyclic(c, S)
    && (forall x, y, z ::
          (x in Reach(c, S) && y in Reach(c, S) && z in c && z in c[x].children && z in c[y].children)
          ==> x == y)
    && (forall x, z :: x in Reach(c, S) && z in c[x].children && z in c ==> z !in S)
  }

  /** The weights of a set of entries, each counted once. */
  ghost function Sum(c: Graph, S: set<Key>, w: Weight): (n: nat)
    requires S <= c.Keys
  {
    if S == {} then 0 else var k :| k in S; Weigh(c[k], w) + Sum(c, S - {k}, w)
  }

  lemma {:induction false} SumPick(c: Graph, S: set<Key>, k: Key, w: Weight)
    requires S <= c.Keys && k in S
    ensures Sum(c, S, w) == Weigh(c[k], w) + Sum(c, S - {k}, w)
    decreases |S|
  {
    var j :| j in S && Sum(c, S, w) == Weigh(c[j], w) + Sum(c, S - {j}, w);
    if j != k {
      SumPick(c, S - {j}, k, w);
      SumPick(c, S - {k}, j, w);
      assert S - {j} - {k} == S - {k} - {j};
    }
  }

  lemma {:induction false} SumDisjoint(c: Graph, A: set<Key>, B: set<Key>, w: Weight)
    requires A <= c.Keys && B <= c.Keys && A !! B
    ensures Sum(c, A + B, w) == Sum(c, A, w) + Sum(c, B, w)
    decreases |A|
  {
    if A == {} {
      assert A + B == B;
    } else {
      var k :| k in A;
      SumPick(c, A, k, w);
      SumPick(c, A + B, k, w);
      assert A + B - {k} == (A - {k}) + B;
      SumDisjoint(c, A - {k}, B, w);
    }
  }

  /** Whatever is reachable is a start or has a reachable parent. */
  lemma HasParent(c: Graph, S: set<Key>, z: Key)
    requires z in Reach(c, S) && z !in S
    ensures exists x :: x in Reach(c, S) && z in c[x].children
  {
    var T := set k | k in Reach(c, S) && (k in S || exists x :: x in Reach(c, S) && k in c[x].children);
    ReachLeast(c, S, T);
  }

  lemma TreeBelow(c: Graph, S: set<Key>, k: Key)
    requires Tree(c, S) && k in S && k in c
    ensures Tree(c, c[k].children) && Tree(c, S - {k})
  {
    DescendChildren(c, S, k);
    DescendRest(c, S, k);
  }

  lemma TreeDisjoint(c: Graph, S: set<Key>, k: Key)
    requires Tree(c, S) && k in S && k in c
    ensures Reach(c, {k}) !! Reach(c, S - {k})
  {
    var A := Reach(c, {k});
    var B := Reach(c, S - {k});
    assert k in S * c.Keys;
    assert {k} * c.Keys <= Reach(c, S);
    ReachMonotone(c, {k}, S);
    ReachMonotone(c, S - {k}, S);
    forall x, z | x in B - A && x in c && z in c[x].children && z in c
      ensures z in B - A
    {
      if z in A {
        assert z !in S;
        HasParent(c, {k}, z);
      }
    }
    forall x | x in (S - {k}) * c.Keys ensures x in B - A {
      if x in A {
        HasParent(c, {k}, x);
      }
    }
    ReachLeast(c, S - {k}, B - A);
  }

  lemma SumSelfAndBelow(c: Graph, k: Key, w: Weight)
    requires k in c && k !in Reach(c, c[k].children)
    ensures Sum(c, Reach(c, {k}), w) == Weigh(c[k], w) + Sum(c, Reach(c, c[k].children), w)
  {
    ReachStep(c, k);
    SumPick(c, Reach(c, {k}), k, w);
    assert Reach(c, {k}) - {k} == Reach(c, c[k].children);
  }

  lemma TreeSumStep(c: Graph, S: set<Key>, k: Key, w: Weight)
    requires Tree(c, S) && k in S && k in c
    ensures Sum(c, Reach(c, S), w) == Sum(c, Reach(c, {k}), w) + Sum(c, Reach(c, S - {k}), w)
  {
    TreeDisjoint(c, S, k);
    SumDisjoint(c, Reach(c, {k}), Reach(c, S - {k}), w);
    ReachUnion(c, {k}, S - {k});
    assert {k} + (S - {k}) == S;
  }

  lemma ReachIgnoresAbsent(c: Graph, S: set<Key>, k: Key)
    requires k !in c
    ensures Reach(c, S - {k}) == Reach(c, S)
  {
    assert (S - {k}) * c.Keys == S * c.Keys;
    ReachLeast(c, S, Reach(c, S - {k}));
    ReachLeast(c, S - {k}, Reach(c, S));
  }

  /** On a tree, flattening counts every reachable entry exactly once. */
  lemma {:induction false} TreeFlat(c: Graph, S: set<Key>, w: Weight)
    requires Tree(c, S)
    ensures Flat(c, S, w) == Sum(c, Reach(c, S), w)
    decreases Reach(c, S), S
  {
    if S == {} {
      ReachLeast(c, S, {});
    } else {
      var j := FlatFirst(c, S, w);
      if j in c {
        TreeFlatStep(c, S, j, w);
      } else {
        ReachIgnoresAbsent(c, S, j);
        TreeFlat(c, S - {j}, w);
      }
    }
  }

  lemma {:induction false} TreeFlatStep(c: Graph, S: set<Key>, j: Key, w: Weight)
    requires Tree(c, S) && j in S && j in c
    ensures Acyclic(c, c[j].children) && Acyclic(c, S - {j})
    ensures FlatAt(c, j, w) + Flat(c, S - {j}, w) == Sum(c, Reach(c, S), w)
    decreases Reach(c, S), S, 0
  {
    DescendChildren(c, S, j);
    DescendRest(c, S, j);
    TreeBelow(c, S, j);
    assert j !in Reach(c, c[j].children) by { assert j in S * c.Keys; }
    TreeFlat(c, c[j].children, w);
    TreeFlat(c, S - {j}, w);
    TreeSumStep(c, S, j, w);
    SumSelfAndBelow(c, j, w);
  }

  // ---------------------------------------------------------------- whole figures

  /** The figures are the flattened total of a key, counter by counter. */
  ghost predicate TotalAt(c: Graph, k: Key, s: Stats) {
    k in c && Acyclic(c, {k}) && forall f :: Count(s, f) == Flat(c, {k}, Own(f))
  }

  lemma TotalAtOne(c: Graph, k: Key)
    requires k in c && Acyclic(c, {k})
    ensures Acyclic(c, c[k].children)
    ensures forall f :: Flat(c, {k}, Own(f)) == FlatAt(c, k, Own(f))
  {
    DescendChildren(c, {k}, k);
    forall f ensures Flat(c, {k}, Own(f)) == FlatAt(c, k, Own(f)) {
      FlatOne(c, k, Own(f));
    }
  }

  /** Equal totals in every counter are equal figures. */
  lemma SameTotals(c: Graph, d: Graph, k: Key, s: Stats, t: Stats)
    requires TotalAt(c, k, s) && TotalAt(d, k, t)
    requires forall f :: Flat(c, {k}, Own(f)) == Flat(d, {k}, Own(f))
    ensures s == t
  {
    CountersDetermineStats(s, t);
  }

  /** A cache whose links all lead to keys of lower rank has no cycle. */
  lemma RankedAcyclic(c: Graph, rank: Key -> nat, S: set<Key>)
    requires forall k, ch :: k in c && ch in c[k].children && ch in c ==> rank(ch) < rank(k)
    ensures Acyclic(c, S)
  {
    forall x | x in Reach(c, S) ensures x !in Reach(c, c[x].children) {
      ReachLeast(c, c[x].children, set k | k in c && rank(k) < rank(x));
    }
  }
}
