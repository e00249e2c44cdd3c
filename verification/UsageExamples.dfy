/** Small caches on which compacting or merging does not keep totals. */
module UsageExamples {
  import opened UsageStats
  import opened UsageGraph
  import opened UsageRewrites

  function WithObjects(n: nat): Stats {
    NO_STATS.(objects := n)
  }

  function Folder(children: set<Key>): Entry {
    Entry(children, NO_STATS, false)
  }

  function Leaf(n: nat): Entry {
    Entry({}, WithObjects(n), false)
  }

  lemma CountObjects(n: nat, f: Counter)
    ensures Count(WithObjects(n), f) == (if f == Counter.Objects then n else 0) && Count(NO_STATS, f) == 0
  {
  }

  lemma LeafTotal(c: Graph, k: Key, w: Weight)
    requires k in c && c[k].children == {}
    ensures Acyclic(c, {k}) && Flat(c, {k}, w) == Weigh(c[k], w) && Reach(c, {k}) == {k}
  {
    ReachLeast(c, {}, {});
    ReachStep(c, k);
    FlatOne(c, k, w);
  }

  lemma FolderOfOne(c: Graph, k: Key, ch: Key, w: Weight)
    requires k in c && c[k].children == {ch} && Acyclic(c, {k})
    ensures Acyclic(c, {ch}) && Flat(c, {k}, w) == Weigh(c[k], w) + Flat(c, {ch}, w)
    ensures Reach(c, {k}) == {k} + Reach(c, {ch})
  {
    DescendChildren(c, {k}, k);
    ReachStep(c, k);
    FlatOne(c, k, w);
  }

  lemma FolderOfTwo(c: Graph, k: Key, a: Key, b: Key, w: Weight)
    requires k in c && c[k].children == {a, b} && a != b && Acyclic(c, {k}) && Acyclic(c, {a}) && Acyclic(c, {b})
    ensures Flat(c, {k}, w) == Weigh(c[k], w) + Flat(c, {a}, w) + Flat(c, {b}, w)
  {
    DescendChildren(c, {k}, k);
    FlatOne(c, k, w);
    FlatPick(c, {a, b}, a, w);
    FlatOne(c, a, w);
    assert {a, b} - {a} == {b};
  }

  const SHARED: Graph := map["r" := Folder({"p", "x"}), "p" := Folder({"q"}), "x" := Folder({"q"}), "q" := Leaf(1)]
  const COMPACTED: Graph := map["r" := Folder({"p", "x"}), "p" := Entry({}, WithObjects(1), true), "x" := Folder({"q"})]

  lemma SharedAcyclic(S: set<Key>)
    ensures Acyclic(SHARED, S) && Acyclic(COMPACTED, S)
  {
    var rank := k => if k == "r" then 2 else if k == "q" then 0 else 1;
    RankedAcyclic(SHARED, rank, S);
    RankedAcyclic(COMPACTED, rank, S);
  }

  lemma SharedTotals(f: Counter)
    ensures Acyclic(SHARED, {"r"}) && Acyclic(SHARED, {"p"})
    ensures Flat(SHARED, {"p"}, Own(f)) == Count(WithObjects(1), f)
    ensures Flat(SHARED, {"r"}, Own(f)) == 2 * Count(WithObjects(1), f)
    ensures Reach(SHARED, {"p"}) == {"p", "q"}
  {
    var c := SHARED;
    SharedAcyclic({"r"});
    SharedAcyclic({"p"});
    SharedAcyclic({"x"});
    CountObjects(1, f);
    LeafTotal(c, "q", Own(f));
    FolderOfOne(c, "p", "q", Own(f));
    FolderOfOne(c, "x", "q", Own(f));
    FolderOfTwo(c, "r", "p", "x", Own(f));
  }

  lemma CompactedTotal()
    ensures Acyclic(COMPACTED, {"r"}) && Flat(COMPACTED, {"r"}, Own(Counter.Objects)) == 1
  {
    var d, w := COMPACTED, Own(Counter.Objects);
    SharedAcyclic({"r"});
    SharedAcyclic({"x"});
    SharedAcyclic({"q"});
    FlatOne(d, "q", w);
    LeafTotal(d, "p", w);
    FolderOfOne(d, "x", "q", w);
    FolderOfTwo(d, "r", "p", "x", w);
  }

  /** The object below q is counted once through p and once through x; compacting p takes it
      away from x. */
  lemma SharedChildLost()
    ensures Compacts(SHARED, COMPACTED, "p")
    ensures Acyclic(SHARED, {"r"}) && Acyclic(COMPACTED, {"r"})
    ensures Flat(SHARED, {"r"}, Own(Counter.Objects)) == 2
    ensures Flat(COMPACTED, {"r"}, Own(Counter.Objects)) == 1
  {
    var c := SHARED;
    SharedAcyclic({"p"});
    TotalAtOne(c, "p");
    forall f ensures Count(COMPACTED["p"].stats, f) == FlatAt(c, "p", Own(f)) {
      SharedTotals(f);
    }
    SharedTotals(Counter.Objects);
    assert COMPACTED.Keys == c.Keys - {"p", "q"} + {"p"};
    CompactedTotal();
  }

  const DETACHED: Graph := map["r" := Folder({}), "d" := Leaf(5)]
  const OTHER: Graph := map["r" := Folder({"d"}), "d" := Leaf(1)]
  const MERGED: Graph := map["r" := Folder({"d"}), "d" := Leaf(6)]

  lemma OneLevelTotal(c: Graph, n: nat, f: Counter)
    requires c == map["r" := Folder({"d"}), "d" := Leaf(n)]
    ensures Acyclic(c, {"r"}) && Flat(c, {"r"}, Own(f)) == Count(WithObjects(n), f)
    ensures Acyclic(c, c["d"].children) && FlatAt(c, "d", Own(f)) == Count(WithObjects(n), f)
  {
    RankedAcyclic(c, k => if k == "r" then 1 else 0, {"r"});
    CountObjects(n, f);
    LeafTotal(c, "d", Own(f));
    FlatOne(c, "d", Own(f));
    FolderOfOne(c, "r", "d", Own(f));
  }

  /** The root here has nothing and the other root one object; but the merged root, which now
      names the detached entry, has six. */
  lemma DetachedChildGained()
    ensures MergedInto(DETACHED, MERGED, "r", OTHER, OTHER["r"])
    ensures Acyclic(DETACHED, {"r"}) && Flat(DETACHED, {"r"}, Own(Counter.Objects)) == 0
    ensures Acyclic(OTHER, {"r"}) && Flat(OTHER, {"r"}, Own(Counter.Objects)) == 1
    ensures Acyclic(MERGED, {"r"}) && Flat(MERGED, {"r"}, Own(Counter.Objects)) == 6
  {
    forall f
      ensures Acyclic(OTHER, OTHER["d"].children)
      ensures Count(MERGED["d"].stats, f) == Count(DETACHED["d"].stats, f) + FlatAt(OTHER, "d", Own(f))
    {
      OneLevelTotal(OTHER, 1, f);
      CountObjects(1, f);
      CountObjects(5, f);
      CountObjects(6, f);
    }
    assert forall f :: Count(NO_STATS, f) == 0 by {
      forall f ensures Count(NO_STATS, f) == 0 { CountObjects(0, f); }
    }
    OneLevelTotal(OTHER, 1, Counter.Objects);
    OneLevelTotal(MERGED, 6, Counter.Objects);
    LeafTotal(DETACHED, "r", Own(Counter.Objects));
  }
}
