/** What the cache operations do to the graph, and which totals survive. */
module UsageRewrites {
  import opened Prelude
  import opened UsageStats
  import opened UsageGraph

  // ---------------------------------------------------------------- deletion

  /** Deleting one more child after R has gone removes what that child adds to R. */
  lemma DeleteOneMore(c: Graph, done: set<Key>, ch: Key)
    ensures (c - Reach(c, done)) - Reach(c - Reach(c, done), {ch}) == c - Reach(c, done + {ch})
  {
    var R := Reach(c, done);
    var d := c - R;
    var A := Reach(d, {ch});
    ReachUnion(c, done, {ch});
    forall x, z | x in A + R && x in c && z in c[x].children && z in c
      ensures z in A + R
    {
      if x !in R && z !in R { assert x in d && z in d; }
    }
    ReachLeast(c, {ch}, A + R);
    var B := Reach(c, {ch}) - R;
    forall x, z | x in B && x in d && z in d[x].children && z in d
      ensures z in B
    {
      assert z in c[x].children && z in c;
    }
    ReachLeast(d, {ch}, B);
    assert A + R == Reach(c, done + {ch});
  }

  /** Taking the start away first does not change what its children reach besides it. */
  lemma DeleteSelfFirst(c: Graph, k: Key)
    requires k in c
    ensures (c - {k}) - Reach(c - {k}, c[k].children) == c - Reach(c, {k})
  {
    var d := c - {k};
    var A := Reach(d, c[k].children);
    forall x, z | x in {k} + A && x in c && z in c[x].children && z in c
      ensures z in {k} + A
    {
      if z != k { assert z in d; }
    }
    ReachLeast(c, {k}, {k} + A);
    var B := Reach(c, {k}) - {k};
    assert k in {k} * c.Keys;
    forall x, z | x in B && x in d && z in d[x].children && z in d
      ensures z in B
    {
      assert z in c[x].children && z in c;
    }
    forall z | z in c[k].children * d.Keys ensures z in B {
      assert z in c[k].children && z in c;
    }
    ReachLeast(d, c[k].children, B);
    assert {k} + A == Reach(c, {k});
  }

  lemma DeleteAbsent(c: Graph, k: Key)
    requires k !in c
    ensures c - Reach(c, {k}) == c
  {
    ReachLeast(c, {k}, {});
  }

  // ---------------------------------------------------------------- subgraphs

  ghost predicate SubGraph(d: Graph, c: Graph) {
    d.Keys <= c.Keys && forall k :: k in d ==> d[k].children <= c[k].children
  }

  lemma SubGraphReach(d: Graph, c: Graph, S: set<Key>, T: set<Key>)
    requires SubGraph(d, c) && S <= T
    ensures Reach(d, S) <= Reach(c, T)
  {
    forall k, ch | k in Reach(c, T) && k in d && ch in d[k].children && ch in d
      ensures ch in Reach(c, T)
    {
      assert ch in c[k].children;
    }
    ReachLeast(d, S, Reach(c, T));
  }

  lemma SubGraphAcyclic(d: Graph, c: Graph, S: set<Key>)
    requires SubGraph(d, c) && Acyclic(c, S)
    ensures Acyclic(d, S)
  {
    SubGraphReach(d, c, S, S);
    forall x | x in Reach(d, S)
      ensures x !in Reach(d, d[x].children)
    {
      SubGraphReach(d, c, d[x].children, c[x].children);
    }
  }

  lemma SubGraphTree(d: Graph, c: Graph, S: set<Key>)
    requires SubGraph(d, c) && Tree(c, S)
    ensures Tree(d, S)
  {
    SubGraphAcyclic(d, c, S);
    SubGraphReach(d, c, S, S);
    forall x, y, z | x in Reach(d, S) && y in Reach(d, S) && z in d && z in d[x].children && z in d[y].children
      ensures x == y
    {
      assert z in c[x].children && z in c[y].children;
    }
    forall x, z | x in Reach(d, S) && z in d[x].children && z in d
      ensures z !in S
    {
      assert z in c[x].children;
    }
  }

  // ---------------------------------------------------------------- compaction

  /** d is c with the subtree of p replaced by one flattened, childless, compacted entry. */
  ghost predicate Compacts(c: Graph, d: Graph, p: Key) {
    && p in c && Acyclic(c, c[p].children)
    && d.Keys == c.Keys - Reach(c, {p}) + {p}
    && (forall k :: k in d && k != p ==> d[k] == c[k])
    && d[p].children == {} && d[p].compacted
    && (forall f :: Count(d[p].stats, f) == FlatAt(c, p, Own(f)))
  }

  lemma CompactsIsSubGraph(c: Graph, d: Graph, p: Key)
    requires Compacts(c, d, p)
    ensures SubGraph(d, c)
  {
  }

  /** Compacting p loses nothing for S: an entry strictly below p that is named by S, or by
      an entry outside the subtree of p, flattens to nothing. */
  ghost predicate Lossless(c: Graph, p: Key, S: set<Key>, w: Weight)
    requires p in c && Acyclic(c, {p})
  {
    && (forall k :: k in S && k in Reach(c, c[p].children) ==> Nothing(c, k, w))
    && (forall x, k ::
          (x in Reach(c, S) && x !in Reach(c, {p}) && k in c[x].children && k in Reach(c, c[p].children))
          ==> Nothing(c, k, w))
  }

  ghost predicate Nothing(c: Graph, k: Key, w: Weight) {
    k in c ==> Acyclic(c, c[k].children) && FlatAt(c, k, w) == 0
  }

  lemma LosslessSplit(c: Graph, p: Key, S: set<Key>, j: Key, w: Weight)
    requires p in c && Acyclic(c, {p}) && j in S
    ensures Lossless(c, p, S, w) <==> Lossless(c, p, {j}, w) && Lossless(c, p, S - {j}, w)
  {
    ReachUnion(c, {j}, S - {j});
    assert {j} + (S - {j}) == S;
  }

  lemma LosslessOne(c: Graph, p: Key, j: Key, w: Weight)
    requires p in c && Acyclic(c, {p})
    ensures j !in c || j == p ==> Lossless(c, p, {j}, w)
    ensures j in Reach(c, c[p].children) ==> (Lossless(c, p, {j}, w) <==> Nothing(c, j, w))
    ensures j in c && j !in Reach(c, {p}) ==>
              (Lossless(c, p, {j}, w) <==> Lossless(c, p, c[j].children, w))
  {
    ReachStep(c, p);
    assert {p} * c.Keys == {p};
    assert p in Reach(c, {p});
    if j in c {
      ReachStep(c, j);
      if j in Reach(c, {p}) {
        assert {j} * c.Keys <= Reach(c, {p});
        ReachMonotone(c, {j}, {p});
      }
    } else {
      ReachLeast(c, {j}, {});
    }
  }

  /** Compaction never adds to a flattened total, and keeps it exactly when it is lossless. */
  lemma {:induction false} CompactFlat(c: Graph, d: Graph, p: Key, S: set<Key>, f: Counter)
    requires Compacts(c, d, p) && Acyclic(c, {p}) && Acyclic(c, S)
    ensures Acyclic(d, S)
    ensures Flat(d, S, Own(f)) <= Flat(c, S, Own(f))
    ensures Flat(d, S, Own(f)) == Flat(c, S, Own(f)) <==> Lossless(c, p, S, Own(f))
    decreases Reach(c, S), S, 1
  {
    var w := Own(f);
    CompactsIsSubGraph(c, d, p);
    SubGraphAcyclic(d, c, S);
    if S == {} {
      ReachLeast(c, S, {});
    } else {
      var j := FlatFirst(c, S, w);
      FlatPick(d, S, j, w);
      AcyclicBelow(c, S, {j});
      CompactFlat(c, d, p, S - {j}, f);
      CompactFlatAt(c, d, p, j, f);
      LosslessSplit(c, p, S, j, w);
    }
  }

  lemma {:induction false} CompactFlatAt(c: Graph, d: Graph, p: Key, j: Key, f: Counter)
    requires Compacts(c, d, p) && Acyclic(c, {p}) && Acyclic(c, {j})
    ensures j in c ==> Acyclic(c, c[j].children)
    ensures j in d ==> Acyclic(d, d[j].children)
    ensures FlatAt(d, j, Own(f)) <= FlatAt(c, j, Own(f))
    ensures FlatAt(d, j, Own(f)) == FlatAt(c, j, Own(f)) <==> Lossless(c, p, {j}, Own(f))
    decreases Reach(c, {j}), {j}, 0
  {
    var w := Own(f);
    LosslessOne(c, p, j, w);
    ReachStep(c, p);
    if j in c {
      DescendChildren(c, {j}, j);
      if j == p {
        ReachLeast(d, {}, {});
        assert Flat(d, d[p].children, w) == 0;
      } else if j !in Reach(c, {p}) {
        CompactFlat(c, d, p, c[j].children, f);
      }
    }
  }

  /** On a tree, compaction at any reachable key is lossless for every counter. */
  lemma TreeLossless(c: Graph, p: Key, S: set<Key>, w: Weight)
    requires Tree(c, S) && p in Reach(c, S)
    ensures Acyclic(c, {p})
    ensures Lossless(c, p, S, w)
  {
    assert {p} * c.Keys == {p};
    AcyclicBelow(c, S, {p});
    ReachStep(c, p);
    forall k | k in Reach(c, c[p].children)
      ensures exists y :: y in Reach(c, {p}) && k in c[y].children
    {
      if k in c[p].children {
        assert p in Reach(c, {p});
      } else {
        HasParent(c, c[p].children, k);
      }
    }
  }

  /** Compaction at any reachable key of a tree keeps the tree and every total of it, and
      leaves the key as a leaf. */
  lemma TreeCompactTotals(c: Graph, d: Graph, p: Key, S: set<Key>, f: Counter)
    requires Compacts(c, d, p) && Tree(c, S) && p in Reach(c, S)
    ensures Tree(d, S) && Flat(d, S, Own(f)) == Flat(c, S, Own(f))
    ensures Reach(d, S) == Reach(c, S) - Reach(c, {p}) + {p}
  {
    TreeLossless(c, p, S, Own(f));
    CompactsIsSubGraph(c, d, p);
    SubGraphTree(d, c, S);
    CompactFlat(c, d, p, S, f);
    CompactReach(c, d, p, S);
  }

  lemma CompactReach(c: Graph, d: Graph, p: Key, S: set<Key>)
    requires Compacts(c, d, p) && Tree(c, S) && p in Reach(c, S)
    ensures Reach(d, S) == Reach(c, S) - Reach(c, {p}) + {p}
  {
    CompactsIsSubGraph(c, d, p);
    SubGraphReach(d, c, S, S);
    CompactReachOutside(c, d, p, S);
    CompactReachSelf(c, d, p, S);
  }

  /** A chain that avoids the subtree of p survives. */
  lemma CompactReachOutside(c: Graph, d: Graph, p: Key, S: set<Key>)
    requires Compacts(c, d, p)
    ensures Reach(c, S) <= Reach(d, S) + Reach(c, {p})
  {
    var T := Reach(d, S) + Reach(c, {p});
    forall x, z | x in T && x in c && z in c[x].children && z in c
      ensures z in T
    {
      if x !in Reach(c, {p}) && z !in Reach(c, {p}) { assert x in d && z in d; }
    }
    ReachLeast(c, S, T);
  }

  /** A chain that enters the subtree of p enters it at p. */
  lemma CompactReachSelf(c: Graph, d: Graph, p: Key, S: set<Key>)
    requires Compacts(c, d, p) && Tree(c, S) && p in Reach(c, S)
    ensures p in Reach(d, S)
  {
    CompactsIsSubGraph(c, d, p);
    SubGraphReach(d, c, S, S);
    assert {p} * c.Keys == {p};
    ReachMonotone(c, {p}, S);
    if p !in Reach(d, S) {
      forall x, z | x in Reach(d, S) && x in c && z in c[x].children && z in c
        ensures z in Reach(d, S)
      {
        if z in Reach(c, {p}) && z != p { HasParent(c, {p}, z); }
      }
      forall x | x in S * c.Keys ensures x in Reach(d, S) {
        if x in Reach(c, {p}) && x != p { HasParent(c, {p}, x); }
      }
      ReachLeast(c, S, Reach(d, S));
    }
  }

  /** When `reduce_children_of` compacts. */
  ghost predicate Reduces(c: Graph, p: Key, limit: nat, compactSelf: bool) {
    p in c && !c[p].compacted && |c[p].children| > limit && compactSelf
  }

  ghost predicate Reduced(c: Graph, d: Graph, p: Key, limit: nat, compactSelf: bool) {
    if Reduces(c, p, limit, compactSelf) then Compacts(c, d, p) else d == c
  }

  /** However `reduce_children_of` is called, the totals of the path and of everything above
      it in a tree stay as they were. */
  lemma ReduceTotals(c: Graph, d: Graph, p: Key, limit: nat, compactSelf: bool, S: set<Key>, f: Counter)
    requires Reduced(c, d, p, limit, compactSelf) && Tree(c, S) && p in Reach(c, S)
    ensures Tree(d, S) && Flat(d, S, Own(f)) == Flat(c, S, Own(f))
    ensures p in Reach(d, S)
  {
    if Reduces(c, p, limit, compactSelf) {
      TreeCompactTotals(c, d, p, S, f);
    }
  }

  lemma CompactKeepsEach(c: Graph, d: Graph, p: Key, S: set<Key>, a: Key, f: Counter)
    requires Compacts(c, d, p) && Tree(c, S) && p in Reach(c, S)
    requires a in Reach(c, S) && a in d && Acyclic(c, {a}) && Reach(c, {a}) <= Reach(c, S)
    ensures Acyclic(d, {a}) && Flat(d, {a}, Own(f)) == Flat(c, {a}, Own(f))
  {
    TreeLossless(c, p, S, Own(f));
    LeftIsOutside(c, d, p, a);
    LosslessBelow(c, p, S, a, Own(f));
    CompactFlat(c, d, p, {a}, f);
  }

  lemma LeftIsOutside(c: Graph, d: Graph, p: Key, a: Key)
    requires Compacts(c, d, p) && Acyclic(c, {p}) && a in d
    ensures a !in Reach(c, c[p].children)
  {
    assert p in {p} * c.Keys;
    ReachStep(c, p);
  }

  lemma LosslessBelow(c: Graph, p: Key, S: set<Key>, a: Key, w: Weight)
    requires p in c && Acyclic(c, {p}) && Lossless(c, p, S, w)
    requires Reach(c, {a}) <= Reach(c, S) && a !in Reach(c, c[p].children)
    ensures Lossless(c, p, {a}, w)
  {
  }

  /** Every entry that is left keeps its total, wherever it stands in the tree. */
  lemma ReduceKeepsEach(c: Graph, d: Graph, p: Key, limit: nat, compactSelf: bool, S: set<Key>, a: Key, f: Counter)
    requires Reduced(c, d, p, limit, compactSelf) && Tree(c, S) && p in Reach(c, S)
    requires a in Reach(c, S) && a in d
    ensures Acyclic(c, {a}) && Acyclic(d, {a})
    ensures Flat(d, {a}, Own(f)) == Flat(c, {a}, Own(f))
  {
    assert {a} * c.Keys <= Reach(c, S);
    AcyclicBelow(c, S, {a});
    if Reduces(c, p, limit, compactSelf) {
      CompactKeepsEach(c, d, p, S, a, f);
    }
  }

  /** The path itself and the entries above it are all left. */
  lemma AboveIsLeft(c: Graph, d: Graph, p: Key, limit: nat, compactSelf: bool, S: set<Key>, a: Key)
    requires Reduced(c, d, p, limit, compactSelf) && Tree(c, S) && p in Reach(c, S)
    requires a in Reach(c, S) && p in Reach(c, {a})
    ensures a in d
  {
    if Reduces(c, p, limit, compactSelf) && a != p && a in Reach(c, {p}) {
      assert p in {p} * c.Keys;
      ReachStep(c, p);
      assert {a} * c.Keys <= Reach(c, c[p].children);
      ReachMonotone(c, {a}, c[p].children);
      assert false;
    }
  }

  /** So the figures reported for such an entry are the same before and after. */
  lemma ReduceKeepsFigures(
    c: Graph, d: Graph, p: Key, limit: nat, compactSelf: bool, S: set<Key>, a: Key, s: Stats, t: Stats)
    requires Reduced(c, d, p, limit, compactSelf) && Tree(c, S) && p in Reach(c, S)
    requires a in Reach(c, S) && TotalAt(c, a, s) && TotalAt(d, a, t)
    ensures s == t
  {
    forall f ensures Flat(c, {a}, Own(f)) == Flat(d, {a}, Own(f)) {
      ReduceKeepsEach(c, d, p, limit, compactSelf, S, a, f);
    }
    SameTotals(c, d, a, s, t);
  }

  // ---------------------------------------------------------------- garbage collection

  /** Keeping only what S reaches keeps what S reaches, and every flattened total of S. */
  lemma RetainFlat(c: Graph, d: Graph, S: set<Key>, w: Weight)
    requires Acyclic(c, S)
    requires d == map k | k in c && k in Reach(c, S) :: c[k]
    ensures Reach(d, S) == d.Keys == Reach(c, S)
    ensures Acyclic(d, S) && Flat(d, S, w) == Flat(c, S, w)
  {
    assert AgreeFrom(c, d, S);
    AgreeSameReach(c, d, S);
    FlatAgree(c, d, S, w);
  }

  ghost function Retained(c: Graph, top: Key): Graph {
    map k | k in c && k in Reach(c, {top}) :: c[k]
  }

  /** d is the result of `force_compact` on c; mid is the map after its compaction step. */
  ghost predicate ForceCompacted(c: Graph, mid: Graph, d: Graph, top: Key, limit: nat, folders: nat, collected: bool) {
    if |c| < limit || top !in c then
      d == mid == c && !collected
    else
      && (if |c[top].children| > folders then Reduced(c, mid, top, limit, true) else mid == c)
      && collected == (|mid| > limit)
      && d == if collected then Retained(mid, top) else mid
  }

  lemma CompactRootFlat(c: Graph, d: Graph, p: Key, f: Counter)
    requires Compacts(c, d, p) && Acyclic(c, {p})
    ensures Acyclic(d, {p}) && Flat(d, {p}, Own(f)) == Flat(c, {p}, Own(f))
  {
    ReachStep(c, p);
    CompactFlat(c, d, p, {p}, f);
    assert p !in Reach(c, c[p].children) by {
      assert p in {p} * c.Keys;
    }
  }

  /** `force_compact` keeps every total of the root of an acyclic cache; when it collects
      garbage the surviving keys are exactly those reachable from the root, and otherwise the
      cache ends within the limit. */
  lemma ForceCompactTotals(
    c: Graph, mid: Graph, d: Graph, top: Key, limit: nat, folders: nat, collected: bool, f: Counter)
    requires ForceCompacted(c, mid, d, top, limit, folders, collected) && Acyclic(c, {top})
    ensures Acyclic(d, {top}) && Flat(d, {top}, Own(f)) == Flat(c, {top}, Own(f))
    ensures collected ==> d.Keys == Reach(d, {top}) == Reach(mid, {top})
    ensures !collected && top in c ==> |d| <= limit
  {
    if mid != c {
      CompactRootFlat(c, mid, top, f);
    }
    if collected {
      RetainFlat(mid, d, {top}, Own(f));
    }
  }

  // ---------------------------------------------------------------- copying a subtree

  function AddChild(e: Entry, k: Key): Entry {
    e.(children := e.children + {k})
  }

  /** Entry of the key after `or_default`. */
  function EntryOrDefault(c: Graph, k: Key): Entry {
    if k in c then c[k] else DEFAULT_ENTRY
  }

  /** c overwritten with the part of src reachable from S. */
  ghost function Overlay(c: Graph, src: Graph, S: set<Key>): Graph {
    c + (map k | k in src && k in Reach(src, S) :: src[k])
  }

  ghost function Linked(c: Graph, k: Key, parent: Option<Key>): Graph {
    match parent
    case None => c
    case Some(p) => c[p := AddChild(EntryOrDefault(c, p), k)]
  }

  ghost function Copied(c: Graph, src: Graph, k: Key, parent: Option<Key>): Graph {
    if k in src then Linked(Overlay(c, src, {k}), k, parent) else c
  }

  lemma OverlayTwice(c: Graph, src: Graph, S: set<Key>, T: set<Key>)
    ensures Overlay(Overlay(c, src, S), src, T) == Overlay(c, src, S + T)
  {
    ReachUnion(src, S, T);
  }

  /** One turn of the child loop, when the children `done` have been copied below k. */
  lemma CopyOneMore(c: Graph, src: Graph, k: Key, done: set<Key>, ch: Key)
    requires k in src && Acyclic(src, {k}) && done <= src[k].children && ch in src[k].children
    ensures Copied(Overlay(c[k := src[k]], src, done), src, ch, Some(k))
         == Overlay(c[k := src[k]], src, done + {ch})
  {
    var d := Overlay(c[k := src[k]], src, done);
    if ch in src {
      OverlayTwice(c[k := src[k]], src, done, {ch});
      var e := Overlay(c[k := src[k]], src, done + {ch});
      assert k in e && e[k] == src[k];
      assert AddChild(e[k], ch) == e[k];
      assert Linked(e, ch, Some(k)) == e;
    } else {
      assert done * src.Keys == (done + {ch}) * src.Keys;
      ReachLeast(src, done + {ch}, Reach(src, done));
      ReachLeast(src, done, Reach(src, done + {ch}));
    }
  }

  lemma CopySelfAndChildren(c: Graph, src: Graph, k: Key)
    requires k in src
    ensures Overlay(c[k := src[k]], src, src[k].children) == Overlay(c, src, {k})
  {
    ReachStep(src, k);
  }

  /** Copying from an acyclic source under a parent that is not itself copied makes the key
      flatten to the source's totals, if no key missing from the source is filled in by the
      destination; nothing but the copied keys and the parent changes. */
  lemma CopyFlat(c: Graph, src: Graph, k: Key, parent: Option<Key>, d: Graph, w: Weight)
    requires d == Copied(c, src, k, parent)
    requires k in src && Acyclic(src, {k})
    requires parent.Some? ==> parent.value !in Reach(src, {k})
    requires forall x, ch :: x in Reach(src, {k}) && ch in src[x].children && ch in d ==> ch in src
    ensures Acyclic(d, {k}) && Reach(d, {k}) == Reach(src, {k})
    ensures Flat(d, {k}, w) == Flat(src, {k}, w)
  {
    assert AgreeFrom(src, d, {k});
    AgreeSameReach(src, d, {k});
    FlatAgree(src, d, {k}, w);
  }

  lemma CopyFrame(c: Graph, src: Graph, k: Key, parent: Option<Key>, d: Graph, touched: set<Key>)
    requires d == Copied(c, src, k, parent)
    requires touched == Reach(src, {k}) + if parent.Some? && k in src then {parent.value} else {}
    ensures d.Keys == c.Keys + touched
    ensures forall x :: x in d && x !in touched ==> d[x] == c[x]
    ensures parent.Some? && k in src && parent.value !in Reach(src, {k}) ==>
              d[parent.value] == AddChild(EntryOrDefault(c, parent.value), k)
  {
    if k !in src { ReachLeast(src, {k}, {}); }
  }

  /** The graph without links from an entry to itself, which `copy_with_children` stops at. */
  ghost function NoSelfLinks(c: Graph): Graph {
    map k | k in c :: c[k].(children := c[k].children - {k})
  }

  lemma NoSelfLinksBelow(c: Graph, k: Key, ch: Key)
    requires k in c && Acyclic(NoSelfLinks(c), {k}) && ch in c[k].children && ch != k
    ensures Acyclic(NoSelfLinks(c), {ch})
    ensures Reach(NoSelfLinks(c), {ch}) < Reach(NoSelfLinks(c), {k})
  {
    var d := NoSelfLinks(c);
    DescendChildren(d, {k}, k);
    AcyclicBelow(d, d[k].children, {ch});
  }

  ghost predicate Untouched(c: Graph, d: Graph, x: Key) {
    (x in d <==> x in c) && (x in c ==> d[x] == c[x])
  }

  ghost predicate AsIn(src: Graph, d: Graph, x: Key) {
    x in src && x in d && d[x] == src[x]
  }

  ghost predicate Below(src: Graph, k: Key, x: Key) {
    x in Reach(NoSelfLinks(src), {k})
  }

  /** The key is copied, what is below it is copied or left alone, and the rest is left alone. */
  ghost predicate CopiedBelow(c: Graph, d: Graph, src: Graph, k: Key) {
    && AsIn(src, d, k)
    && (forall x :: Below(src, k, x) ==> AsIn(src, d, x) || Untouched(c, d, x))
    && (forall x :: !Below(src, k, x) ==> Untouched(c, d, x))
  }

  ghost predicate SelfLinked(src: Graph, k: Key) {
    k in src && k in src[k].children
  }

  /** A copy that may have stopped at a self-link. A parent that is not copied itself gains the
      key as a child if and only if the key is present and has no link to itself. */
  ghost predicate PartlyCopied(c: Graph, d: Graph, src: Graph, k: Key, parent: Option<Key>) {
    && (k in src && parent != Some(k) ==> AsIn(src, d, k))
    && (forall x :: Below(src, k, x) && parent != Some(x) ==> AsIn(src, d, x) || Untouched(c, d, x))
    && (forall x :: !Below(src, k, x) && parent != Some(x) ==> Untouched(c, d, x))
    && (parent.Some? && !Below(src, k, parent.value) ==>
          if k in src && !SelfLinked(src, k)
          then parent.value in d && d[parent.value] == AddChild(EntryOrDefault(c, parent.value), k)
          else Untouched(c, d, parent.value))
  }

  lemma PartlyCopiedStart(c: Graph, src: Graph, k: Key)
    requires k in src
    ensures CopiedBelow(c, c[k := src[k]], src, k)
  {
    var n := NoSelfLinks(src);
    assert k in {k} * n.Keys && Below(src, k, k);
  }

  /** At a self-link the copy stops without linking the key to its parent. */
  lemma PartlyCopiedStop(c: Graph, d: Graph, src: Graph, k: Key, parent: Option<Key>)
    requires CopiedBelow(c, d, src, k) && SelfLinked(src, k)
    ensures PartlyCopied(c, d, src, k, parent)
  {
  }

  lemma PartlyCopiedEnd(c: Graph, d: Graph, e: Graph, src: Graph, k: Key, parent: Option<Key>)
    requires CopiedBelow(c, d, src, k) && !SelfLinked(src, k) && e == Linked(d, k, parent)
    ensures PartlyCopied(c, e, src, k, parent)
  {
    assert Below(src, k, k) by {
      assert k in {k} * NoSelfLinks(src).Keys;
    }
  }

  lemma PartlyCopiedStep(c: Graph, mid: Graph, d: Graph, src: Graph, k: Key, ch: Key)
    requires k in src && ch in src[k].children && ch != k && Acyclic(NoSelfLinks(src), {k})
    requires CopiedBelow(c, mid, src, k) && PartlyCopied(mid, d, src, ch, Some(k))
    ensures CopiedBelow(c, d, src, k)
  {
    NoSelfLinksBelow(src, k, ch);
    var n := NoSelfLinks(src);
    assert k !in Reach(n, {ch}) by {
      assert k in {k} * n.Keys && ch in n[k].children;
      ReachMonotone(n, {ch}, n[k].children);
    }
    assert d[k] == src[k] by {
      assert src[k].children + {ch} == src[k].children;
    }
    assert Below(src, k, k);
    forall x | !Below(src, k, x) ensures Untouched(c, d, x) {
      assert !Below(src, ch, x) && x != k;
    }
    forall x | Below(src, k, x) ensures AsIn(src, d, x) || Untouched(c, d, x) {
      assert Below(src, ch, x) || x == k || Untouched(mid, d, x);
    }
  }

  // ---------------------------------------------------------------- merging two caches

  /** d is c after merging the entry R (of the cache o) into the root r, and the flattened
      entries of the children `done` of R into the entries of the same keys. */
  ghost predicate MergedSoFar(c: Graph, d: Graph, r: Key, o: Graph, R: Entry, done: set<Key>) {
    && r in c && done <= c.Keys
    && (forall k :: k in done ==> k in o && Acyclic(o, o[k].children))
    && d.Keys == c.Keys
    && d[r].children == c[r].children + done
    && (forall f :: Count(d[r].stats, f)
                    == Count(c[r].stats, f) + Count(R.stats, f) + if r in done then FlatAt(o, r, Own(f)) else 0)
    && (forall k :: k in c && k != r ==> d[k].children == c[k].children)
    && (forall k :: k in c ==> d[k].compacted == c[k].compacted)
    && (forall k, f :: k in done && k != r ==>
          Count(d[k].stats, f) == Count(c[k].stats, f) + FlatAt(o, k, Own(f)))
    && (forall k :: k in c && k !in done && k != r ==> d[k] == c[k])
  }

  ghost predicate MergedInto(c: Graph, d: Graph, r: Key, o: Graph, R: Entry) {
    MergedSoFar(c, d, r, o, R, R.children)
  }

  lemma MergeStart(c: Graph, r: Key, o: Graph, R: Entry, merged: Entry)
    requires r in c && merged.children == c[r].children && merged.compacted == c[r].compacted
    requires forall f :: Count(merged.stats, f) == Count(c[r].stats, f) + Count(R.stats, f)
    ensures MergedSoFar(c, c[r := merged], r, o, R, {})
  {
  }

  lemma MergeOneMore(
    c: Graph, d: Graph, e: Graph, r: Key, o: Graph, R: Entry, done: set<Key>, k: Key, merged: Entry)
    requires MergedSoFar(c, d, r, o, R, done)
    requires k in c && k in o && k !in done && k != r && Acyclic(o, o[k].children)
    requires merged.children == d[k].children && merged.compacted == d[k].compacted
    requires forall f :: Count(merged.stats, f) == Count(d[k].stats, f) + FlatAt(o, k, Own(f))
    requires e == Linked(d[k := merged], k, Some(r))
    ensures MergedSoFar(c, e, r, o, R, done + {k})
  {
    assert e[r].children == c[r].children + (done + {k});
  }

  /** The same turn when the other root names this root as a child. */
  lemma MergeRootItself(c: Graph, d: Graph, e: Graph, r: Key, o: Graph, R: Entry, done: set<Key>, merged: Entry)
    requires MergedSoFar(c, d, r, o, R, done)
    requires r in o && r !in done && Acyclic(o, o[r].children)
    requires merged.children == d[r].children && merged.compacted == d[r].compacted
    requires forall f :: Count(merged.stats, f) == Count(d[r].stats, f) + FlatAt(o, r, Own(f))
    requires e == Linked(d[r := merged], r, Some(r))
    ensures MergedSoFar(c, e, r, o, R, done + {r})
  {
    assert e[r].children == c[r].children + (done + {r});
  }

  /** Below the children of the root r and the other starts of S there is no second way to
      reach a start or a child of r. */
  lemma NothingMergedBelow(c: Graph, S: set<Key>, r: Key, T: set<Key>, x: Key, z: Key)
    requires Tree(c, S) && r in S && r in c
    requires T <= c[r].children + (S - {r}) && x in Reach(c, T)
    requires z in S || z in c[r].children
    ensures Reach(c, T) <= Reach(c, S) && x != r
    ensures z !in Reach(c, c[x].children)
  {
    assert r in S * c.Keys;
    assert c[r].children * c.Keys <= Reach(c, S);
    ReachMonotone(c, T, S);
    if r in Reach(c, T) {
      HasParent(c, T, r);
    }
    if z in Reach(c, c[x].children) {
      assert c[x].children * c.Keys <= Reach(c, T);
      ReachMonotone(c, c[x].children, T);
      if z !in c[x].children {
        HasParent(c, c[x].children, z);
      }
    }
  }

  lemma MergeAgree(c: Graph, d: Graph, r: Key, o: Graph, R: Entry, S: set<Key>, T: set<Key>, x: Key)
    requires MergedInto(c, d, r, o, R)
    requires Tree(c, S) && r in S && R.children <= c[r].children + S
    requires T <= c[r].children + (S - {r}) && x in Reach(c, T)
    ensures x in d && d[x].children == c[x].children
    ensures AgreeFrom(c, d, c[x].children)
  {
    NothingMergedBelow(c, S, r, T, x, r);
    forall k | k in Reach(c, c[x].children)
      ensures k in d && d[k] == c[k]
    {
      if k in R.children {
        NothingMergedBelow(c, S, r, T, x, k);
      }
    }
  }

  lemma MergeAcyclic(c: Graph, d: Graph, r: Key, o: Graph, R: Entry, S: set<Key>, T: set<Key>)
    requires MergedInto(c, d, r, o, R)
    requires Tree(c, S) && r in S && R.children <= c[r].children + S
    requires T <= c[r].children + (S - {r})
    ensures Reach(d, T) == Reach(c, T) && Acyclic(d, T)
  {
    forall x, z | x in Reach(c, T) && x in d && z in d[x].children && z in d
      ensures z in Reach(c, T)
    {
      MergeAgree(c, d, r, o, R, S, T, x);
    }
    ReachLeast(d, T, Reach(c, T));
    forall x | x in Reach(d, T)
      ensures x !in Reach(d, d[x].children)
    {
      NothingMergedBelow(c, S, r, T, x, r);
      MergeAgree(c, d, r, o, R, S, T, x);
      AgreeSameReach(c, d, c[x].children);
    }
    forall x, z | x in Reach(d, T) && x in c && z in c[x].children && z in c
      ensures z in Reach(d, T)
    {
      MergeAgree(c, d, r, o, R, S, T, x);
    }
    ReachLeast(c, T, Reach(d, T));
  }

  lemma MergeOneSibling(c: Graph, d: Graph, r: Key, o: Graph, R: Entry, S: set<Key>, T: set<Key>, j: Key, f: Counter)
    requires MergedInto(c, d, r, o, R)
    requires Tree(c, S) && r in S && R.children <= c[r].children + S
    requires T <= c[r].children + (S - {r}) && j in T && Acyclic(c, T) && Acyclic(d, T)
    ensures j in c ==> Acyclic(c, c[j].children)
    ensures j in d ==> Acyclic(d, d[j].children)
    ensures FlatAt(d, j, Own(f)) == FlatAt(c, j, Own(f)) + if j in R.children then FlatAt(o, j, Own(f)) else 0
  {
    if j in c {
      assert j in T * c.Keys;
      DescendChildren(c, T, j);
      MergeAgree(c, d, r, o, R, S, T, j);
      NothingMergedBelow(c, S, r, T, j, r);
      FlatAgree(c, d, c[j].children, Own(f));
    }
  }

  /** Bumping the children that the other root names adds the other cache's totals for them. */
  lemma {:induction false} MergeSiblings(c: Graph, d: Graph, r: Key, o: Graph, R: Entry, S: set<Key>, T: set<Key>, f: Counter)
    requires MergedInto(c, d, r, o, R) && Acyclic(o, R.children)
    requires Tree(c, S) && r in S && R.children <= c[r].children + S
    requires T <= c[r].children + (S - {r})
    ensures Acyclic(d, T) && Acyclic(c, T) && Acyclic(o, T * R.children)
    ensures Flat(d, T, Own(f)) == Flat(c, T, Own(f)) + Flat(o, T * R.children, Own(f))
    decreases |T|
  {
    var w := Own(f);
    MergeAcyclic(c, d, r, o, R, S, T);
    SiblingsAcyclic(c, S, r, T);
    AcyclicBelow(o, R.children, T * R.children);
    if T != {} {
      var j :| j in T;
      FlatPick(c, T, j, w);
      FlatPick(d, T, j, w);
      MergeOneSibling(c, d, r, o, R, S, T, j, f);
      MergeSiblings(c, d, r, o, R, S, T - {j}, f);
      FlatMeetPick(o, T, R.children, j, w);
    }
  }

  lemma FlatMeetPick(o: Graph, T: set<Key>, K: set<Key>, j: Key, w: Weight)
    requires Acyclic(o, T * K) && j in T
    ensures Acyclic(o, (T - {j}) * K) && (j in K && j in o ==> Acyclic(o, o[j].children))
    ensures Flat(o, T * K, w) == (if j in K then FlatAt(o, j, w) else 0) + Flat(o, (T - {j}) * K, w)
  {
    if j in K {
      FlatPick(o, T * K, j, w);
      assert T * K - {j} == (T - {j}) * K;
    } else {
      assert T * K == (T - {j}) * K;
    }
  }

  lemma SiblingsAcyclic(c: Graph, S: set<Key>, r: Key, T: set<Key>)
    requires Acyclic(c, S) && r in S && r in c && T <= c[r].children + (S - {r})
    ensures Acyclic(c, T)
  {
    assert r in S * c.Keys;
    assert T * c.Keys <= Reach(c, S);
    AcyclicBelow(c, S, T);
  }

  lemma MergeRootAcyclic(c: Graph, d: Graph, r: Key, o: Graph, R: Entry, S: set<Key>)
    requires MergedInto(c, d, r, o, R) && r !in R.children
    requires S == {r} + (R.children - c[r].children) && Tree(c, S)
    ensures d[r].children == c[r].children + (S - {r})
    ensures Acyclic(c, {r}) && Acyclic(d, {r})
  {
    var T := c[r].children + (S - {r});
    AcyclicBelow(c, S, {r});
    assert d[r].children == T;
    MergeAcyclic(c, d, r, o, R, S, T);
    if r in Reach(c, T) {
      NothingMergedBelow(c, S, r, T, r, r);
    }
    AcyclicOne(d, r);
  }

  /** The merged root is on a cycle if and only if the other root names it as a child. */
  lemma MergeAcyclicIff(c: Graph, d: Graph, r: Key, o: Graph, R: Entry, S: set<Key>)
    requires MergedInto(c, d, r, o, R)
    requires S == {r} + (R.children - c[r].children) && Tree(c, S)
    ensures Acyclic(d, {r}) <==> r !in R.children
  {
    if r in R.children {
      SelfLinkIsCycle(d, r);
    } else {
      MergeRootAcyclic(c, d, r, o, R, S);
    }
  }

  /** Merging adds the other root's totals, and brings in the totals of those of its children
      that were present here but not yet below the root. */
  lemma MergeFlat(c: Graph, d: Graph, r: Key, o: Graph, ro: Key, S: set<Key>, f: Counter)
    requires ro in o && Acyclic(o, {ro}) && MergedInto(c, d, r, o, o[ro])
    requires r !in o[ro].children && S == {r} + (o[ro].children - c[r].children) && Tree(c, S)
    ensures Acyclic(c, {r}) && Acyclic(d, {r}) && Acyclic(c, S - {r})
    ensures Flat(d, {r}, Own(f)) == Flat(c, {r}, Own(f)) + Flat(o, {ro}, Own(f)) + Flat(c, S - {r}, Own(f))
  {
    var w := Own(f);
    var R := o[ro];
    var T := c[r].children + (S - {r});
    MergeRootAcyclic(c, d, r, o, R, S);
    DescendChildren(o, {ro}, ro);
    MergeSiblings(c, d, r, o, R, S, T, f);
    assert T * R.children == R.children;
    FlatDisjoint(c, c[r].children, S - {r}, w);
    FlatOne(c, r, w);
    FlatOne(d, r, w);
    FlatOne(o, ro, w);
  }

  /** With every child of the other root already a child of this one, the merged totals are
      exactly the sum of the two. */
  lemma MergeTotals(c: Graph, d: Graph, r: Key, o: Graph, ro: Key, f: Counter)
    requires ro in o && Acyclic(o, {ro}) && MergedInto(c, d, r, o, o[ro])
    requires o[ro].children <= c[r].children && Tree(c, {r})
    ensures Acyclic(c, {r}) && Acyclic(d, {r})
    ensures Flat(d, {r}, Own(f)) == Flat(c, {r}, Own(f)) + Flat(o, {ro}, Own(f))
  {
    assert r in {r} * c.Keys;
    assert o[ro].children - c[r].children == {};
    MergeFlat(c, d, r, o, ro, {r}, f);
    assert {r} - {r} == {};
  }

  /** So the figures reported for the merged root are those of the two roots added up. */
  lemma MergeFigures(c: Graph, d: Graph, r: Key, o: Graph, ro: Key, s: Stats, t: Stats, u: Stats, sum: Stats)
    requires ro in o && Acyclic(o, {ro}) && MergedInto(c, d, r, o, o[ro])
    requires o[ro].children <= c[r].children && Tree(c, {r})
    requires TotalAt(c, r, s) && TotalAt(o, ro, t) && TotalAt(d, r, u)
    requires forall f :: Count(sum, f) == Count(s, f) + Count(t, f)
    ensures u == sum
  {
    forall f ensures Count(u, f) == Count(sum, f) {
      MergeTotals(c, d, r, o, ro, f);
    }
    CountersDetermineStats(u, sum);
  }
}
