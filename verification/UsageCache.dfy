/** The data-usage cache object: flattening, deletion, compaction, garbage collection,
    subtree copies and merging, all done in place on the map of entries.

    Sets of children are visited in an arbitrary order, as hash sets are. */
module UsageCache {
  import opened Prelude
  import opened UsageStats
  import opened UsageGraph
  import opened UsageRewrites

  const FORCE_COMPACT_AT_FOLDERS: nat := 250_000
  const WORD: nat := 0x1_0000_0000_0000_0000

  /** A compaction candidate (`Inner`). */
  datatype Leaf = Leaf(objects: nat, path: Key)

  /** `DataUsageEntry::merge`: the children and the compacted mark stay those of self. */
  method MergeEntry(self: Entry, other: Entry) returns (r: Entry)
    ensures r.children == self.children && r.compacted == self.compacted
    ensures forall f :: Count(r.stats, f) == Count(self.stats, f) + Count(other.stats, f)
  {
    var stats := MergeStats(self.stats, other.stats);
    r := self.(stats := stats);
  }

  class DataUsageCache {
    /** Lexical path cleaning, which `hash_path` applies. */
    const clean: Key -> Key
    var name: string
    var lastUpdate: Option<nat>
    var cache: Graph

    /** Keys and child names are cleaned paths, and cleaning twice changes nothing more. */
    ghost predicate Valid()
      reads this
    {
      && (forall k :: clean(clean(k)) == clean(k))
      && (forall k :: k in cache ==> clean(k) == k)
      && (forall k, ch :: k in cache && ch in cache[k].children ==> clean(ch) == ch)
    }

    constructor (clean: Key -> Key, name: string)
      requires forall k :: clean(clean(k)) == clean(k)
      ensures Valid() && this.clean == clean && this.name == name
      ensures cache == map[] && lastUpdate == None
    {
      this.clean := clean;
      this.name := name;
      cache := map[];
      lastUpdate := None;
    }

    // -------------------------------------------------------------- reading

    /** The entry with the totals of everything below it added in, and no children. */
    method Flatten(root: Entry) returns (r: Entry)
      requires Acyclic(cache, root.children)
      ensures r.children == {} && r.compacted == root.compacted
      ensures forall f :: Count(r.stats, f) == Count(root.stats, f) + Flat(cache, root.children, Own(f))
      decreases Reach(cache, root.children)
    {
      r := root;
      var todo := root.children;
      while todo != {}
        invariant todo <= root.children && Acyclic(cache, todo) && r.compacted == root.compacted
        invariant forall f :: Count(r.stats, f) + Flat(cache, todo, Own(f))
                           == Count(root.stats, f) + Flat(cache, root.children, Own(f))
      {
        ghost var before := r;
        var id :| id in todo;
        DescendRest(cache, todo, id);
        if id in cache {
          var e := cache[id];
          DescendChildren(cache, root.children, id);
          if e.children != {} {
            e := Flatten(e);
          }
          r := MergeEntry(r, e);
        }
        forall f
          ensures Count(r.stats, f) + Flat(cache, todo - {id}, Own(f))
               == Count(root.stats, f) + Flat(cache, root.children, Own(f))
        {
          FlatPick(cache, todo, id, Own(f));
          assert Count(before.stats, f) + Flat(cache, todo, Own(f))
              == Count(root.stats, f) + Flat(cache, root.children, Own(f));
        }
        todo := todo - {id};
      }
      r := r.(children := {});
    }

    /** The flattened entry at a path, if there is one. */
    method SizeRecursive(path: string) returns (r: Option<Entry>)
      requires Valid()
      requires Acyclic(cache, {clean(path)})
      ensures r.None? <==> clean(path) !in cache
      ensures r.Some? ==> r.value.children == {} && r.value.compacted == cache[clean(path)].compacted
      ensures clean(path) in cache ==> Acyclic(cache, cache[clean(path)].children)
      ensures r.Some? ==> forall f :: Count(r.value.stats, f) == FlatAt(cache, clean(path), Own(f))
      ensures r.Some? ==> TotalAt(cache, clean(path), r.value.stats)
    {
      var key := clean(path);
      if key !in cache {
        return None;
      }
      DescendChildren(cache, {key}, key);
      TotalAtOne(cache, key);
      var root := cache[key];
      if root.children == {} {
        return Some(root);
      }
      var flat := Flatten(root);
      r := Some(flat);
    }

    /** The number of child links below a path. */
    method TotalChildrenRec(path: string) returns (n: nat)
      requires Valid()
      requires Acyclic(cache, {clean(path)})
      ensures n == Flat(cache, {clean(path)}, ChildCount)
      decreases Reach(cache, {clean(path)})
    {
      var key := clean(path);
      FlatOne(cache, key, ChildCount);
      if key !in cache {
        return 0;
      }
      var root := cache[key];
      if root.children == {} {
        return 0;
      }
      DescendChildren(cache, {key}, key);
      n := |root.children|;
      var todo := root.children;
      while todo != {}
        invariant todo <= root.children && Acyclic(cache, todo)
        invariant n + Flat(cache, todo, ChildCount) == FlatAt(cache, key, ChildCount)
      {
        var ch :| ch in todo;
        assert ch in root.children && clean(ch) == ch;
        AcyclicBelow(cache, root.children, {ch});
        var m := TotalChildrenRec(ch);
        FlatOne(cache, ch, ChildCount);
        FlatPick(cache, todo, ch, ChildCount);
        n := n + m;
        todo := todo - {ch};
      }
    }

    // -------------------------------------------------------------- writing

    method ReplaceHashed(hash: Key, parent: Option<Key>, e: Entry)
      modifies this`cache
      ensures cache == Linked(old(cache)[hash := e], hash, parent)
      ensures parent != Some(hash) ==> hash in cache && cache[hash] == e
      ensures forall k :: k != hash && parent != Some(k) ==>
                (k in cache <==> k in old(cache)) && (k in cache ==> cache[k] == old(cache)[k])
      ensures parent.Some? && parent.value != hash ==>
                parent.value in cache && cache[parent.value] ==
                  if parent.value in old(cache)
                  then old(cache)[parent.value].(children := old(cache)[parent.value].children + {hash})
                  else Entry({hash}, NO_STATS, false)
    {
      cache := cache[hash := e];
      if parent.Some? {
        cache := cache[parent.value := AddChild(EntryOrDefault(cache, parent.value), hash)];
      }
    }

    /** Removes exactly the keys reachable from the start, on any graph. */
    method DeleteRecursive(hash: Key)
      modifies this`cache
      ensures cache == old(cache) - Reach(old(cache), {hash})
      decreases |cache|
    {
      var needRemove: set<Key> := {};
      if hash in cache {
        needRemove := cache[hash].children;
        DeleteSelfFirst(cache, hash);
      } else {
        DeleteAbsent(cache, hash);
      }
      ghost var before := cache;
      cache := cache - {hash};
      ghost var rest := cache;
      ghost var done: set<Key> := {};
      var todo := needRemove;
      ReachLeast(rest, {}, {});
      while todo != {}
        invariant done + todo == needRemove
        invariant cache == rest - Reach(rest, done)
        decreases todo
      {
        var child :| child in todo;
        assert rest.Keys < before.Keys;
        CardinalityBelow(cache.Keys, before.Keys);
        DeleteRecursive(child);
        DeleteOneMore(rest, done, child);
        done := done + {child};
        todo := todo - {child};
      }
      assert done == needRemove;
    }

    // -------------------------------------------------------------- compaction

    /** Replaces the subtree of a path by its flattened entry. */
    method CompactAt(path: Key, flat: Entry)
      requires Valid() && path in cache && Acyclic(cache, {path})
      requires flat.children == {}
      requires Acyclic(cache, cache[path].children)
      requires forall f :: Count(flat.stats, f) == FlatAt(cache, path, Own(f))
      modifies this`cache
      ensures Valid() && Compacts(old(cache), cache, path)
    {
      DeleteRecursive(path);
      ReplaceHashed(path, None, flat.(compacted := true));
    }

    /** `add`: an entry is a candidate only if it has no children. */
    method AddLeaf(path: Key, leaves: seq<Leaf>) returns (r: seq<Leaf>)
      requires Valid() && clean(path) == path && Acyclic(cache, {path})
      ensures r == leaves + if path in cache && cache[path].children == {} then [Leaf(cache[path].stats.objects, path)] else []
    {
      if path !in cache || cache[path].children != {} {
        return leaves;
      }
      var sz := SizeRecursive(path);
      assert Count(sz.value.stats, Objects) == FlatAt(cache, path, Own(Objects));
      r := leaves + [Leaf(sz.value.stats.objects, path)];
    }

    /** The loop that compacts candidates until enough child links are gone. */
    method CompactLeaves(path: Key, compactSelf: bool, initial: nat, candidates: seq<Leaf>)
      requires Valid()
      requires forall i :: 0 <= i < |candidates| ==>
                 clean(candidates[i].path) == candidates[i].path && Acyclic(cache, {candidates[i].path})
      modifies this`cache
      ensures Valid() && SubGraph(cache, old(cache))
      ensures initial == 0 || candidates == [] ==> cache == old(cache)
    {
      var remove, leaves := initial, candidates;
      while remove > 0 && leaves != []
        invariant Valid() && SubGraph(cache, old(cache))
        invariant forall i :: 0 <= i < |leaves| ==>
                    clean(leaves[i].path) == leaves[i].path && Acyclic(old(cache), {leaves[i].path})
        invariant initial == 0 || candidates == [] ==> cache == old(cache) && remove == initial && leaves == candidates
        decreases |leaves|
      {
        var candidate := leaves[0].path;
        if candidate == path && !compactSelf {
          break;
        }
        SubGraphAcyclic(cache, old(cache), {candidate});
        var removing := TotalChildrenRec(candidate);
        var flat := SizeRecursive(candidate);
        if flat.Some? {
          ghost var before := cache;
          CompactAt(candidate, flat.value);
          CompactsIsSubGraph(before, cache, candidate);
          remove := (remove - removing) % WORD;
        }
        leaves := leaves[1..];
      }
    }

    /** Compacts the subtree of a path that has more children than allowed. */
    method ReduceChildrenOf(path: Key, limit: nat, compactSelf: bool)
      requires Valid() && clean(path) == path && Acyclic(cache, {path})
      modifies this`cache
      ensures Valid() && Reduced(old(cache), cache, path, limit, compactSelf)
      ensures !(path in old(cache) && !old(cache)[path].compacted && |old(cache)[path].children| > limit && compactSelf) ==>
                cache == old(cache)
      ensures path in old(cache) && !old(cache)[path].compacted && |old(cache)[path].children| > limit && compactSelf ==>
                && path in cache && cache[path].children == {} && cache[path].compacted
                && (forall k :: k in Reach(old(cache), {path}) && k != path ==> k !in cache)
      ensures forall k :: k !in Reach(old(cache), {path}) ==>
                (k in cache <==> k in old(cache)) && (k in cache ==> cache[k] == old(cache)[k])
    {
      if path !in cache || cache[path].compacted {
        return;
      }
      DescendChildren(cache, {path}, path);
      if |cache[path].children| > limit && compactSelf {
        var flat := SizeRecursive(path);
        CompactAt(path, flat.value);
        return;
      }
      var total := TotalChildrenRec(path);
      if total < limit {
        return;
      }
      var leaves := AddLeaf(path, []);
      // A list of at most one candidate needs no sorting.
      FlatOne(cache, path, ChildCount);
      CompactLeaves(path, compactSelf, total - limit, leaves);
    }

    // -------------------------------------------------------------- garbage collection

    /** Adds every key below an entry to the found set. */
    method Mark(entry: Entry, found: set<Key>) returns (r: set<Key>)
      requires Acyclic(cache, entry.children)
      ensures found <= r
      ensures r * cache.Keys == found * cache.Keys + Reach(cache, entry.children)
      decreases Reach(cache, entry.children)
    {
      r := found;
      var todo := entry.children;
      ghost var done: set<Key> := {};
      ReachLeast(cache, {}, {});
      while todo != {}
        invariant done + todo == entry.children && found <= r
        invariant r * cache.Keys == found * cache.Keys + Reach(cache, done)
      {
        var k :| k in todo;
        ghost var before := r;
        r := r + {k};
        ReachUnion(cache, done, {k});
        if k in cache {
          assert r * cache.Keys == before * cache.Keys + {k};
          DescendChildren(cache, entry.children, k);
          r := Mark(cache[k], r);
          ReachStep(cache, k);
        } else {
          assert r * cache.Keys == before * cache.Keys;
          ReachLeast(cache, {k}, {});
        }
        done := done + {k};
        todo := todo - {k};
      }
      assert done == entry.children;
    }

    /** Drops every key that marking from the root entry does not find. */
    method Collect(top: Key, topE: Entry)
      requires Valid() && Acyclic(cache, topE.children) && top in cache
      requires {top} + Reach(cache, topE.children) == Reach(cache, {top})
      modifies this`cache
      ensures Valid() && cache == Retained(old(cache), top)
      ensures cache.Keys == Reach(old(cache), {top}) && forall k :: k in cache ==> cache[k] == old(cache)[k]
    {
      var found := Mark(topE, {top});
      assert {top} * cache.Keys == {top};
      assert found * cache.Keys == Reach(cache, {top});
      cache := map k | k in cache && k in found :: cache[k];
    }

    /** Compacts an oversized root, then drops what the root does not reach. */
    method ForceCompact(limit: nat) returns (ghost mid: Graph, ghost collected: bool)
      requires Valid() && Acyclic(cache, {clean(name)})
      modifies this`cache
      ensures Valid()
      ensures ForceCompacted(old(cache), mid, cache, clean(name), limit, FORCE_COMPACT_AT_FOLDERS, collected)
      ensures |old(cache)| < limit || clean(name) !in old(cache) ==> cache == old(cache)
      ensures clean(name) in old(cache) && |old(cache)[clean(name)].children| <= 250_000 && |old(cache)| <= limit ==>
                cache == old(cache)
      ensures forall k :: k in cache && k != clean(name) ==> k in old(cache) && cache[k] == old(cache)[k]
    {
      mid, collected := cache, false;
      if |cache| < limit {
        return;
      }
      var top := clean(name);
      if top !in cache {
        return;
      }
      var topE := cache[top];
      if |topE.children| > FORCE_COMPACT_AT_FOLDERS {
        ReduceChildrenOf(top, limit, true);
      }
      mid := cache;
      if |cache| <= limit {
        return;
      }
      collected := true;
      MarkAfterReduce(old(cache), mid, top);
      Collect(top, topE);
    }

    // -------------------------------------------------------------- copying and merging

    /** Copies the subtree of a key from another cache and links it to a parent. Where the
        source has a link from an entry to itself, the copy stops short, at a place that depends
        on the order of the children; what it leaves behind is a part of the full copy. */
    method CopyWithChildren(src: DataUsageCache, hash: Key, parent: Option<Key>)
      requires src != this && Acyclic(NoSelfLinks(src.cache), {hash})
      modifies this`cache
      ensures Acyclic(src.cache, {hash}) ==> cache == Copied(old(cache), src.cache, hash, parent)
      ensures Acyclic(src.cache, {hash}) ==>
                forall k :: k in Reach(src.cache, {hash}) && parent != Some(k) ==> k in cache && cache[k] == src.cache[k]
      ensures PartlyCopied(old(cache), cache, src.cache, hash, parent)
      decreases Reach(NoSelfLinks(src.cache), {hash})
    {
      if hash !in src.cache {
        ReachLeast(NoSelfLinks(src.cache), {hash}, {});
        ReachLeast(src.cache, {hash}, {});
        return;
      }
      var e := src.cache[hash];
      cache := cache[hash := e];
      PartlyCopiedStart(old(cache), src.cache, hash);
      var todo := e.children;
      ghost var done: set<Key> := {};
      ReachLeast(src.cache, {}, {});
      while todo != {}
        invariant done + todo == e.children && hash !in done
        invariant Acyclic(src.cache, {hash}) ==> cache == Overlay(old(cache)[hash := e], src.cache, done)
        invariant CopiedBelow(old(cache), cache, src.cache, hash)
      {
        var ch :| ch in todo;
        if ch == hash {
          SelfLinkIsCycle(src.cache, hash);
          PartlyCopiedStop(old(cache), cache, src.cache, hash, parent);
          return;
        }
        CopyChild(src, hash, ch, old(cache), done);
        done := done + {ch};
        todo := todo - {ch};
      }
      assert done == e.children;
      CopySelfAndChildren(old(cache), src.cache, hash);
      PartlyCopiedEnd(old(cache), cache, Linked(cache, hash, parent), src.cache, hash, parent);
      if parent.Some? {
        cache := cache[parent.value := AddChild(EntryOrDefault(cache, parent.value), hash)];
      }
    }

    method CopyChild(src: DataUsageCache, hash: Key, ch: Key, ghost start: Graph, ghost done: set<Key>)
      requires src != this && Acyclic(NoSelfLinks(src.cache), {hash})
      requires hash in src.cache && ch in src.cache[hash].children && ch != hash && done <= src.cache[hash].children
      requires Acyclic(src.cache, {hash}) ==> cache == Overlay(start[hash := src.cache[hash]], src.cache, done)
      requires CopiedBelow(start, cache, src.cache, hash)
      modifies this`cache
      ensures Acyclic(src.cache, {hash}) ==> cache == Overlay(start[hash := src.cache[hash]], src.cache, done + {ch})
      ensures CopiedBelow(start, cache, src.cache, hash)
      decreases Reach(NoSelfLinks(src.cache), {hash}), 0
    {
      NoSelfLinksBelow(src.cache, hash, ch);
      CopyWithChildren(src, ch, Some(hash));
      PartlyCopiedStep(start, old(cache), cache, src.cache, hash, ch);
      if Acyclic(src.cache, {hash}) {
        DescendChildren(src.cache, {hash}, hash);
        AcyclicBelow(src.cache, src.cache[hash].children, {ch});
        CopyOneMore(start, src.cache, hash, done, ch);
      }
    }

    /** One turn of the child loop of `merge`: the other cache's subtree at the key is added,
        flattened, to the entry here, which is linked to the root. */
    method MergeChild(o: DataUsageCache, r: Key, key: Key, otherRoot: Entry, ghost start: Graph, ghost done: set<Key>)
      requires o != this && Valid() && r in cache && key in cache && key in o.cache
      requires Acyclic(o.cache, o.cache[key].children) && key !in done
      requires MergedSoFar(start, cache, r, o.cache, otherRoot, done)
      modifies this`cache
      ensures Valid() && cache.Keys == old(cache).Keys
      ensures MergedSoFar(start, cache, r, o.cache, otherRoot, done + {key})
    {
      var flat := o.Flatten(o.cache[key]);
      var existing := MergeEntry(cache[key], flat);
      ReplaceHashed(key, Some(r), existing);
      if key == r {
        MergeRootItself(start, old(cache), cache, r, o.cache, otherRoot, done, existing);
      } else {
        MergeOneMore(start, old(cache), cache, r, o.cache, otherRoot, done, key, existing);
      }
    }

    /** The child loop of `merge`. */
    method MergeChildren(o: DataUsageCache, r: Key, otherRoot: Entry, ghost start: Graph)
      requires o != this && Valid() && r in cache
      requires Acyclic(o.cache, otherRoot.children)
      requires otherRoot.children <= cache.Keys && otherRoot.children <= o.cache.Keys
      requires MergedSoFar(start, cache, r, o.cache, otherRoot, {})
      modifies this`cache
      ensures Valid() && MergedInto(start, cache, r, o.cache, otherRoot)
    {
      var todo := otherRoot.children;
      ghost var done: set<Key> := {};
      while todo != {}
        invariant done + todo == otherRoot.children && done !! todo
        invariant Valid() && cache.Keys == old(cache).Keys
        invariant MergedSoFar(start, cache, r, o.cache, otherRoot, done)
      {
        var key :| key in todo;
        assert key in otherRoot.children;
        DescendChildren(o.cache, otherRoot.children, key);
        MergeChild(o, r, key, otherRoot, start, done);
        done := done + {key};
        todo := todo - {key};
      }
      assert done == otherRoot.children;
    }

    /** Merges another cache: its root into this root, its root's children, flattened, into
        the entries of the same keys. */
    method Merge(o: DataUsageCache)
      requires o != this && Valid() && o.Valid() && o.clean == clean
      requires Acyclic(o.cache, {clean(o.name)})
      requires clean(name) in cache && clean(o.name) in o.cache ==>
                 forall k :: k in o.cache[clean(o.name)].children ==> k in cache && k in o.cache
      modifies this
      ensures Valid()
      ensures clean(o.name) !in o.cache ==>
                cache == old(cache) && name == old(name) && lastUpdate == old(lastUpdate)
      ensures clean(o.name) in o.cache && old(clean(name) !in cache) ==>
                cache == o.cache && name == o.name && lastUpdate == o.lastUpdate
      ensures clean(o.name) in o.cache && old(clean(name) in cache) ==>
                && name == old(name)
                && lastUpdate == Later(old(lastUpdate), o.lastUpdate)
                && MergedInto(old(cache), cache, clean(name), o.cache, o.cache[clean(o.name)])
                && cache.Keys == old(cache).Keys
                && (forall k :: k in cache ==> cache[k].compacted == old(cache)[k].compacted)
                && cache[clean(name)].children == old(cache)[clean(name)].children + o.cache[clean(o.name)].children
                && (forall k :: k in cache && k != clean(name) ==> cache[k].children == old(cache)[k].children)
                && (forall k :: k in cache && k != clean(name) && k !in o.cache[clean(o.name)].children ==>
                      cache[k] == old(cache)[k])
    {
      var r := clean(name);
      var ro := clean(o.name);
      if ro !in o.cache {
        return;
      }
      if r !in cache {
        name, cache, lastUpdate := o.name, o.cache, o.lastUpdate;
        return;
      }
      if o.lastUpdate.Some? && (lastUpdate.None? || o.lastUpdate.value > lastUpdate.value) {
        lastUpdate := o.lastUpdate;
      }
      MergeRoots(o, r, ro);
    }

    /** Both caches have a root. */
    method MergeRoots(o: DataUsageCache, r: Key, ro: Key)
      requires o != this && Valid() && r in cache && ro in o.cache && Acyclic(o.cache, {ro})
      requires o.cache[ro].children <= cache.Keys && o.cache[ro].children <= o.cache.Keys
      modifies this`cache
      ensures Valid() && MergedInto(old(cache), cache, r, o.cache, o.cache[ro])
    {
      var otherRoot := o.cache[ro];
      var existingRoot := MergeEntry(cache[r], otherRoot);
      MergeStart(cache, r, o.cache, otherRoot, existingRoot);
      cache := cache[r := existingRoot];
      DescendChildren(o.cache, {ro}, ro);
      MergeChildren(o, r, otherRoot, old(cache));
    }
  }

  /** The root is left with the children it kept, whichever way `reduce_children_of` went. */
  lemma MarkAfterReduce(c: Graph, d: Graph, top: Key)
    requires top in c && Acyclic(c, {top}) && (d == c || Compacts(c, d, top))
    ensures top in d && Acyclic(d, c[top].children)
    ensures {top} + Reach(d, c[top].children) == Reach(d, {top})
  {
    DescendChildren(c, {top}, top);
    ReachStep(c, top);
    if d != c {
      CompactsIsSubGraph(c, d, top);
      SubGraphAcyclic(d, c, c[top].children);
      assert c[top].children * d.Keys == {} by {
        assert top in {top} * c.Keys;
      }
      ReachLeast(d, c[top].children, {});
      ReachLeast(d, {}, {});
    }
    ReachStep(d, top);
  }

  lemma {:induction false} CardinalityBelow<T>(A: set<T>, B: set<T>)
    requires A < B
    ensures |A| < |B|
  {
    assert |B - A| + |A * B| == |B|;
    assert A * B == A;
    var x :| x in B - A;
  }
}
