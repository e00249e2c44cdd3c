/** Merging per-bucket usage: `BucketUsageInfo::merge`, `DataUsageInfo::merge`, and the
    aggregation of per-disk snapshots with saturating totals. */
module UsageInfo {
  import opened Folds
  import opened Prelude

  // ---------------------------------------------------------------- joining maps

  /** Union of two maps, with the values of common keys combined. */
  function Join<K, V>(m: map<K, V>, n: map<K, V>, plus: (V, V) -> V): (r: map<K, V>) {
    map k | k in m.Keys + n.Keys ::
      if k in m && k in n then plus(m[k], n[k]) else if k in m then m[k] else n[k]
  }

  ghost predicate Commutes<V(!new)>(plus: (V, V) -> V) {
    forall a, b :: plus(a, b) == plus(b, a)
  }

  ghost predicate Associates<V(!new)>(plus: (V, V) -> V) {
    forall a, b, c :: plus(plus(a, b), c) == plus(a, plus(b, c))
  }

  lemma JoinCommutes<K, V(!new)>(m: map<K, V>, n: map<K, V>, plus: (V, V) -> V)
    requires Commutes(plus)
    ensures Join(m, n, plus) == Join(n, m, plus)
  {
  }

  lemma JoinAssociates<K, V(!new)>(l: map<K, V>, m: map<K, V>, n: map<K, V>, plus: (V, V) -> V)
    requires Associates(plus)
    ensures Join(Join(l, m, plus), n, plus) == Join(l, Join(m, n, plus), plus)
  {
  }

  /** One more key of the second map, those in todo being still to come. */
  lemma JoinOneMore<K, V>(m: map<K, V>, n: map<K, V>, todo: set<K>, k: K, plus: (V, V) -> V)
    requires k in todo && todo <= n.Keys
    ensures var r := Join(m, n - todo, plus);
            Join(m, n - (todo - {k}), plus) == r[k := if k in r then plus(r[k], n[k]) else n[k]]
  {
  }

  /** The loops `*entry(key).or_insert(0) += value`, for any way of adding. */
  method JoinInto<K(==), V>(self: map<K, V>, other: map<K, V>, plus: (V, V) -> V) returns (r: map<K, V>)
    ensures r == Join(self, other, plus)
  {
    r := self;
    var todo := other.Keys;
    while todo != {}
      invariant todo <= other.Keys
      invariant r == Join(self, other - todo, plus)
    {
      var k :| k in todo;
      JoinOneMore(self, other, todo, k, plus);
      r := if k in r then r[k := plus(r[k], other[k])] else r[k := other[k]];
      todo := todo - {k};
    }
    assert other - {} == other;
  }

  // ---------------------------------------------------------------- bucket figures

  datatype TargetUsage = TargetUsage(
    pendingSize: nat,
    failedSize: nat,
    replicatedSize: nat,
    replicaSize: nat,
    pendingCount: nat,
    failedCount: nat,
    replicatedCount: nat)

  function PlusTarget(a: TargetUsage, b: TargetUsage): TargetUsage {
    TargetUsage(
      a.pendingSize + b.pendingSize,
      a.failedSize + b.failedSize,
      a.replicatedSize + b.replicatedSize,
      a.replicaSize + b.replicaSize,
      a.pendingCount + b.pendingCount,
      a.failedCount + b.failedCount,
      a.replicatedCount + b.replicatedCount)
  }

  function PlusNat(a: nat, b: nat): nat {
    a + b
  }

  /** The deprecated replication figures of a bucket. */
  datatype LegacyUsage = LegacyUsage(
    pendingSize: nat,
    failedSize: nat,
    replicatedSize: nat,
    pendingCount: nat,
    failedCount: nat)

  datatype BucketUsage = BucketUsage(
    size: nat,
    objects: nat,
    versions: nat,
    deleteMarkers: nat,
    replicaSize: nat,
    replicaCount: nat,
    objectSizes: map<string, nat>,
    objectVersions: map<string, nat>,
    replication: map<string, TargetUsage>,
    legacy: LegacyUsage)

  function PlusLegacy(a: LegacyUsage, b: LegacyUsage): LegacyUsage {
    LegacyUsage(
      a.pendingSize + b.pendingSize,
      a.failedSize + b.failedSize,
      a.replicatedSize + b.replicatedSize,
      a.pendingCount + b.pendingCount,
      a.failedCount + b.failedCount)
  }

  function PlusBucket(a: BucketUsage, b: BucketUsage): BucketUsage {
    BucketUsage(
      a.size + b.size,
      a.objects + b.objects,
      a.versions + b.versions,
      a.deleteMarkers + b.deleteMarkers,
      a.replicaSize + b.replicaSize,
      a.replicaCount + b.replicaCount,
      Join(a.objectSizes, b.objectSizes, PlusNat),
      Join(a.objectVersions, b.objectVersions, PlusNat),
      Join(a.replication, b.replication, PlusTarget),
      PlusLegacy(a.legacy, b.legacy))
  }

  lemma PlusBucketCommutes()
    ensures Commutes(PlusBucket)
  {
    forall a, b ensures PlusBucket(a, b) == PlusBucket(b, a) {
      JoinCommutes(a.objectSizes, b.objectSizes, PlusNat);
      JoinCommutes(a.objectVersions, b.objectVersions, PlusNat);
      JoinCommutes(a.replication, b.replication, PlusTarget);
    }
  }

  lemma PlusBucketAssociates()
    ensures Associates(PlusBucket)
  {
    forall a, b, c ensures PlusBucket(PlusBucket(a, b), c) == PlusBucket(a, PlusBucket(b, c)) {
      JoinAssociates(a.objectSizes, b.objectSizes, c.objectSizes, PlusNat);
      JoinAssociates(a.objectVersions, b.objectVersions, c.objectVersions, PlusNat);
      JoinAssociates(a.replication, b.replication, c.replication, PlusTarget);
    }
  }

  /** The count under a key, nothing being under an absent one. */
  function At(m: map<string, nat>, k: string): nat {
    if k in m then m[k] else 0
  }

  const NO_TARGET: TargetUsage := TargetUsage(0, 0, 0, 0, 0, 0, 0)

  function TargetAt(m: map<string, TargetUsage>, k: string): TargetUsage {
    OrElse(m, k, NO_TARGET)
  }

  /** Every key of the two, with the sum of its counts. */
  ghost predicate CountsAdded(r: map<string, nat>, a: map<string, nat>, b: map<string, nat>) {
    r.Keys == a.Keys + b.Keys && forall k :: k in r ==> r[k] == At(a, k) + At(b, k)
  }

  /** Every figure of t is the sum of those of a and b. */
  ghost predicate TargetAdded(t: TargetUsage, a: TargetUsage, b: TargetUsage) {
    && t.pendingSize == a.pendingSize + b.pendingSize
    && t.failedSize == a.failedSize + b.failedSize
    && t.replicatedSize == a.replicatedSize + b.replicatedSize
    && t.replicaSize == a.replicaSize + b.replicaSize
    && t.pendingCount == a.pendingCount + b.pendingCount
    && t.failedCount == a.failedCount + b.failedCount
    && t.replicatedCount == a.replicatedCount + b.replicatedCount
  }

  /** Every target of the two, with the sum of its figures. */
  ghost predicate TargetsAdded(r: map<string, TargetUsage>, a: map<string, TargetUsage>, b: map<string, TargetUsage>) {
    r.Keys == a.Keys + b.Keys && forall k :: k in r ==> TargetAdded(r[k], TargetAt(a, k), TargetAt(b, k))
  }

  lemma JoinCounts(a: map<string, nat>, b: map<string, nat>)
    ensures CountsAdded(Join(a, b, PlusNat), a, b)
  {
  }

  lemma JoinTargets(a: map<string, TargetUsage>, b: map<string, TargetUsage>)
    ensures TargetsAdded(Join(a, b, PlusTarget), a, b)
  {
  }

  /** `BucketUsageInfo::merge`: every figure is the sum of the two, the histograms key by key
      and the per-target figures target by target. */
  method MergeBucket(self: BucketUsage, other: BucketUsage) returns (r: BucketUsage)
    ensures r == PlusBucket(self, other)
    ensures r.size == self.size + other.size && r.objects == self.objects + other.objects
    ensures r.versions == self.versions + other.versions && r.deleteMarkers == self.deleteMarkers + other.deleteMarkers
    ensures r.replicaSize == self.replicaSize + other.replicaSize
    ensures r.replicaCount == self.replicaCount + other.replicaCount
    ensures CountsAdded(r.objectSizes, self.objectSizes, other.objectSizes)
    ensures CountsAdded(r.objectVersions, self.objectVersions, other.objectVersions)
    ensures TargetsAdded(r.replication, self.replication, other.replication)
    ensures r.legacy == LegacyUsage(
      self.legacy.pendingSize + other.legacy.pendingSize,
      self.legacy.failedSize + other.legacy.failedSize,
      self.legacy.replicatedSize + other.legacy.replicatedSize,
      self.legacy.pendingCount + other.legacy.pendingCount,
      self.legacy.failedCount + other.legacy.failedCount)
  {
    var objectSizes := AddCounts(self.objectSizes, other.objectSizes);
    var objectVersions := AddCounts(self.objectVersions, other.objectVersions);
    var replication := AddTargets(self.replication, other.replication);
    r := BucketUsage(
      self.size + other.size,
      self.objects + other.objects,
      self.versions + other.versions,
      self.deleteMarkers + other.deleteMarkers,
      self.replicaSize + other.replicaSize,
      self.replicaCount + other.replicaCount,
      objectSizes,
      objectVersions,
      replication,
      PlusLegacy(self.legacy, other.legacy));
  }

  method AddCounts(a: map<string, nat>, b: map<string, nat>) returns (r: map<string, nat>)
    ensures r == Join(a, b, PlusNat) && CountsAdded(r, a, b)
  {
    JoinCounts(a, b);
    r := JoinInto(a, b, PlusNat);
  }

  method AddTargets(a: map<string, TargetUsage>, b: map<string, TargetUsage>) returns (r: map<string, TargetUsage>)
    ensures r == Join(a, b, PlusTarget) && TargetsAdded(r, a, b)
  {
    JoinTargets(a, b);
    r := JoinInto(a, b, PlusTarget);
  }

  /** One number out of a bucket's figures. */
  datatype Slot =
    | SizeOf
    | ObjectsOf
    | VersionsOf
    | DeleteMarkersOf
    | ReplicaSizeOf
    | ReplicaCountOf
    | SizeClass(key: string)
    | VersionsClass(key: string)
    | TargetFigure(target: string, figure: Replicated)
    | LegacyFigure(legacyFigure: Replicated)

  datatype Replicated = PendingSize | FailedSize | ReplicatedSize | ReplicaSize | PendingCount | FailedCount | ReplicatedCount

  function FigureOfTarget(t: TargetUsage, figure: Replicated): nat {
    match figure
    case PendingSize => t.pendingSize
    case FailedSize => t.failedSize
    case ReplicatedSize => t.replicatedSize
    case ReplicaSize => t.replicaSize
    case PendingCount => t.pendingCount
    case FailedCount => t.failedCount
    case ReplicatedCount => t.replicatedCount
  }

  /** The deprecated figures have no replica size and no count of what was replicated. */
  function FigureOfLegacy(l: LegacyUsage, figure: Replicated): nat {
    match figure
    case PendingSize => l.pendingSize
    case FailedSize => l.failedSize
    case ReplicatedSize => l.replicatedSize
    case PendingCount => l.pendingCount
    case FailedCount => l.failedCount
    case _ => 0
  }

  function SlotOf(u: BucketUsage, slot: Slot): nat {
    match slot
    case SizeOf => u.size
    case ObjectsOf => u.objects
    case VersionsOf => u.versions
    case DeleteMarkersOf => u.deleteMarkers
    case ReplicaSizeOf => u.replicaSize
    case ReplicaCountOf => u.replicaCount
    case SizeClass(key) => At(u.objectSizes, key)
    case VersionsClass(key) => At(u.objectVersions, key)
    case TargetFigure(target, figure) => FigureOfTarget(TargetAt(u.replication, target), figure)
    case LegacyFigure(figure) => FigureOfLegacy(u.legacy, figure)
  }

  /** Adding two buckets adds every single number. */
  lemma PlusBucketSlot(a: BucketUsage, b: BucketUsage, slot: Slot)
    ensures SlotOf(PlusBucket(a, b), slot) == SlotOf(a, slot) + SlotOf(b, slot)
  {
    match slot
    case SizeClass(key) => CountAt(a.objectSizes, b.objectSizes, key);
    case VersionsClass(key) => CountAt(a.objectVersions, b.objectVersions, key);
    case TargetFigure(target, figure) => TargetFigureAt(a.replication, b.replication, target, figure);
    case LegacyFigure(figure) => LegacyFigureAt(a.legacy, b.legacy, figure);
    case _ =>
  }

  lemma CountAt(a: map<string, nat>, b: map<string, nat>, k: string)
    ensures At(Join(a, b, PlusNat), k) == At(a, k) + At(b, k)
  {
  }

  lemma TargetFigureAt(a: map<string, TargetUsage>, b: map<string, TargetUsage>, k: string, figure: Replicated)
    ensures FigureOfTarget(TargetAt(Join(a, b, PlusTarget), k), figure)
         == FigureOfTarget(TargetAt(a, k), figure) + FigureOfTarget(TargetAt(b, k), figure)
  {
    TargetSumAt(a, b, k);
    FigureOfSum(TargetAt(a, k), TargetAt(b, k), figure);
  }

  lemma TargetSumAt(a: map<string, TargetUsage>, b: map<string, TargetUsage>, k: string)
    ensures TargetAt(Join(a, b, PlusTarget), k) == PlusTarget(TargetAt(a, k), TargetAt(b, k))
  {
    forall t ensures PlusTarget(t, NO_TARGET) == t == PlusTarget(NO_TARGET, t) {
      PlusNone(t);
    }
    JoinAt(a, b, PlusTarget, NO_TARGET, k);
  }

  function OrElse<V>(m: map<string, V>, k: string, none: V): V {
    if k in m then m[k] else none
  }

  /** With a neutral value for absent keys, joining adds under every key. */
  lemma JoinAt<V(!new)>(m: map<string, V>, n: map<string, V>, plus: (V, V) -> V, none: V, k: string)
    requires forall v :: plus(v, none) == v == plus(none, v)
    ensures OrElse(Join(m, n, plus), k, none) == plus(OrElse(m, k, none), OrElse(n, k, none))
  {
  }

  lemma PlusNone(t: TargetUsage)
    ensures PlusTarget(t, NO_TARGET) == t == PlusTarget(NO_TARGET, t)
  {
  }

  lemma FigureOfSum(a: TargetUsage, b: TargetUsage, figure: Replicated)
    ensures FigureOfTarget(PlusTarget(a, b), figure) == FigureOfTarget(a, figure) + FigureOfTarget(b, figure)
  {
  }

  lemma LegacyFigureAt(a: LegacyUsage, b: LegacyUsage, figure: Replicated)
    ensures FigureOfLegacy(PlusLegacy(a, b), figure) == FigureOfLegacy(a, figure) + FigureOfLegacy(b, figure)
  {
  }

  // ---------------------------------------------------------------- totals over buckets

  type Buckets = map<string, BucketUsage>

  /** The four figures kept as totals. */
  datatype Total = TotalObjects | TotalVersions | TotalDeleteMarkers | TotalSize

  function Figure(u: BucketUsage, t: Total): nat {
    match t
    case TotalObjects => u.objects
    case TotalVersions => u.versions
    case TotalDeleteMarkers => u.deleteMarkers
    case TotalSize => u.size
  }

  ghost function SumOf(m: Buckets, S: set<string>, t: Total): nat
    requires S <= m.Keys
  {
    if S == {} then 0 else var b :| b in S; Figure(m[b], t) + SumOf(m, S - {b}, t)
  }

  ghost function SumAll(m: Buckets, t: Total): nat {
    SumOf(m, m.Keys, t)
  }

  lemma {:induction false} SumOfPick(m: Buckets, S: set<string>, b: string, t: Total)
    requires S <= m.Keys && b in S
    ensures SumOf(m, S, t) == Figure(m[b], t) + SumOf(m, S - {b}, t)
    decreases |S|
  {
    var a :| a in S && SumOf(m, S, t) == Figure(m[a], t) + SumOf(m, S - {a}, t);
    if a != b {
      SumOfPick(m, S - {a}, b, t);
      SumOfPick(m, S - {b}, a, t);
      assert S - {a} - {b} == S - {b} - {a};
    }
  }

  lemma {:induction false} SumOfJoin(m: Buckets, n: Buckets, S: set<string>, t: Total)
    requires S <= m.Keys + n.Keys
    ensures SumOf(Join(m, n, PlusBucket), S, t) == SumOf(m, S * m.Keys, t) + SumOf(n, S * n.Keys, t)
    decreases |S|
  {
    if S == {} {
      assert S * m.Keys == {} && S * n.Keys == {};
    } else {
      var b :| b in S;
      SumOfJoin(m, n, S - {b}, t);
      SumOfPick(Join(m, n, PlusBucket), S, b, t);
      SumOfMeet(m, S, b, t);
      SumOfMeet(n, S, b, t);
    }
  }

  lemma SumOfMeet(m: Buckets, S: set<string>, b: string, t: Total)
    requires b in S
    ensures SumOf(m, S * m.Keys, t)
         == (if b in m then Figure(m[b], t) else 0) + SumOf(m, (S - {b}) * m.Keys, t)
  {
    if b in m {
      SumOfPick(m, S * m.Keys, b, t);
      assert S * m.Keys - {b} == (S - {b}) * m.Keys;
    } else {
      assert S * m.Keys == (S - {b}) * m.Keys;
    }
  }

  /** Joining two bucket maps adds their totals. */
  lemma SumAllJoin(m: Buckets, n: Buckets, t: Total)
    ensures SumAll(Join(m, n, PlusBucket), t) == SumAll(m, t) + SumAll(n, t)
  {
    var j := Join(m, n, PlusBucket);
    assert j.Keys == m.Keys + n.Keys;
    SumOfJoin(m, n, j.Keys, t);
    assert j.Keys * m.Keys == m.Keys && j.Keys * n.Keys == n.Keys;
  }

  // ---------------------------------------------------------------- merging usage infos

  datatype Totals = Totals(objects: nat, versions: nat, deleteMarkers: nat, size: nat)

  const EMPTY_TOTALS: Totals := Totals(0, 0, 0, 0)

  function TotalOf(s: Totals, t: Total): nat {
    match t
    case TotalObjects => s.objects
    case TotalVersions => s.versions
    case TotalDeleteMarkers => s.deleteMarkers
    case TotalSize => s.size
  }

  ghost function TotalsOf(m: Buckets): Totals {
    Totals(SumAll(m, TotalObjects), SumAll(m, TotalVersions), SumAll(m, TotalDeleteMarkers), SumAll(m, TotalSize))
  }

  function AddFigures(s: Totals, u: BucketUsage): Totals {
    Totals(s.objects + u.objects, s.versions + u.versions, s.deleteMarkers + u.deleteMarkers, s.size + u.size)
  }

  /** The fields of a usage info that merging touches, as a value. */
  datatype Info<T> = Info(
    buckets: Buckets,
    totals: Totals,
    count: nat,
    lastUpdate: Option<nat>,
    disks: seq<T>)

  ghost function MergedInfo<T>(s: Info<T>, o: Info<T>): Info<T> {
    var m := Join(s.buckets, o.buckets, PlusBucket);
    Info(m, TotalsOf(m), |m|, Later(s.lastUpdate, o.lastUpdate), s.disks + o.disks)
  }

  class DataUsageInfo<T(==)> {
    var buckets: Buckets
    var totals: Totals
    var count: nat
    var lastUpdate: Option<nat>
    var disks: seq<T>

    constructor ()
      ensures buckets == map[] && totals == EMPTY_TOTALS && count == 0 && lastUpdate == None && disks == []
    {
      buckets, totals, count, lastUpdate, disks := map[], EMPTY_TOTALS, 0, None, [];
    }

    ghost function Value(): Info<T>
      reads this
    {
      Info(buckets, totals, count, lastUpdate, disks)
    }

    /** Recomputes the totals from the buckets, in whatever order these are visited. */
    method CalculateTotals()
      modifies this`totals
      ensures totals == TotalsOf(buckets)
    {
      totals := EMPTY_TOTALS;
      var todo := buckets.Keys;
      while todo != {}
        invariant todo <= buckets.Keys
        invariant forall t :: TotalOf(totals, t) + SumOf(buckets, todo, t) == SumAll(buckets, t)
      {
        var b :| b in todo;
        forall t
          ensures SumOf(buckets, todo, t) == Figure(buckets[b], t) + SumOf(buckets, todo - {b}, t)
        {
          SumOfPick(buckets, todo, b, t);
        }
        totals := AddFigures(totals, buckets[b]);
        todo := todo - {b};
      }
      assert forall t :: TotalOf(totals, t) == SumAll(buckets, t);
      assert TotalOf(totals, TotalObjects) == totals.objects && TotalOf(totals, TotalVersions) == totals.versions;
      assert TotalOf(totals, TotalDeleteMarkers) == totals.deleteMarkers && TotalOf(totals, TotalSize) == totals.size;
    }

    /** The bucket loop of `merge`. */
    method MergeBuckets(theirs: Buckets)
      modifies this`buckets
      ensures buckets == Join(old(buckets), theirs, PlusBucket)
    {
      var todo := theirs.Keys;
      while todo != {}
        invariant todo <= theirs.Keys
        invariant buckets == Join(old(buckets), theirs - todo, PlusBucket)
      {
        var b :| b in todo;
        JoinOneMore(old(buckets), theirs, todo, b, PlusBucket);
        if b in buckets {
          var merged := MergeBucket(buckets[b], theirs[b]);
          buckets := buckets[b := merged];
        } else {
          buckets := buckets[b := theirs[b]];
        }
        todo := todo - {b};
      }
      assert theirs - {} == theirs;
    }

    /** Merges the other info's buckets, statuses and time, and recomputes the totals. */
    method Merge(other: DataUsageInfo<T>)
      requires other != this
      modifies this
      ensures Value() == MergedInfo(old(Value()), other.Value())
      ensures buckets.Keys == old(buckets).Keys + other.buckets.Keys && count == |buckets|
      ensures forall b, slot ::
                SlotIn(buckets, b, slot) == SlotIn(old(buckets), b, slot) + SlotIn(other.buckets, b, slot)
      ensures disks == old(disks) + other.disks
      ensures lastUpdate == if other.lastUpdate.Some?
                               && (old(lastUpdate).None? || other.lastUpdate.value > old(lastUpdate).value)
                            then other.lastUpdate else old(lastUpdate)
    {
      JoinSlots(buckets, other.buckets);
      MergeBuckets(other.buckets);
      disks := disks + other.disks;
      CalculateTotals();
      count := |buckets|;
      if other.lastUpdate.Some? && (lastUpdate.None? || other.lastUpdate.value > lastUpdate.value) {
        lastUpdate := other.lastUpdate;
      }
    }
  }

  /** Equal but for the order of the disk statuses. */
  ghost predicate SameFigures<T>(a: Info<T>, b: Info<T>) {
    && a.buckets == b.buckets && a.totals == b.totals && a.count == b.count
    && a.lastUpdate == b.lastUpdate && multiset(a.disks) == multiset(b.disks)
  }

  lemma BucketsSwap(s: Buckets, a: Buckets, b: Buckets)
    ensures Join(Join(s, a, PlusBucket), b, PlusBucket) == Join(Join(s, b, PlusBucket), a, PlusBucket)
  {
    PlusBucketCommutes();
    PlusBucketAssociates();
    JoinAssociates(s, a, b, PlusBucket);
    JoinAssociates(s, b, a, PlusBucket);
    JoinCommutes(a, b, PlusBucket);
  }

  lemma MergeSwap<T>(s: Info<T>, a: Info<T>, b: Info<T>)
    ensures SameFigures(MergedInfo(MergedInfo(s, a), b), MergedInfo(MergedInfo(s, b), a))
  {
    BucketsSwap(s.buckets, a.buckets, b.buckets);
    assert multiset(s.disks + a.disks + b.disks) == multiset(s.disks + b.disks + a.disks);
  }

  lemma MergeRespects<T>(s: Info<T>, r: Info<T>, x: Info<T>)
    requires SameFigures(s, r)
    ensures SameFigures(MergedInfo(s, x), MergedInfo(r, x))
  {
    assert multiset(s.disks + x.disks) == multiset(r.disks + x.disks);
  }

  lemma MergesSwap<T(!new)>()
    ensures Swappable<Info<T>, Info<T>>(MergedInfo, SameFigures)
  {
    forall s: Info<T>, a, b
      ensures SameFigures(MergedInfo(MergedInfo(s, a), b), MergedInfo(MergedInfo(s, b), a))
    {
      MergeSwap(s, a, b);
    }
    forall s: Info<T>, r, x | SameFigures(s, r)
      ensures SameFigures(MergedInfo(s, x), MergedInfo(r, x))
    {
      MergeRespects(s, r, x);
    }
  }

  /** The order in which a list of infos is merged does not matter. */
  lemma MergeOrder<T(!new)>(s: Info<T>, xs: seq<Info<T>>, ys: seq<Info<T>>)
    requires multiset(xs) == multiset(ys)
    ensures SameFigures(Fold(MergedInfo, s, xs), Fold(MergedInfo, s, ys))
  {
    MergesSwap<T>();
    FoldOrder(MergedInfo, SameFigures, s, xs, ys);
  }

  ghost function SumRun<T>(xs: seq<Info<T>>, t: Total): nat {
    if xs == [] then 0 else SumAll(xs[0].buckets, t) + SumRun(xs[1..], t)
  }

  /** After a non-empty run every total is the sum over the merged buckets, which is the sum
      of what went in, and the count is the number of buckets. */
  lemma {:induction false} MergeRunTotals<T>(s: Info<T>, xs: seq<Info<T>>, r: Info<T>, t: Total)
    requires r == Fold(MergedInfo, s, xs)
    ensures SumAll(r.buckets, t) == SumAll(s.buckets, t) + SumRun(xs, t)
    ensures xs != [] ==> r.totals == TotalsOf(r.buckets) && r.count == |r.buckets|
    decreases |xs|
  {
    if xs != [] {
      SumAllJoin(s.buckets, xs[0].buckets, t);
      MergeRunTotals(MergedInfo(s, xs[0]), xs[1..], r, t);
    }
  }

  /** A number of a bucket, absent buckets counting as nothing. */
  function SlotIn(m: Buckets, b: string, slot: Slot): nat {
    if b in m then SlotOf(m[b], slot) else 0
  }

  lemma JoinSlot(m: Buckets, n: Buckets, b: string, slot: Slot)
    ensures SlotIn(Join(m, n, PlusBucket), b, slot) == SlotIn(m, b, slot) + SlotIn(n, b, slot)
  {
    if b in m && b in n {
      PlusBucketSlot(m[b], n[b], slot);
    }
  }

  lemma JoinSlots(m: Buckets, n: Buckets)
    ensures forall b, slot :: SlotIn(Join(m, n, PlusBucket), b, slot) == SlotIn(m, b, slot) + SlotIn(n, b, slot)
  {
    forall b, slot
      ensures SlotIn(Join(m, n, PlusBucket), b, slot) == SlotIn(m, b, slot) + SlotIn(n, b, slot)
    {
      JoinSlot(m, n, b, slot);
    }
  }

  ghost function SlotRun<T>(xs: seq<Info<T>>, b: string, slot: Slot): nat {
    if xs == [] then 0 else SlotIn(xs[0].buckets, b, slot) + SlotRun(xs[1..], b, slot)
  }

  ghost function DisksRun<T>(xs: seq<Info<T>>): seq<T> {
    if xs == [] then [] else xs[0].disks + DisksRun(xs[1..])
  }

  /** After any list of merges every single number of every bucket is the sum of what went in. */
  lemma {:induction false} MergeRunSlots<T>(s: Info<T>, xs: seq<Info<T>>, r: Info<T>, b: string, slot: Slot)
    requires r == Fold(MergedInfo, s, xs)
    ensures SlotIn(r.buckets, b, slot) == SlotIn(s.buckets, b, slot) + SlotRun(xs, b, slot)
    decreases |xs|
  {
    if xs != [] {
      var next := MergedInfo(s, xs[0]);
      JoinSlot(s.buckets, xs[0].buckets, b, slot);
      MergeRunSlots(next, xs[1..], r, b, slot);
    }
  }

  /** After any list of merges no bucket has appeared or is lost, the disk statuses are all there
      in order, and the time is the latest of all. */
  lemma {:induction false} MergeRunRest<T>(s: Info<T>, xs: seq<Info<T>>, r: Info<T>, b: string)
    requires r == Fold(MergedInfo, s, xs)
    ensures b in r.buckets <==> b in s.buckets || exists x :: x in xs && b in x.buckets
    ensures r.disks == s.disks + DisksRun(xs)
    ensures s.lastUpdate.Some? ==> r.lastUpdate.Some? && r.lastUpdate.value >= s.lastUpdate.value
    ensures forall x :: x in xs && x.lastUpdate.Some? ==>
              r.lastUpdate.Some? && r.lastUpdate.value >= x.lastUpdate.value
    ensures r.lastUpdate == s.lastUpdate || exists x :: x in xs && r.lastUpdate == x.lastUpdate
    decreases |xs|
  {
    if xs != [] {
      MergeRunRest(MergedInfo(s, xs[0]), xs[1..], r, b);
      assert forall x :: x in xs <==> x == xs[0] || x in xs[1..];
    }
  }

  /** The totals of a single bucket are its figures. */
  lemma SingleBucketTotals(b: string, u: BucketUsage)
    ensures TotalsOf(map[b := u]) == Totals(u.objects, u.versions, u.deleteMarkers, u.size)
  {
    var m := map[b := u];
    forall t ensures SumAll(m, t) == Figure(u, t) {
      SumOfPick(m, {b}, b, t);
      assert m.Keys == {b} && {b} - {b} == {};
    }
  }

  // ---------------------------------------------------------------- snapshot aggregation

  const MAX_U64: nat := 0xFFFF_FFFF_FFFF_FFFF

  /** `saturating_add` keeps every sum at this cap. */
  function Sat(n: nat): nat {
    if n <= MAX_U64 then n else MAX_U64
  }

  function SatAdd(s: Totals, r: Totals): Totals {
    Totals(Sat(s.objects + r.objects), Sat(s.versions + r.versions), Sat(s.deleteMarkers + r.deleteMarkers), Sat(s.size + r.size))
  }

  /** The exact totals over the buckets, each capped. */
  ghost predicate CappedTotals(s: Totals, m: Buckets) {
    forall t :: TotalOf(s, t) == if SumAll(m, t) <= MAX_U64 then SumAll(m, t) else MAX_U64
  }

  function FiguresOf(u: BucketUsage): Totals {
    Totals(u.objects, u.versions, u.deleteMarkers, u.size)
  }

  lemma SatStep(totals: Totals, u: BucketUsage, rest: nat, t: Total)
    ensures Sat(TotalOf(SatAdd(totals, FiguresOf(u)), t) + rest) == Sat(TotalOf(totals, t) + Figure(u, t) + rest)
    ensures TotalOf(SatAdd(totals, FiguresOf(u)), t) <= MAX_U64
  {
  }

  /** `LocalUsageSnapshot::recompute_totals`. */
  method RecomputeTotals(buckets: Buckets) returns (totals: Totals)
    ensures CappedTotals(totals, buckets)
  {
    totals := EMPTY_TOTALS;
    var todo := buckets.Keys;
    while todo != {}
      invariant todo <= buckets.Keys
      invariant forall t :: Sat(TotalOf(totals, t) + SumOf(buckets, todo, t)) == Sat(SumAll(buckets, t))
      invariant forall t :: TotalOf(totals, t) <= MAX_U64
    {
      var b :| b in todo;
      var next := SatAdd(totals, FiguresOf(buckets[b]));
      forall t
        ensures Sat(TotalOf(next, t) + SumOf(buckets, todo - {b}, t)) == Sat(SumAll(buckets, t))
        ensures TotalOf(next, t) <= MAX_U64
      {
        SumOfPick(buckets, todo, b, t);
        SatStep(totals, buckets[b], SumOf(buckets, todo - {b}, t), t);
      }
      totals, todo := next, todo - {b};
    }
  }

  /** A per-disk snapshot; its stored totals are recomputed before use. */
  datatype Snapshot = Snapshot(buckets: Buckets, lastUpdate: Option<nat>)

  /** Every recorded bucket size is that bucket's size, capped. */
  ghost predicate SizesMatch(sizes: map<string, nat>, buckets: Buckets) {
    && sizes.Keys == buckets.Keys
    && forall b :: b in buckets ==> sizes[b] == if buckets[b].size <= MAX_U64 then buckets[b].size else MAX_U64
  }

  /** Bucket sizes are 64-bit numbers. */
  ghost predicate SizesFit(buckets: Buckets) {
    forall b :: b in buckets ==> buckets[b].size <= MAX_U64
  }

  class Aggregate {
    var buckets: Buckets
    var totals: Totals
    var sizes: map<string, nat>
    var latest: Option<nat>

    ghost predicate Valid()
      reads this
    {
      SizesMatch(sizes, buckets) && CappedTotals(totals, buckets)
    }

    constructor ()
      ensures Valid() && buckets == map[] && latest == None
    {
      buckets, totals, sizes, latest := map[], EMPTY_TOTALS, map[], None;
    }

    /** The bucket loop of `merge_snapshot`. */
    method AddBuckets(theirs: Buckets)
      requires SizesMatch(sizes, buckets) && SizesFit(theirs)
      modifies this`buckets, this`sizes
      ensures buckets == Join(old(buckets), theirs, PlusBucket)
      ensures SizesMatch(sizes, buckets)
    {
      var todo := theirs.Keys;
      while todo != {}
        invariant todo <= theirs.Keys
        invariant buckets == Join(old(buckets), theirs - todo, PlusBucket)
        invariant SizesMatch(sizes, buckets)
      {
        var b :| b in todo;
        JoinOneMore(old(buckets), theirs, todo, b, PlusBucket);
        AddBucket(b, theirs[b]);
        todo := todo - {b};
      }
      assert theirs - {} == theirs;
    }

    method AddBucket(b: string, usage: BucketUsage)
      requires SizesMatch(sizes, buckets) && usage.size <= MAX_U64
      modifies this`buckets, this`sizes
      ensures buckets == old(buckets)[b := if b in old(buckets) then PlusBucket(old(buckets)[b], usage) else usage]
      ensures SizesMatch(sizes, buckets)
    {
      if b in buckets {
        var merged := MergeBucket(buckets[b], usage);
        buckets := buckets[b := merged];
        sizes := sizes[b := Sat(sizes[b] + usage.size)];
      } else {
        buckets := buckets[b := usage];
        sizes := sizes[b := usage.size];
      }
    }

    /** Adds one disk's snapshot. */
    method MergeSnapshot(snapshot: Snapshot)
      requires Valid() && SizesFit(snapshot.buckets)
      modifies this
      ensures Valid() && buckets == Join(old(buckets), snapshot.buckets, PlusBucket)
      ensures buckets.Keys == old(buckets).Keys + snapshot.buckets.Keys
      ensures forall b, slot ::
                SlotIn(buckets, b, slot) == SlotIn(old(buckets), b, slot) + SlotIn(snapshot.buckets, b, slot)
      ensures latest == Later(old(latest), snapshot.lastUpdate)
    {
      if snapshot.lastUpdate.Some? && (latest.None? || snapshot.lastUpdate.value > latest.value) {
        latest := snapshot.lastUpdate;
      }
      JoinSlots(buckets, snapshot.buckets);
      var recomputed := RecomputeTotals(snapshot.buckets);
      totals := SatAdd(totals, recomputed);
      CappedSums(old(totals), old(buckets), recomputed, snapshot.buckets);
      AddBuckets(snapshot.buckets);
    }
  }

  lemma CappedSums(s: Totals, m: Buckets, r: Totals, n: Buckets)
    requires CappedTotals(s, m) && CappedTotals(r, n)
    ensures CappedTotals(SatAdd(s, r), Join(m, n, PlusBucket))
  {
    forall t ensures TotalOf(SatAdd(s, r), t) == Sat(SumAll(Join(m, n, PlusBucket), t)) {
      SumAllJoin(m, n, t);
      SatOfSums(s, r, t, SumAll(m, t), SumAll(n, t));
    }
  }

  lemma SatOfSums(s: Totals, r: Totals, t: Total, a: nat, b: nat)
    requires TotalOf(s, t) == Sat(a) && TotalOf(r, t) == Sat(b)
    ensures TotalOf(SatAdd(s, r), t) == Sat(a + b)
  {
  }
}
