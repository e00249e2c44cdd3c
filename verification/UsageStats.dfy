/** The figures a data-usage entry carries, and the per-counter view used by the proofs.

    Counters are unbounded naturals here: the properties are about sums, and the source's
    machine integers are assumed not to overflow. */
module UsageStats {

  const SIZE_BUCKETS: nat := 11     // DATA_USAGE_BUCKET_LEN
  const VERSION_BUCKETS: nat := 7   // DATA_USAGE_VERSION_LEN

  type SizeHistogram = h: seq<nat> | |h| == SIZE_BUCKETS witness seq(SIZE_BUCKETS, _ => 0)
  type VersionsHistogram = h: seq<nat> | |h| == VERSION_BUCKETS witness seq(VERSION_BUCKETS, _ => 0)

  datatype Stats = Stats(
    objects: nat,
    versions: nat,
    deleteMarkers: nat,
    size: nat,
    objSizes: SizeHistogram,
    objVersions: VersionsHistogram)

  const NO_STATS: Stats :=
    Stats(0, 0, 0, 0, [0, 0, 0, 0, 0, 0, 0, 0, 0, 0, 0], [0, 0, 0, 0, 0, 0, 0])

  /** One number out of the figures: a plain counter or one histogram slot. */
  datatype Counter =
    | Objects
    | Versions
    | DeleteMarkers
    | Size
    | SizeSlot(i: nat)
    | VersionSlot(i: nat)

  function Count(s: Stats, f: Counter): (n: nat) {
    match f
    case Objects => s.objects
    case Versions => s.versions
    case DeleteMarkers => s.deleteMarkers
    case Size => s.size
    case SizeSlot(i) => if i < SIZE_BUCKETS then s.objSizes[i] else 0
    case VersionSlot(i) => if i < VERSION_BUCKETS then s.objVersions[i] else 0
  }

  /** The counters together determine the figures. */
  lemma CountersDetermineStats(a: Stats, b: Stats)
    requires forall f :: Count(a, f) == Count(b, f)
    ensures a == b
  {
    assert Count(a, Objects) == Count(b, Objects);
    assert Count(a, Versions) == Count(b, Versions);
    assert Count(a, DeleteMarkers) == Count(b, DeleteMarkers);
    assert Count(a, Size) == Count(b, Size);
    forall i | 0 <= i < SIZE_BUCKETS
      ensures a.objSizes[i] == b.objSizes[i]
    {
      assert Count(a, SizeSlot(i)) == Count(b, SizeSlot(i));
    }
    forall i | 0 <= i < VERSION_BUCKETS
      ensures a.objVersions[i] == b.objVersions[i]
    {
      assert Count(a, VersionSlot(i)) == Count(b, VersionSlot(i));
    }
    assert a.objSizes == b.objSizes && a.objVersions == b.objVersions;
  }

  /** The numeric part of `DataUsageEntry::merge`: every counter of the result is the sum of
      the two, the histograms being added slot by slot. */
  method MergeStats(self: Stats, other: Stats) returns (r: Stats)
    ensures forall f :: Count(r, f) == Count(self, f) + Count(other, f)
  {
    var objSizes: seq<nat> := self.objSizes;
    for i := 0 to |other.objSizes|
      invariant |objSizes| == SIZE_BUCKETS
      invariant forall j :: 0 <= j < SIZE_BUCKETS ==>
                  objSizes[j] == self.objSizes[j] + if j < i then other.objSizes[j] else 0
    {
      objSizes := objSizes[i := objSizes[i] + other.objSizes[i]];
    }
    var objVersions: seq<nat> := self.objVersions;
    for i := 0 to |other.objVersions|
      invariant |objVersions| == VERSION_BUCKETS
      invariant forall j :: 0 <= j < VERSION_BUCKETS ==>
                  objVersions[j] == self.objVersions[j] + if j < i then other.objVersions[j] else 0
    {
      objVersions := objVersions[i := objVersions[i] + other.objVersions[i]];
    }
    r := Stats(
      self.objects + other.objects,
      self.versions + other.versions,
      self.deleteMarkers + other.deleteMarkers,
      self.size + other.size,
      objSizes,
      objVersions);
  }
}
