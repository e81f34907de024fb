// A cluster chain restated as device extents, by following the table or by
// assuming the file's clusters lie one after another.
module ChainLayouts {
  import opened Bytes
  import opened Outcomes
  import opened Regions
  import opened ClusterChains
  import opened ExtentSpans

  // Where a cluster begins, in the code's 64-bit arithmetic.
  function ClusterOffset(g: Geometry, cluster: Cluster): u64 {
    (g.dataOffsetBytes + (cluster - FIRST_CLUSTER) * g.bytesPerCluster) % U64_LIMIT
  }

  predicate InVolume(g: Geometry, cluster: Cluster) {
    FIRST_CLUSTER <= cluster < FIRST_CLUSTER + g.totalClusters
  }

  lemma Unfolds(a: nat, unit: nat)
    ensures (a + 1) * unit == a * unit + unit
  {
  }

  // A data cluster lies where the geometry says, whole.
  lemma ClusterIsAddressed(g: Geometry, cluster: Cluster)
    requires Fits(g) && InVolume(g, cluster)
    ensures ClusterOffset(g, cluster) == g.dataOffsetBytes + (cluster - FIRST_CLUSTER) * g.bytesPerCluster
    ensures ClusterOffset(g, cluster) + g.bytesPerCluster < U64_LIMIT
  {
    ProductGrows(cluster - FIRST_CLUSTER + 1, g.totalClusters, g.bytesPerCluster);
    Unfolds(cluster - FIRST_CLUSTER, g.bytesPerCluster);
  }

  lemma NextClusterFollows(g: Geometry, cluster: Cluster, next: Cluster)
    requires Fits(g) && InVolume(g, cluster) && InVolume(g, next) && next == cluster + 1
    ensures ClusterOffset(g, next) == ClusterOffset(g, cluster) + g.bytesPerCluster
  {
    ClusterIsAddressed(g, cluster);
    ClusterIsAddressed(g, next);
    Unfolds(cluster - FIRST_CLUSTER, g.bytesPerCluster);
  }

  function ClusterExtent(g: Geometry, cluster: Cluster): Extent {
    Extent(ClusterOffset(g, cluster), g.bytesPerCluster)
  }

  // ---- As it runs ----

  function AppendedAll(clusters: seq<Cluster>, g: Geometry): seq<Extent> {
    if clusters == [] then []
    else Appended(AppendedAll(clusters[..|clusters| - 1], g), ClusterExtent(g, clusters[|clusters| - 1]))
  }

  function Chained(clusters: seq<Cluster>, g: Geometry, sizeBytes: u64): Result<seq<Extent>> {
    if clusters == [] || sizeBytes == 0 then Ok([]) else Trimmed(AppendedAll(clusters, g), sizeBytes)
  }

  method ChainExtents(clusters: seq<Cluster>, g: Geometry, sizeBytes: u64) returns (extents: Result<seq<Extent>>)
    ensures extents == Chained(clusters, g, sizeBytes)
  {
    if clusters == [] || sizeBytes == 0 {
      return Ok([]);
    }
    var appended := [];
    for i := 0 to |clusters|
      invariant appended == AppendedAll(clusters[..i], g)
    {
      assert clusters[..i + 1][..i] == clusters[..i];
      appended := AppendExtent(appended, ClusterExtent(g, clusters[i]));
    }
    assert clusters[..|clusters|] == clusters;
    extents := TrimToSize(appended, sizeBytes);
  }

  function Following(t: Table, first: Cluster, sizeBytes: u64): seq<Extent>
    requires t.Valid()
  {
    match t.Outcome(first)
    case Chain(clusters) =>
      var extents := Chained(clusters, t.geometry, sizeBytes);
      if extents.Ok? then extents.value else []
    case _ => []
  }

  method ExtentsFollowingChain(t: Table, first: Cluster, sizeBytes: u64) returns (extents: seq<Extent>)
    requires t.Valid()
    ensures extents == Following(t, first, sizeBytes)
  {
    var clusters := t.ChainFrom(first);
    if !clusters.Chain? {
      return [];
    }
    var chained := ChainExtents(clusters.clusters, t.geometry, sizeBytes);
    extents := if chained.Ok? then chained.value else [];
  }

  function ClustersFor(g: Geometry, sizeBytes: u64): nat
    requires Fits(g) && sizeBytes > 0
  {
    (sizeBytes - 1) / g.bytesPerCluster + 1
  }

  function AssumingContiguous(g: Geometry, first: Cluster, sizeBytes: u64): seq<Extent>
    requires Fits(g)
  {
    if sizeBytes == 0 then []
    else if first + ClustersFor(g, sizeBytes) > FIRST_CLUSTER + g.totalClusters then []
    else [Extent(ClusterOffset(g, first), sizeBytes)]
  }

  // ---- The addresses of a chain ----

  // The device addresses of the clusters' bytes, in chain order.
  function ClusterAddresses(g: Geometry, clusters: seq<Cluster>): seq<nat> {
    if clusters == [] then []
    else
      var last := |clusters| - 1;
      ClusterAddresses(g, clusters[..last]) + Run(ClusterOffset(g, clusters[last]), g.bytesPerCluster)
  }

  lemma {:induction false} AddressesOfClusters(g: Geometry, clusters: seq<Cluster>)
    ensures |ClusterAddresses(g, clusters)| == |clusters| * g.bytesPerCluster
  {
    hide ClusterOffset;
    if clusters == [] {
    } else {
      AddressesOfClusters(g, clusters[..|clusters| - 1]);
      Unfolds(|clusters| - 1, g.bytesPerCluster);
    }
  }

  // Byte `r` of the chain's cluster `k` is where the geometry puts it: clusters
  // are counted from 2.
  lemma {:induction false} ClusterBytes(g: Geometry, clusters: seq<Cluster>, k: nat, r: nat)
    requires Fits(g) && (forall i :: 0 <= i < |clusters| ==> 2 <= clusters[i] < 2 + g.totalClusters)
    requires k < |clusters| && r < g.bytesPerCluster
    ensures k * g.bytesPerCluster + r < |ClusterAddresses(g, clusters)|
    ensures ClusterAddresses(g, clusters)[k * g.bytesPerCluster + r]
            == g.dataOffsetBytes + (clusters[k] - 2) * g.bytesPerCluster + r
    decreases |clusters|
  {
    var last := |clusters| - 1;
    ClusterIsAddressed(g, clusters[last]);
    AddressesOfClusters(g, clusters[..last]);
    hide ClusterOffset;
    if k < last {
      ClusterBytes(g, clusters[..last], k, r);
    }
  }

  predicate AllInVolume(g: Geometry, clusters: seq<Cluster>) {
    forall i :: 0 <= i < |clusters| ==> InVolume(g, clusters[i])
  }

  lemma {:induction false} AppendedAllKeepsAddresses(clusters: seq<Cluster>, g: Geometry)
    requires Fits(g) && AllInVolume(g, clusters)
    ensures Addresses(AppendedAll(clusters, g)) == ClusterAddresses(g, clusters)
    ensures Coalesced(AppendedAll(clusters, g)) && Addressed(AppendedAll(clusters, g))
    ensures |ClusterAddresses(g, clusters)| == |clusters| * g.bytesPerCluster
  {
    hide Coalesced, Addressed, Appended, Addresses, Run, ClusterOffset;
    if clusters == [] {
      EmptyLayout();
    } else {
      var last := |clusters| - 1;
      var front := clusters[..last];
      AppendedAllKeepsAddresses(front, g);
      ClusterIsAddressed(g, clusters[last]);
      AppendingKeepsAddresses(AppendedAll(front, g), ClusterExtent(g, clusters[last]));
      AppendingKeepsShape(AppendedAll(front, g), ClusterExtent(g, clusters[last]));
      Unfolds(last, g.bytesPerCluster);
    }
  }

  lemma EmptyLayout()
    ensures Addresses([]) == [] && Coalesced([]) && Addressed([])
  {
  }

  lemma CoalescedHasNoEmpty(extents: seq<Extent>, sizeBytes: u64)
    requires Coalesced(extents)
    ensures NoneEmptyBefore(extents, sizeBytes)
  {
  }

  // A nonempty chain's extents are the first `sizeBytes` addresses of its
  // clusters in order, at their coarsest, and are refused exactly when the
  // clusters hold fewer.
  lemma ChainExtentsAreTheClusters(clusters: seq<Cluster>, g: Geometry, sizeBytes: u64)
    requires Fits(g) && AllInVolume(g, clusters) && clusters != []
    ensures |ClusterAddresses(g, clusters)| == |clusters| * g.bytesPerCluster
    ensures var extents := Chained(clusters, g, sizeBytes);
            if sizeBytes > |clusters| * g.bytesPerCluster then extents == Err(InvalidArgument, sizeBytes)
            else && extents.Ok? && Coalesced(extents.value) && Addressed(extents.value)
                 && Addresses(extents.value) == ClusterAddresses(g, clusters)[..sizeBytes]
  {
    hide Coalesced, Addressed, AppendedAll, NoneEmptyBefore, Addresses, ClusterAddresses, Trimmed;
    AppendedAllKeepsAddresses(clusters, g);
    EmptyLayout();
    if sizeBytes > 0 {
      var appended := AppendedAll(clusters, g);
      AddressCount(appended);
      CoalescedHasNoEmpty(appended, sizeBytes);
      TrimmingIsExact(appended, sizeBytes);
      if Trimmed(appended, sizeBytes).Ok? {
        TrimmingKeepsShape(appended, sizeBytes);
      }
    }
  }

  // ---- Following and assuming ----

  predicate Consecutive(first: Cluster, clusters: seq<Cluster>) {
    forall i :: 0 <= i < |clusters| ==> clusters[i] == first + i
  }

  lemma {:induction false} ConsecutiveOffsets(g: Geometry, first: Cluster, clusters: seq<Cluster>, k: nat)
    requires Fits(g) && AllInVolume(g, clusters) && Consecutive(first, clusters) && k < |clusters|
    ensures ClusterOffset(g, clusters[k]) == ClusterOffset(g, first) + k * g.bytesPerCluster
  {
    hide ClusterOffset;
    assert clusters[0] == first + 0 && clusters[k] == first + k;
    if k == 0 {
    } else {
      ConsecutiveOffsets(g, first, clusters, k - 1);
      NextClusterFollows(g, clusters[k - 1], clusters[k]);
      Unfolds(k - 1, g.bytesPerCluster);
    }
  }

  // A run that starts where the one extent so far ends only lengthens it.
  lemma OneExtentGrows(extent: Extent, run: Extent)
    requires extent.deviceOffset + extent.lengthBytes == run.deviceOffset
    requires extent.lengthBytes + run.lengthBytes < U64_LIMIT
    ensures Appended([extent], run) == [Extent(extent.deviceOffset, extent.lengthBytes + run.lengthBytes)]
  {
  }

  lemma {:induction false} ConsecutiveIsOneExtent(g: Geometry, first: Cluster, clusters: seq<Cluster>, k: nat)
    requires Fits(g) && AllInVolume(g, clusters) && Consecutive(first, clusters) && 0 < k <= |clusters|
    ensures k * g.bytesPerCluster < U64_LIMIT
    ensures AppendedAll(clusters[..k], g) == [Extent(ClusterOffset(g, first), k * g.bytesPerCluster)]
  {
    hide ClusterOffset, Appended;
    assert clusters[..k][..k - 1] == clusters[..k - 1];
    assert AppendedAll(clusters[..k], g) == Appended(AppendedAll(clusters[..k - 1], g), ClusterExtent(g, clusters[k - 1]));
    ConsecutiveOffsets(g, first, clusters, k - 1);
    ClusterIsAddressed(g, clusters[k - 1]);
    Unfolds(k - 1, g.bytesPerCluster);
    ClusterIsAddressed(g, first) by { assert clusters[0] == first; }
    if k > 1 {
      ConsecutiveIsOneExtent(g, first, clusters, k - 1);
      OneExtentGrows(Extent(ClusterOffset(g, first), (k - 1) * g.bytesPerCluster), ClusterExtent(g, clusters[k - 1]));
    } else {
      assert AppendedAll(clusters[..0], g) == [];
      FirstAppended(ClusterExtent(g, clusters[0]));
    }
  }

  lemma FirstAppended(run: Extent)
    ensures Appended([], run) == [run]
  {
  }

  lemma OneExtentTrimmed(extent: Extent, sizeBytes: u64)
    requires sizeBytes > 0 && extent.lengthBytes > 0
    ensures Trimmed([extent], sizeBytes)
            == if sizeBytes <= extent.lengthBytes then Ok([Extent(extent.deviceOffset, sizeBytes)])
               else Err(InvalidArgument, sizeBytes)
  {
    assert [extent][..0] == [];
    assert TakenAll([extent][..0], sizeBytes) == ([], sizeBytes);
    assert TakenAll([extent], sizeBytes) == Taken([], extent, sizeBytes);
    var take: u64 := if extent.lengthBytes < sizeBytes then extent.lengthBytes else sizeBytes;
    assert [] + [Extent(extent.deviceOffset, take)] == [Extent(extent.deviceOffset, take)];
  }

  lemma EnoughClusters(size: nat, unit: nat, clusters: nat)
    requires size > 0 && unit > 0
    ensures (size - 1) / unit + 1 <= clusters <==> size <= clusters * unit
  {
    var q := (size - 1) / unit;
    assert q * unit <= size - 1 < (q + 1) * unit by { Unfolds(q, unit); }
    if q + 1 <= clusters {
      ProductGrows(q + 1, clusters, unit);
    } else {
      ProductGrows(clusters, q, unit);
    }
  }

  // Following a chain of consecutive clusters and assuming the file contiguous
  // come to the same extents, except for a size the chain does not hold but the
  // volume could.
  lemma ConsecutiveChainIsContiguous(t: Table, first: Cluster, clusters: seq<Cluster>, sizeBytes: u64)
    requires t.Valid() && IsChain(t, first, clusters) && clusters != [] && Consecutive(first, clusters)
    ensures Following(t, first, sizeBytes) == AssumingContiguous(t.geometry, first, sizeBytes) <==>
              || sizeBytes <= |clusters| * t.geometry.bytesPerCluster
              || sizeBytes > (2 + t.geometry.totalClusters - first) * t.geometry.bytesPerCluster
  {
    var g, n := t.geometry, |clusters|;
    hide t.Outcome, IsChain, ClusterOffset, AppendedAll, Trimmed, t.EntryAt;
    FollowingIsExact(t, first, clusters);
    ChainIsInVolume(t, first, clusters);
    assert clusters[n - 1] == first + (n - 1);
    ProductGrows(1, n, g.bytesPerCluster);
    if sizeBytes > 0 {
      assert clusters[..n] == clusters;
      ConsecutiveIsOneExtent(g, first, clusters, n);
      OneExtentTrimmed(Extent(ClusterOffset(g, first), n * g.bytesPerCluster), sizeBytes);
      EnoughClusters(sizeBytes, g.bytesPerCluster, n);
      EnoughClusters(sizeBytes, g.bytesPerCluster, 2 + g.totalClusters - first);
    }
  }

  lemma ChainIsInVolume(t: Table, first: Cluster, clusters: seq<Cluster>)
    requires t.Valid() && IsChain(t, first, clusters)
    ensures AllInVolume(t.geometry, clusters)
  {
    hide t.EntryAt;
  }

  // A followed chain's extents, whenever it can be followed and holds the size:
  // the file's bytes in chain order. Otherwise, and for an empty file, none.
  lemma FollowingReadsTheChain(t: Table, first: Cluster, clusters: seq<Cluster>, sizeBytes: u64)
    requires t.Valid() && IsChain(t, first, clusters) && clusters != []
    ensures |ClusterAddresses(t.geometry, clusters)| == |clusters| * t.geometry.bytesPerCluster
    ensures Addresses(Following(t, first, sizeBytes))
            == if sizeBytes <= |clusters| * t.geometry.bytesPerCluster
               then ClusterAddresses(t.geometry, clusters)[..sizeBytes]
               else []
  {
    hide t.Outcome, IsChain, Addresses, ClusterAddresses, Chained, t.EntryAt;
    FollowingIsExact(t, first, clusters);
    ChainIsInVolume(t, first, clusters);
    ChainExtentsAreTheClusters(clusters, t.geometry, sizeBytes);
    EmptyLayout();
  }

  lemma UnfollowedHasNoExtents(t: Table, first: Cluster, sizeBytes: u64)
    requires t.Valid() && (forall clusters :: clusters != [] ==> !IsChain(t, first, clusters))
    ensures Following(t, first, sizeBytes) == []
  {
    hide t.Outcome, IsChain;
    if t.Outcome(first).Chain? {
      FollowingIsExact(t, first, t.Outcome(first).clusters);
    }
  }
}
