// Following a cluster chain through a table of 32-bit entries.
module ClusterChains {
  import opened Bytes
  import opened Outcomes
  import opened Devices

  type Cluster = u32

  const FIRST_CLUSTER: Cluster := 2
  const CLUSTER_VALUES := 0x1000_0000
  const END_OF_CHAIN: Cluster := 0x0FFF_FFF8
  const ENTRY_BYTES := 4

  datatype Geometry = Geometry(
    bytesPerCluster: u32,
    tableOffsetBytes: u64,
    tableSizeBytes: u64,
    dataOffsetBytes: u64,
    totalClusters: u64)

  // What both boot-sector parsers guarantee: 32-bit counts scaled by bounded
  // units, so no address of the volume leaves 64 bits.
  predicate Fits(g: Geometry) {
    && g.bytesPerCluster > 0
    && g.totalClusters < U32_LIMIT
    && g.tableOffsetBytes + g.tableSizeBytes < U64_LIMIT
    && g.tableOffsetBytes + U32_LIMIT * ENTRY_BYTES < U64_LIMIT
    && g.dataOffsetBytes + g.totalClusters * g.bytesPerCluster < U64_LIMIT
  }

  // Why a chain is refused, each with what the code reports.
  datatype ChainOutcome =
    | Chain(clusters: seq<Cluster>)
    | TooLong(count: nat)
    | NotAnEnd(last: Cluster)
    | Unreadable(code: ErrorCode, offset: nat)

  function AsResult(outcome: ChainOutcome): Result<seq<Cluster>> {
    match outcome
    case Chain(clusters) => Ok(clusters)
    case TooLong(count) => Err(OutOfRange, count)
    case NotAnEnd(last) => Err(InvalidArgument, last)
    case Unreadable(code, offset) => Err(code, offset)
  }

  // A mounted table: what a chain-follower reads.
  datatype Table = Table(device: Device, geometry: Geometry) {

    predicate Valid() {
      Fits(geometry)
    }

    predicate IsData(value: Cluster) {
      FIRST_CLUSTER <= value < FIRST_CLUSTER + geometry.totalClusters
    }

    function EntryAt(cluster: Cluster): Result<Cluster>
      requires Valid()
    {
      var offset := geometry.tableOffsetBytes + cluster * ENTRY_BYTES;
      if offset + ENTRY_BYTES > geometry.tableOffsetBytes + geometry.tableSizeBytes then Err(OutOfRange, offset)
      else
        match ReadAt(device, offset, ENTRY_BYTES)
        case Err(code, at) => Err(code, at)
        case Ok(raw) =>
          if |raw| != ENTRY_BYTES then Err(OutOfRange, offset)
          else Ok(FromLittleEndian(raw) % CLUSTER_VALUES)
    }

    // What the table says after `steps` links from `first`. A chain that has left
    // the data region, or could not be read, goes nowhere further.
    function After(first: Cluster, steps: nat): Result<Cluster>
      requires Valid()
      decreases steps, 0
    {
      if steps == 0 then Ok(first)
      else if On(first, steps - 1) then EntryAt(After(first, steps - 1).value)
      else After(first, steps - 1)
    }

    predicate On(first: Cluster, steps: nat)
      requires Valid()
      decreases steps, 1
    {
      After(first, steps).Ok? && IsData(After(first, steps).value)
    }

    // The data clusters among the first `steps` of the chain.
    function Visited(first: Cluster, steps: nat): (clusters: seq<Cluster>)
      requires Valid()
      ensures |clusters| <= steps
    {
      if steps == 0 then []
      else if On(first, steps - 1) then Visited(first, steps - 1) + [After(first, steps - 1).value]
      else Visited(first, steps - 1)
    }

    // Where the chain from `first` leads, told by where it stands after as many
    // links as the volume has clusters.
    function Outcome(first: Cluster): ChainOutcome
      requires Valid()
    {
      var total := geometry.totalClusters;
      match After(first, total)
      case Err(code, offset) => Unreadable(code, offset)
      case Ok(value) =>
        if IsData(value) then TooLong(total)
        else if value < END_OF_CHAIN then NotAnEnd(value)
        else Chain(Visited(first, total))
    }

    method ChainFrom(first: Cluster) returns (outcome: ChainOutcome)
      requires Valid()
      ensures outcome == Outcome(first)
    {
      hide EntryAt;
      var clusters := [];
      var cluster: Result<Cluster> := Ok(first);
      while cluster.Ok? && IsData(cluster.value)
        invariant |clusters| <= geometry.totalClusters
        invariant clusters == Visited(first, |clusters|)
        invariant cluster == After(first, |clusters|)
        decreases geometry.totalClusters - |clusters|, cluster.Ok? && IsData(cluster.value)
      {
        if |clusters| >= geometry.totalClusters {
          return TooLong(|clusters|);
        }
        assert On(first, |clusters|);
        clusters := clusters + [cluster.value];
        cluster := EntryAt(cluster.value);
      }
      StaysPut(this, first, |clusters|, geometry.totalClusters);
      outcome := ChainEnd(cluster, clusters);
    }
  }

  function ChainEnd(last: Result<Cluster>, clusters: seq<Cluster>): ChainOutcome {
    match last
    case Err(code, offset) => Unreadable(code, offset)
    case Ok(value) => if value < END_OF_CHAIN then NotAnEnd(value) else Chain(clusters)
  }

  lemma {:induction false} StaysPut(t: Table, first: Cluster, left: nat, steps: nat)
    requires t.Valid() && left <= steps && !t.On(first, left)
    ensures t.After(first, steps) == t.After(first, left)
    ensures t.Visited(first, steps) == t.Visited(first, left)
    ensures !t.On(first, steps)
    decreases steps
  {
    if left < steps {
      StaysPut(t, first, left, steps - 1);
    }
  }

  // ---- What a table entry is ----

  // The four bytes at a cluster's place in the table, least significant first,
  // less the top four bits.
  ghost predicate HoldsEntry(t: Table, cluster: Cluster, value: Cluster) {
    var at, raw := t.geometry.tableOffsetBytes + 4 * cluster, t.device.bytes;
    && at + 4 <= t.geometry.tableOffsetBytes + t.geometry.tableSizeBytes && at + 4 <= |raw|
    && (forall i :: at <= i < at + 4 ==> i !in t.device.faults)
    && var b0: int, b1: int, b2: int, b3: int := raw[at], raw[at + 1], raw[at + 2], raw[at + 3];
       value == (b0 + 0x100 * b1 + 0x1_0000 * b2 + 0x100_0000 * b3) % 0x1000_0000
  }

  // An entry is read exactly when the table holds it.
  lemma EntryIsRead(t: Table, cluster: Cluster, value: Cluster)
    requires t.Valid() && Addressable(t.device)
    ensures t.EntryAt(cluster) == Ok(value) <==> HoldsEntry(t, cluster, value)
  {
    hide FromLittleEndian, ReadAt;
    var at := t.geometry.tableOffsetBytes + 4 * cluster;
    var read := ReadAt(t.device, at, 4);
    if read.Ok? {
      ReadYields(t.device, at, 4, read.value);
      if |read.value| == 4 {
        FourBytes(read.value);
        assert t.device.bytes[at + 0] == read.value[0] && t.device.bytes[at + 1] == read.value[1];
        assert t.device.bytes[at + 2] == read.value[2] && t.device.bytes[at + 3] == read.value[3];
        assert at + 0 !in t.device.faults && at + 1 !in t.device.faults;
        assert at + 2 !in t.device.faults && at + 3 !in t.device.faults;
      }
    } else if HoldsEntry(t, cluster, value) {
      ReadYields(t.device, at, 4, t.device.bytes[at..at + 4]);
    }
  }

  // ---- What a chain is ----

  // `clusters` are data clusters, each linked to the next by the table and the
  // last to an end-of-chain marker.
  ghost predicate Links(t: Table, clusters: seq<Cluster>)
    requires t.Valid()
  {
    && (forall i :: 0 <= i < |clusters| ==> 2 <= clusters[i] < 2 + t.geometry.totalClusters)
    && (forall i :: 0 < i < |clusters| ==> t.EntryAt(clusters[i - 1]) == Ok(clusters[i]))
  }

  predicate Ends(t: Table, value: Cluster) {
    !(2 <= value < 2 + t.geometry.totalClusters) && value >= 0x0FFF_FFF8
  }

  ghost predicate IsChain(t: Table, first: Cluster, clusters: seq<Cluster>)
    requires t.Valid()
  {
    && Links(t, clusters)
    && if clusters == [] then Ends(t, first)
       else && clusters[0] == first
            && t.EntryAt(clusters[|clusters| - 1]).Ok?
            && Ends(t, t.EntryAt(clusters[|clusters| - 1]).value)
  }

  // A chain is on its way up to some number of steps, and stands still after.
  lemma {:induction false} OnBefore(t: Table, first: Cluster, earlier: nat, later: nat)
    requires t.Valid() && earlier <= later && t.On(first, later)
    ensures t.On(first, earlier)
  {
    if !t.On(first, earlier) {
      StaysPut(t, first, earlier, later);
    }
  }

  lemma VisitedStep(t: Table, first: Cluster, steps: nat)
    requires t.Valid() && steps > 0 && t.On(first, steps - 1)
    ensures t.Visited(first, steps) == t.Visited(first, steps - 1) + [t.After(first, steps - 1).value]
    ensures t.After(first, steps) == t.EntryAt(t.After(first, steps - 1).value)
  {
  }

  lemma {:induction false} VisitedWhileOn(t: Table, first: Cluster, steps: nat)
    requires t.Valid() && (steps > 0 ==> t.On(first, steps - 1))
    ensures |t.Visited(first, steps)| == steps
    ensures forall i :: 0 <= i < steps ==> t.On(first, i) && t.Visited(first, steps)[i] == t.After(first, i).value
  {
    hide t.On, t.After, t.EntryAt;
    if steps == 0 {
    } else {
      VisitedStep(t, first, steps);
      if steps > 1 {
        OnBefore(t, first, steps - 2, steps - 1);
      }
      VisitedWhileOn(t, first, steps - 1);
    }
  }

  lemma {:induction false} LeavesAt(t: Table, first: Cluster, steps: nat) returns (left: nat)
    requires t.Valid() && !t.On(first, steps)
    ensures left <= steps && !t.On(first, left) && (left > 0 ==> t.On(first, left - 1))
  {
    if steps > 0 && !t.On(first, steps - 1) {
      left := LeavesAt(t, first, steps - 1);
    } else {
      left := steps;
    }
  }

  // The table sends equal clusters the same way, so a chain that comes back can
  // never have ended.
  lemma {:induction false} RepeatRunsOn(t: Table, clusters: seq<Cluster>, i: nat, j: nat, k: nat)
    requires t.Valid() && Links(t, clusters) && i < j && j + k < |clusters| && clusters[i] == clusters[j]
    ensures clusters[i + k] == clusters[j + k]
  {
    if k == 0 {
    } else {
      RepeatRunsOn(t, clusters, i, j, k - 1);
      assert t.EntryAt(clusters[i + k - 1]) == Ok(clusters[i + k]);
      assert t.EntryAt(clusters[j + k - 1]) == Ok(clusters[j + k]);
    }
  }

  lemma LinkAt(t: Table, clusters: seq<Cluster>, i: nat)
    requires t.Valid() && Links(t, clusters) && i + 1 < |clusters|
    ensures t.EntryAt(clusters[i]) == Ok(clusters[i + 1]) && t.IsData(clusters[i + 1])
  {
    assert t.EntryAt(clusters[i + 1 - 1]) == Ok(clusters[i + 1]);
  }

  lemma ChainIsDistinct(t: Table, first: Cluster, clusters: seq<Cluster>)
    requires t.Valid() && IsChain(t, first, clusters)
    ensures Distinct(clusters)
  {
    hide t.EntryAt;
    var n := |clusters|;
    forall i, j | 0 <= i < j < n
      ensures clusters[i] != clusters[j]
    {
      if clusters[i] == clusters[j] {
        LinkAt(t, clusters, i + n - 1 - j);
        RepeatRunsOn(t, clusters, i, j, n - 1 - j);
      }
    }
  }

  lemma ChainFits(t: Table, first: Cluster, clusters: seq<Cluster>)
    requires t.Valid() && IsChain(t, first, clusters)
    ensures |clusters| <= t.geometry.totalClusters
  {
    ChainIsDistinct(t, first, clusters);
    DistinctFit(clusters, FIRST_CLUSTER, t.geometry.totalClusters);
  }

  lemma {:induction false} ChainIsWalked(t: Table, first: Cluster, clusters: seq<Cluster>, steps: nat)
    requires t.Valid() && IsChain(t, first, clusters) && steps <= |clusters|
    ensures t.Visited(first, steps) == clusters[..steps]
    ensures steps < |clusters| ==> t.After(first, steps) == Ok(clusters[steps])
    ensures 0 < steps == |clusters| ==> t.After(first, steps) == t.EntryAt(clusters[steps - 1])
    decreases steps
  {
    hide t.EntryAt;
    if steps == 0 {
    } else {
      ChainIsWalked(t, first, clusters, steps - 1);
      assert t.On(first, steps - 1);
      assert clusters[..steps] == clusters[..steps - 1] + [clusters[steps - 1]];
    }
  }

  lemma ChainIsFound(t: Table, first: Cluster, clusters: seq<Cluster>)
    requires t.Valid() && IsChain(t, first, clusters)
    ensures t.Outcome(first) == Chain(clusters)
  {
    hide t.EntryAt, t.Visited;
    var n := |clusters|;
    ChainFits(t, first, clusters);
    ChainIsWalked(t, first, clusters, n);
    assert clusters[..n] == clusters;
    StaysPut(t, first, n, t.geometry.totalClusters);
  }

  lemma FoundIsChain(t: Table, first: Cluster, clusters: seq<Cluster>)
    requires t.Valid() && t.Outcome(first) == Chain(clusters)
    ensures IsChain(t, first, clusters)
  {
    hide t.EntryAt, t.Visited;
    var left := LeavesAt(t, first, t.geometry.totalClusters);
    StaysPut(t, first, left, t.geometry.totalClusters);
    VisitedWhileOn(t, first, left);
    forall i | 0 < i < |clusters|
      ensures t.EntryAt(clusters[i - 1]) == Ok(clusters[i])
    {
      VisitedStep(t, first, i);
    }
    if left > 0 {
      VisitedStep(t, first, left);
      assert clusters[0] == t.After(first, 0).value;
    }
  }

  // Following succeeds exactly with the clusters the table links to an
  // end-of-chain marker, which are then pairwise distinct.
  lemma FollowingIsExact(t: Table, first: Cluster, clusters: seq<Cluster>)
    requires t.Valid()
    ensures t.Outcome(first) == Chain(clusters) <==> IsChain(t, first, clusters)
    ensures t.Outcome(first) == Chain(clusters) ==> Distinct(clusters)
  {
    hide t.Outcome, IsChain, Distinct;
    if t.Outcome(first) == Chain(clusters) {
      FoundIsChain(t, first, clusters);
    }
    if IsChain(t, first, clusters) {
      ChainIsFound(t, first, clusters);
      ChainIsDistinct(t, first, clusters);
    }
  }

  // ---- When the length cap fires ----

  ghost predicate Revisits(t: Table, first: Cluster)
    requires t.Valid()
  {
    exists i: nat, j: nat :: Returns(t, first, i, j)
  }

  // After `j` steps the chain is back at the data cluster it was at after `i`.
  predicate Returns(t: Table, first: Cluster, i: nat, j: nat)
    requires t.Valid()
  {
    i < j && t.On(first, i) && t.On(first, j) && t.After(first, i) == t.After(first, j)
  }

  lemma {:induction false} GoesRound(t: Table, first: Cluster, i: nat, j: nat, k: nat)
    requires t.Valid() && Returns(t, first, i, j)
    ensures t.After(first, i + k) == t.After(first, j + k)
  {
    hide t.EntryAt;
    if k == 0 {
    } else {
      GoesRound(t, first, i, j, k - 1);
    }
  }

  lemma {:induction false} NeverLeaves(t: Table, first: Cluster, i: nat, j: nat, steps: nat)
    requires t.Valid() && Returns(t, first, i, j)
    ensures t.On(first, steps)
    decreases steps
  {
    hide t.EntryAt, t.After;
    if steps <= j {
      OnBefore(t, first, steps, j);
    } else {
      GoesRound(t, first, i, j, steps - j);
      NeverLeaves(t, first, i, j, steps - j + i);
    }
  }

  // The cap fires exactly on a chain that comes back to a cluster before it
  // leaves the data region: nothing shorter is refused, and no cycle is followed.
  lemma CapFiresOnRevisits(t: Table, first: Cluster)
    requires t.Valid()
    ensures t.Outcome(first).TooLong? <==> Revisits(t, first)
  {
    var total := t.geometry.totalClusters;
    hide t.EntryAt, t.After, t.Visited;
    if t.Outcome(first).TooLong? {
      VisitedWhileOn(t, first, total + 1);
      var clusters := t.Visited(first, total + 1);
      if Distinct(clusters) {
        DistinctFit(clusters, FIRST_CLUSTER, total);
      }
      var i, j :| 0 <= i < j < |clusters| && clusters[i] == clusters[j];
      assert Returns(t, first, i, j);
    }
    if Revisits(t, first) {
      var i: nat, j: nat :| Returns(t, first, i, j);
      NeverLeaves(t, first, i, j, total);
    }
  }
}
