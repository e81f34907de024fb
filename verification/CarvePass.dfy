// The carve pass as a whole: the schedule cut from what the filesystem walk left
// unaccounted, and a signature scan over each of its chunks.
module CarvePass {
  import opened Bytes
  import opened Candidates
  import Regions
  import Accounting
  import Schedule
  import WindowMatching
  import Scanning

  // What the scan of chunk `k` reports.
  function ChunkReports(s: Scanning.Scan, schedule: seq<Regions.ScanRegion>, k: nat): seq<Scanning.Report>
    requires k < |schedule|
  {
    Scanning.ScanFrom(s, schedule[k].offset, Regions.End(schedule[k]))
  }

  lemma ChunkIsOnDevice(s: Scanning.Scan, entries: seq<RecoveredEntry>, chunkBytes: nat, k: nat)
    requires chunkBytes > 0 && k < |Schedule.CarveSchedule(entries, |s.device|, chunkBytes)|
    ensures Regions.End(Schedule.CarveSchedule(entries, |s.device|, chunkBytes)[k]) <= |s.device|
  {
    hide Accounting.Account, Accounting.Named, Schedule.CarveSchedule;
    var schedule := Schedule.CarveSchedule(entries, |s.device|, chunkBytes);
    Schedule.ScheduleCoversTheUnaccounted(entries, |s.device|, chunkBytes);
    var chunk := schedule[k];
    if chunk.lengthBytes > 0 {
      assert Regions.RegionHas(chunk, Regions.End(chunk) - 1);
      assert Regions.SomeRegionHas(schedule, Regions.End(chunk) - 1);
    }
    ChunksAreNotEmpty(entries, |s.device|, chunkBytes, k);
  }

  lemma ChunksAreNotEmpty(entries: seq<RecoveredEntry>, deviceSize: nat, chunkBytes: nat, k: nat)
    requires chunkBytes > 0 && k < |Schedule.CarveSchedule(entries, deviceSize, chunkBytes)|
    ensures Schedule.CarveSchedule(entries, deviceSize, chunkBytes)[k].lengthBytes > 0
  {
    Accounting.GapsAreUnaccounted(entries, deviceSize);
    Schedule.RemainingIsAll(Accounting.AccountedGaps(entries, deviceSize), 0);
    Schedule.ChunksPartition(Accounting.AccountedGaps(entries, deviceSize), chunkBytes);
  }

  // Every signature on the device that starts where no trusted extent is named is
  // accounted for by the scan of one chunk: reported at its start, or below the
  // resume point of a candidate within its reach.
  lemma UnaccountedSignatureIsFound(
      s: Scanning.Scan, entries: seq<RecoveredEntry>, chunkBytes: nat, m: WindowMatching.Match) returns (k: nat)
    requires chunkBytes > 0 && |s.device| <= U64_MAX
    requires Scanning.MaxSignatureBytes(s.carvers) <= s.windowBytes
    requires Scanning.Hit(s, m) && !Accounting.Named(entries, m.offset)
    ensures var schedule := Schedule.CarveSchedule(entries, |s.device|, chunkBytes);
            && k < |schedule| && Regions.RegionHas(schedule[k], m.offset)
            && Scanning.AccountedFor(s, ChunkReports(s, schedule, k), m)
  {
    hide Scanning.HitBy, Scanning.ScanFrom, Scanning.MaxSignatureBytes, Schedule.CarveSchedule, Accounting.Account;
    var schedule := Schedule.CarveSchedule(entries, |s.device|, chunkBytes);
    Schedule.ScheduleCoversTheUnaccounted(entries, |s.device|, chunkBytes);
    Scanning.HitHasWidth(s, m);
    assert Regions.SomeRegionHas(schedule, m.offset);
    k :| 0 <= k < |schedule| && Regions.RegionHas(schedule[k], m.offset);
    ChunkIsOnDevice(s, entries, chunkBytes, k);
    Scanning.ScanAccountsForEveryHit(s, schedule[k].offset, Regions.End(schedule[k]), m);
  }

  // And what a chunk's scan reports starts at a signature inside that chunk, so,
  // unless an extent was dropped, on no byte that is accounted for.
  lemma ReportsStartUnaccounted(s: Scanning.Scan, entries: seq<RecoveredEntry>, chunkBytes: nat, k: nat, i: nat)
    requires chunkBytes > 0 && k < |Schedule.CarveSchedule(entries, |s.device|, chunkBytes)|
    requires i < |ChunkReports(s, Schedule.CarveSchedule(entries, |s.device|, chunkBytes), k)|
    ensures var schedule := Schedule.CarveSchedule(entries, |s.device|, chunkBytes);
            var found := ChunkReports(s, schedule, k)[i].found;
            && Scanning.Hit(s, found) && Regions.RegionHas(schedule[k], found.offset)
            && (Accounting.Account(entries).dropped == 0 ==>
                  !Accounting.Named(entries, found.offset))
  {
    hide Scanning.HitBy, Scanning.ScanFrom, Schedule.CarveSchedule, Accounting.Account;
    var schedule := Schedule.CarveSchedule(entries, |s.device|, chunkBytes);
    Schedule.ScheduleCoversTheUnaccounted(entries, |s.device|, chunkBytes);
    Scanning.ScanReportsInOrder(s, schedule[k].offset, Regions.End(schedule[k]));
    assert Regions.SomeRegionHas(schedule, ChunkReports(s, schedule, k)[i].found.offset);
  }
}
