// The findings a run deals in: what the filesystem walk names, and what either
// source claims about some bytes.
module Candidates {
  import opened Bytes
  import opened Regions

  // Stored as one byte, and read back by a cast that admits any byte.
  type Confidence = byte
  const REJECTED: Confidence := 0
  const UNCERTAIN: Confidence := 1
  const VALID: Confidence := 2

  type Source = byte
  const FILESYSTEM: Source := 0
  const CARVE: Source := 1

  // The codes as they stand in a record.
  lemma CodesInRecords()
    ensures REJECTED == 0 && UNCERTAIN == 1 && VALID == 2
    ensures FILESYSTEM == 0 && CARVE == 1
  {
  }

  datatype Timestamps = Timestamps(created: u64, modified: u64, accessed: u64)

  datatype Candidate = Candidate(
    name: seq<byte>,
    extents: seq<Extent>,
    residentContent: seq<byte>,
    timestamps: Timestamps,
    confidence: Confidence,
    source: Source)

  datatype RecoveredEntry = RecoveredEntry(
    path: seq<byte>,
    extents: seq<Extent>,
    residentContent: seq<byte>,
    timestamps: Timestamps,
    recoverability: Confidence)

  datatype ScanCandidate = ScanCandidate(
    offset: u64,
    length: u64,
    confidence: Confidence,
    extension: seq<byte>)

  // What a carver says of the bytes at a signature.
  datatype Verdict = Verdict(length: nat, confidence: Confidence)

  function OfEntry(entry: RecoveredEntry): Candidate {
    Candidate(entry.path, entry.extents, entry.residentContent, entry.timestamps,
              entry.recoverability, FILESYSTEM)
  }

  function OfCarve(found: ScanCandidate): Candidate {
    Candidate(found.extension, [Extent(found.offset, found.length)], [], Timestamps(0, 0, 0),
              found.confidence, CARVE)
  }
}
