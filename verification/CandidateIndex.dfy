// The append side of the candidate index: two append-only files in the session
// directory, and every state a crash could leave them in.
module CandidateIndexing {
  import opened Bytes
  import opened Outcomes
  import opened Candidates
  import opened IndexFormat

  // What a session directory holds on disk.
  datatype Disk = Disk(records: seq<byte>, blob: seq<byte>, checkpoint: Option<seq<byte>>)

  // Both files only longer, and the same checkpoint.
  ghost predicate Grew(before: Disk, after: Disk) {
    before.records <= after.records && before.blob <= after.blob && before.checkpoint == after.checkpoint
  }

  // Every state from `from` on grew out of `before`.
  ghost predicate OnlyGrew(history: seq<Disk>, from: nat, before: Disk) {
    forall i :: from <= i < |history| ==> Grew(before, history[i])
  }

  // A session directory. `history` is every state its files have been in, one
  // entry a durable change: a crash leaves one of them.
  class SessionFiles {
    var records: seq<byte>
    var blob: seq<byte>
    var checkpoint: Option<seq<byte>>
    var history: seq<Disk>

    function Now(): Disk reads this {
      Disk(records, blob, checkpoint)
    }

    ghost predicate Valid() reads this {
      history != [] && history[|history| - 1] == Now()
    }

    constructor (found: Disk)
      ensures Valid() && Now() == found && history == [found]
    {
      records, blob, checkpoint := found.records, found.blob, found.checkpoint;
      history := [found];
    }

    method PutRecordByte(value: byte)
      modifies this
      ensures Valid() && history == old(history) + [Now()]
      ensures Now() == old(Now()).(records := old(records) + [value])
    {
      records := records + [value];
      history := history + [Now()];
    }

    method PutBlobByte(value: byte)
      modifies this
      ensures Valid() && history == old(history) + [Now()]
      ensures Now() == old(Now()).(blob := old(blob) + [value])
    {
      blob := blob + [value];
      history := history + [Now()];
    }

    // Writes `raw` a byte at a time; a crash keeps any part of it.
    method WriteRecords(raw: seq<byte>)
      requires Valid()
      modifies this
      ensures Valid() && Now() == old(Now()).(records := old(records) + raw)
      ensures old(history) <= history && OnlyGrew(history, |old(history)|, old(Now()))
    {
      for i := 0 to |raw|
        invariant Valid() && Now() == old(Now()).(records := old(records) + raw[..i])
        invariant old(history) <= history && OnlyGrew(history, |old(history)|, old(Now()))
      {
        PutRecordByte(raw[i]);
        assert raw[..i + 1] == raw[..i] + [raw[i]];
      }
      assert raw[..|raw|] == raw;
    }

    method WriteBlob(raw: seq<byte>)
      requires Valid()
      modifies this
      ensures Valid() && Now() == old(Now()).(blob := old(blob) + raw)
      ensures old(history) <= history && OnlyGrew(history, |old(history)|, old(Now()))
    {
      for i := 0 to |raw|
        invariant Valid() && Now() == old(Now()).(blob := old(blob) + raw[..i])
        invariant old(history) <= history && OnlyGrew(history, |old(history)|, old(Now()))
      {
        PutBlobByte(raw[i]);
        assert raw[..i + 1] == raw[..i] + [raw[i]];
      }
      assert raw[..|raw|] == raw;
    }

    // `resize_file`, and the truncation opening a stream does.
    method ResizeRecords(size: nat)
      requires size <= |records|
      modifies this
      ensures Valid() && history == old(history) + [Now()]
      ensures Now() == old(Now()).(records := old(records)[..size])
    {
      records := records[..size];
      history := history + [Now()];
    }

    method TruncateBlob()
      modifies this
      ensures Valid() && history == old(history) + [Now()]
      ensures Now() == old(Now()).(blob := [])
    {
      blob := [];
      history := history + [Now()];
    }

    // Both files truncated, and the header of an index that holds nothing.
    method StartOver()
      requires Valid()
      modifies this
      ensures Valid() && Now() == Disk(HeaderBytes(), [], old(checkpoint))
      ensures old(history) <= history
      ensures forall i :: |old(history)| <= i < |history| ==> history[i].checkpoint == old(checkpoint)
    {
      hide HeaderBytes;
      ResizeRecords(0);
      TruncateBlob();
      WriteRecords(HeaderBytes());
    }

    // A checkpoint is written beside the old one and renamed over it, so the
    // replacement is one durable change.
    method ReplaceCheckpoint(raw: seq<byte>)
      modifies this
      ensures Valid() && history == old(history) + [Now()]
      ensures Now() == old(Now()).(checkpoint := Some(raw))
    {
      checkpoint := Some(raw);
      history := history + [Now()];
    }

    method ClearCheckpoint()
      modifies this
      ensures Valid() && history == old(history) + [Now()]
      ensures Now() == old(Now()).(checkpoint := None)
    {
      checkpoint := None;
      history := history + [Now()];
    }

    // What is found on disk after a crash: the files as they were at some point.
    method Crash(at: nat)
      requires at < |history|
      modifies this
      ensures Valid() && Now() == old(history[at])
      ensures history == old(history) + [Now()]
    {
      var found := history[at];
      records, blob, checkpoint := found.records, found.blob, found.checkpoint;
      history := history + [Now()];
    }
  }

  class CandidateIndex {
    const files: SessionFiles
    var blobBytes: nat
    var count: nat

    // The index holds exactly `held`, and its counters agree with the files.
    ghost predicate Holding(held: seq<Candidate>) reads this, files {
      && files.Valid()
      && Holds(files.records, files.blob, held)
      && |files.records| == AreaBytes(|held|)
      && blobBytes == |files.blob|
      && count == |held|
    }

    // A new, empty index, replacing anything already there.
    constructor Create(files: SessionFiles)
      requires files.Valid()
      modifies files
      ensures this.files == files && Holding([])
      ensures files.blob == [] && files.checkpoint == old(files.checkpoint)
      ensures old(files.history) <= files.history
      ensures forall i :: |old(files.history)| <= i < |files.history| ==>
                files.history[i].checkpoint == old(files.checkpoint)
    {
      this.files := files;
      blobBytes, count := 0, 0;
      new;
      hide HeaderBytes, HeaderIsOurs, RecordHolds;
      HeaderIsRead();
      files.StartOver();
    }

    // Continues an index where `continued` says: the records kept, and the blob
    // as far as it reaches.
    constructor Continued(files: SessionFiles, records: nat)
      ensures this.files == files && blobBytes == |files.blob| && count == records
    {
      this.files := files;
      blobBytes, count := |files.blob|, records;
    }

    // The blob entry, flushed; then the record that points at it, flushed.
    method WriteEntry(c: Candidate)
      requires files.Valid() && blobBytes == |files.blob| < U64_LIMIT
      modifies this, files
      ensures files.Valid()
      ensures files.records == old(files.records) + RecordBytes(RecordFor(c, old(blobBytes)))
      ensures files.blob == old(files.blob) + BlobEntry(c)
      ensures files.checkpoint == old(files.checkpoint)
      ensures blobBytes == |files.blob| && count == old(count) + 1
      ensures old(files.history) <= files.history
      ensures OnlyGrew(files.history, |old(files.history)|, old(files.Now()))
    {
      var entry := EncodeBlobEntry(c);
      files.WriteBlob(entry);
      var record := EncodeRecord(RecordFor(c, blobBytes));
      files.WriteRecords(record);
      blobBytes := blobBytes + |entry|;
      count := count + 1;
    }

    method Append(c: Candidate, ghost held: seq<Candidate>)
      requires Holding(held) && blobBytes + |BlobEntry(c)| < U64_LIMIT
      modifies this, files
      ensures Holding(held + [c])
      ensures |files.blob| == old(|files.blob|) + |BlobEntry(c)|
      ensures files.checkpoint == old(files.checkpoint)
      ensures old(files.history) <= files.history
      ensures OnlyGrew(files.history, |old(files.history)|, old(files.Now()))
    {
      HoldsAfterAppend(files.records, files.blob, held, c);
      WriteEntry(c);
    }
  }
}
