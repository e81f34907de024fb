// How far a run had got, as the fixed 64-byte record it is stored in.
module CheckpointFile {
  import opened Bytes
  import opened Outcomes

  const CHECKPOINT_MAGIC: seq<byte> := [0x52, 0x56, 0x4E, 0x54, 0x43, 0x4B, 0x50, 0x00]
  const CHECKPOINT_VERSION := 1
  const CHECKPOINT_BYTES := 64
  const SHAPE_BYTES := 32

  // `shape` is the digest of what decides a run: mode, source size, formats.
  type Shape = s: seq<byte> | |s| == SHAPE_BYTES witness seq(SHAPE_BYTES, _ => 0)

  datatype Checkpoint = Checkpoint(shape: Shape, scanCursor: u64, indexRecords: u64)

  function Encode(c: Checkpoint): (raw: seq<byte>)
    ensures |raw| == CHECKPOINT_BYTES
  {
    CHECKPOINT_MAGIC + LittleEndian(CHECKPOINT_VERSION, 4) + [0, 0, 0, 0]
    + c.shape + LittleEndian(c.scanCursor, 8) + LittleEndian(c.indexRecords, 8)
  }

  predicate HeaderIsOurs(raw: seq<byte>)
    requires |raw| == CHECKPOINT_BYTES
  {
    raw[..8] == CHECKPOINT_MAGIC && FromLittleEndian(raw[8..12]) == CHECKPOINT_VERSION
  }

  function ReadAt(raw: seq<byte>, at: nat): u64
    requires at + 8 <= |raw|
  {
    FromLittleEndianBound(raw[at..at + 8]);
    CapacityOfFields();
    FromLittleEndian(raw[at..at + 8])
  }

  // A file of another length, magic or version is refused; no file is its own
  // kind of absence.
  function Read(file: Option<seq<byte>>): Result<Checkpoint> {
    match file
    case None => Err(NotFound, 0)
    case Some(raw) =>
      if |raw| != CHECKPOINT_BYTES || !HeaderIsOurs(raw) then Err(InvalidArgument, 0)
      else Ok(Checkpoint(raw[16..48], ReadAt(raw, 48), ReadAt(raw, 56)))
  }

  lemma CheckpointRoundTrip(c: Checkpoint)
    ensures Read(Some(Encode(c))) == Ok(c)
  {
    hide LittleEndian, FromLittleEndian;
    CapacityOfFields();
    LittleEndianRoundTrip(CHECKPOINT_VERSION, 4);
    LittleEndianRoundTrip(c.scanCursor, 8);
    LittleEndianRoundTrip(c.indexRecords, 8);
    var raw := Encode(c);
    assert raw[8..12] == LittleEndian(CHECKPOINT_VERSION, 4);
    assert raw[16..48] == c.shape;
    assert raw[48..56] == LittleEndian(c.scanCursor, 8);
    assert raw[56..64] == LittleEndian(c.indexRecords, 8);
  }

  // The record, byte for byte. Its reserved word is not looked at.
  ghost predicate HoldsCheckpoint(raw: seq<byte>, c: Checkpoint) {
    && |raw| == 64
    && raw[..12] == [0x52, 0x56, 0x4E, 0x54, 0x43, 0x4B, 0x50, 0x00, 1, 0, 0, 0]
    && raw[16..48] == c.shape
    && raw[48..56] == LittleEndian(c.scanCursor, 8) && raw[56..64] == LittleEndian(c.indexRecords, 8)
  }

  lemma VersionBytes(raw: seq<byte>)
    requires |raw| == 4
    ensures FromLittleEndian(raw) == 1 <==> raw == [1, 0, 0, 0]
  {
    FourBytes(raw);
  }

  lemma FieldIs(raw: seq<byte>, value: u64)
    requires |raw| == 8
    ensures FromLittleEndian(raw) == value <==> raw == LittleEndian(value, 8)
  {
    CapacityOfFields();
    LittleEndianRoundTrip(value, 8);
    FromLittleEndianRoundTrip(raw);
  }

  // A checkpoint is read exactly from a file that holds it, and one is written so.
  lemma CheckpointIsRead(raw: seq<byte>, c: Checkpoint)
    ensures Read(Some(raw)) == Ok(c) <==> HoldsCheckpoint(raw, c)
    ensures Read(Some(raw)).Err? ==> Read(Some(raw)) == Err(InvalidArgument, 0)
    ensures HoldsCheckpoint(Encode(c), c) && Encode(c)[12..16] == [0, 0, 0, 0]
  {
    hide FromLittleEndian, LittleEndian;
    CheckpointRoundTrip(c);
    forall file: seq<byte> | |file| == 64
      ensures Read(Some(file)) == Ok(c) <==> HoldsCheckpoint(file, c)
    {
      VersionBytes(file[8..12]);
      FieldIs(file[48..56], c.scanCursor);
      FieldIs(file[56..64], c.indexRecords);
      var start := [0x52, 0x56, 0x4E, 0x54, 0x43, 0x4B, 0x50, 0x00, 1, 0, 0, 0];
      assert file[..12] == file[..8] + file[8..12];
      assert start == start[..8] + [1, 0, 0, 0];
    }
  }
}
