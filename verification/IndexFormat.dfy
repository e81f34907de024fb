// The bytes of a candidate index.
module IndexFormat {
  import opened Bytes
  import opened Outcomes
  import opened Regions
  import opened Candidates

  // The header, the fixed-size record, the blob entry a record points at, and
  // reading it all back from bytes that may end anywhere.

  const INDEX_MAGIC: seq<byte> := [0x52, 0x56, 0x4E, 0x54, 0x49, 0x44, 0x58, 0x00]
  const INDEX_VERSION := 1
  const HEADER_BYTES := 16
  const RECORD_BYTES := 48
  const EXTENT_BYTES := 16

  const MAX_NAME_BYTES := 4096
  const MAX_EXTENTS := 4096
  const MAX_RESIDENT_BYTES := 0x1_0000
  const MAX_INDEXED_CANDIDATES := 0x10_0000

  datatype Record = Record(
    blobOffset: u64,
    created: u64,
    modified: u64,
    accessed: u64,
    nameLength: u32,
    residentLength: u32,
    extentCount: u32,
    confidence: byte,
    source: byte)

  // ---- Writing ----

  function HeaderBytes(): seq<byte> {
    INDEX_MAGIC + LittleEndian(INDEX_VERSION, 4) + LittleEndian(RECORD_BYTES, 4)
  }

  function WideBytes(r: Record): (raw: seq<byte>)
    ensures |raw| == 0x20
  {
    LittleEndian(r.blobOffset, 8) + LittleEndian(r.created, 8)
    + LittleEndian(r.modified, 8) + LittleEndian(r.accessed, 8)
  }

  function LengthBytes(r: Record): (raw: seq<byte>)
    ensures |raw| == 0x0C
  {
    LittleEndian(r.nameLength, 4) + LittleEndian(r.residentLength, 4) + LittleEndian(r.extentCount, 4)
  }

  function RecordBytes(r: Record): (raw: seq<byte>)
    ensures |raw| == RECORD_BYTES
  {
    WideBytes(r) + LengthBytes(r) + [r.confidence, r.source, 0, 0]
  }

  // Writes one field into a record under construction, in place.
  method PutLe(target: array<byte>, offset: nat, value: nat, width: nat)
    requires offset + width <= target.Length
    modifies target
    ensures target[..offset + width] == old(target[..offset]) + LittleEndian(value, width)
    ensures forall k :: offset + width <= k < target.Length ==> target[k] == old(target[k])
  {
    var rest := value;
    for i := 0 to width
      invariant target[..offset] == old(target[..offset])
      invariant forall k :: offset + i <= k < target.Length ==> target[k] == old(target[k])
      invariant target[offset..offset + i] + LittleEndian(rest, width - i) == LittleEndian(value, width)
    {
      ghost var before := target[offset..offset + i];
      target[offset + i] := rest % 0x100;
      assert target[offset..offset + i + 1] == before + [rest % 0x100];
      rest := rest / 0x100;
    }
    assert target[..offset + width] == target[..offset] + target[offset..offset + width];
  }

  // The timestamps and the blob offset.
  method PutWide(target: array<byte>, r: Record)
    requires target.Length == RECORD_BYTES
    modifies target
    ensures target[..0x20] == WideBytes(r)
    ensures forall k :: 0x20 <= k < RECORD_BYTES ==> target[k] == old(target[k])
  {
    hide LittleEndian;
    PutLe(target, 0x00, r.blobOffset, 8);
    assert target[..8] == LittleEndian(r.blobOffset, 8);
    PutLe(target, 0x08, r.created, 8);
    PutLe(target, 0x10, r.modified, 8);
    PutLe(target, 0x18, r.accessed, 8);
  }

  // The three lengths.
  method PutLengths(target: array<byte>, r: Record)
    requires target.Length == RECORD_BYTES
    modifies target
    ensures target[..0x2C] == old(target[..0x20]) + LengthBytes(r)
    ensures forall k :: 0x2C <= k < RECORD_BYTES ==> target[k] == old(target[k])
  {
    hide LittleEndian;
    PutLe(target, 0x20, r.nameLength, 4);
    PutLe(target, 0x24, r.residentLength, 4);
    PutLe(target, 0x28, r.extentCount, 4);
  }

  method EncodeRecord(r: Record) returns (raw: seq<byte>)
    ensures raw == RecordBytes(r)
  {
    var target := new byte[RECORD_BYTES](_ => 0);
    PutWide(target, r);
    PutLengths(target, r);
    hide WideBytes, LengthBytes;
    target[0x2C] := r.confidence;
    target[0x2D] := r.source;
    raw := target[..];
    assert raw == raw[..0x2C] + raw[0x2C..];
  }

  function ExtentBytes(extent: Extent): seq<byte> {
    LittleEndian(extent.deviceOffset, 8) + LittleEndian(extent.lengthBytes, 8)
  }

  function ExtentsBytes(extents: seq<Extent>): (raw: seq<byte>)
    ensures |raw| == |extents| * EXTENT_BYTES
  {
    if extents == [] then [] else ExtentBytes(extents[0]) + ExtentsBytes(extents[1..])
  }

  // One candidate's variable-length parts: name, extents, resident content.
  function BlobEntry(c: Candidate): seq<byte> {
    c.name + ExtentsBytes(c.extents) + c.residentContent
  }

  method EncodeBlobEntry(c: Candidate) returns (blob: seq<byte>)
    ensures blob == BlobEntry(c)
  {
    blob := c.name;
    for i := 0 to |c.extents|
      invariant blob + ExtentsBytes(c.extents[i..]) == c.name + ExtentsBytes(c.extents)
    {
      assert c.extents[i..][1..] == c.extents[i + 1..];
      blob := blob + ExtentBytes(c.extents[i]);
    }
    blob := blob + c.residentContent;
  }

  // The three lengths are cast to 32 bits.
  function RecordFor(c: Candidate, blobOffset: u64): Record {
    Record(blobOffset, c.timestamps.created, c.timestamps.modified, c.timestamps.accessed,
           |c.name| % U32_LIMIT, |c.residentContent| % U32_LIMIT, |c.extents| % U32_LIMIT,
           c.confidence, c.source)
  }

  // ---- Reading ----

  function Field(raw: seq<byte>, at: nat, width: nat): nat
    requires at + width <= |raw|
  {
    FromLittleEndian(raw[at..at + width])
  }

  predicate HeaderIsOurs(raw: seq<byte>) {
    && |raw| >= HEADER_BYTES
    && raw[..8] == INDEX_MAGIC
    && Field(raw, 0x08, 4) == INDEX_VERSION
    && Field(raw, 0x0C, 4) == RECORD_BYTES
  }

  function WideField(raw: seq<byte>, at: nat): u64
    requires at + 8 <= |raw|
  {
    FromLittleEndianBound(raw[at..at + 8]);
    CapacityOfFields();
    Field(raw, at, 8)
  }

  function NarrowField(raw: seq<byte>, at: nat): u32
    requires at + 4 <= |raw|
  {
    FromLittleEndianBound(raw[at..at + 4]);
    CapacityOfFields();
    Field(raw, at, 4)
  }

  function DecodeRecord(raw: seq<byte>): Record
    requires |raw| >= RECORD_BYTES
  {
    Record(WideField(raw, 0x00), WideField(raw, 0x08), WideField(raw, 0x10), WideField(raw, 0x18),
           NarrowField(raw, 0x20), NarrowField(raw, 0x24), NarrowField(raw, 0x28),
           raw[0x2C], raw[0x2D])
  }

  predicate LengthsAreSane(r: Record) {
    r.nameLength <= MAX_NAME_BYTES && r.extentCount <= MAX_EXTENTS && r.residentLength <= MAX_RESIDENT_BYTES
  }

  function EntryBytes(r: Record): nat {
    r.nameLength + r.extentCount * EXTENT_BYTES + r.residentLength
  }

  predicate BlobRangeFits(r: Record, blobBytes: nat) {
    r.blobOffset <= blobBytes && EntryBytes(r) <= blobBytes - r.blobOffset
  }

  function ExtentsIn(raw: seq<byte>, count: nat): seq<Extent>
    requires |raw| == count * EXTENT_BYTES
  {
    if count == 0 then []
    else [Extent(WideField(raw, 0), WideField(raw, 8))] + ExtentsIn(raw[EXTENT_BYTES..], count - 1)
  }

  // One more extent read in place.
  lemma ExtentsStep(raw: seq<byte>, count: nat, i: nat)
    requires |raw| == count * EXTENT_BYTES && i < count
    ensures var at := i * EXTENT_BYTES;
            && at + EXTENT_BYTES <= |raw|
            && ExtentsIn(raw[at..], count - i)
               == [Extent(WideField(raw, at), WideField(raw, at + 8))] + ExtentsIn(raw[at + EXTENT_BYTES..], count - (i + 1))
  {
    var at := i * EXTENT_BYTES;
    assert raw[at..][EXTENT_BYTES..] == raw[at + EXTENT_BYTES..];
    assert raw[at..][0..8] == raw[at..at + 8] && raw[at..][8..16] == raw[at + 8..at + 16];
    hide FromLittleEndian;
  }

  method DecodeExtents(raw: seq<byte>, count: nat) returns (extents: seq<Extent>)
    requires |raw| == count * EXTENT_BYTES
    ensures extents == ExtentsIn(raw, count)
  {
    hide ExtentsIn, WideField;
    extents := [];
    assert raw[0 * EXTENT_BYTES..] == raw;
    for i := 0 to count
      invariant extents + ExtentsIn(raw[i * EXTENT_BYTES..], count - i) == ExtentsIn(raw, count)
    {
      var at := i * EXTENT_BYTES;
      ExtentsStep(raw, count, i);
      extents := extents + [Extent(WideField(raw, at), WideField(raw, at + 8))];
    }
    NoExtentsLeft(raw[count * EXTENT_BYTES..]);
  }

  lemma NoExtentsLeft(raw: seq<byte>)
    requires |raw| == 0
    ensures ExtentsIn(raw, 0) == []
  {
  }

  function DecodeCandidate(r: Record, entry: seq<byte>): Candidate
    requires |entry| == EntryBytes(r)
  {
    var extentsEnd := r.nameLength + r.extentCount * EXTENT_BYTES;
    Candidate(entry[..r.nameLength],
              ExtentsIn(entry[r.nameLength..extentsEnd], r.extentCount),
              entry[extentsEnd..],
              Timestamps(r.created, r.modified, r.accessed),
              r.confidence, r.source)
  }

  function ReadCandidate(r: Record, blob: seq<byte>): Option<Candidate> {
    if !LengthsAreSane(r) || !BlobRangeFits(r, |blob|) then None
    else Some(DecodeCandidate(r, blob[r.blobOffset..r.blobOffset + EntryBytes(r)]))
  }

  datatype IndexContents = IndexContents(candidates: seq<Candidate>, droppedRecords: nat)

  // The length of a record file of `records` candidates: 16 bytes of header, and
  // 48 a record.
  function AreaBytes(records: nat): nat {
    16 + 48 * records
  }

  function WholeRecordsIn(fileBytes: nat): nat
    requires fileBytes >= HEADER_BYTES
  {
    (fileBytes - 16) / 48
  }

  // A torn tail is bytes past the last whole record.
  predicate IsTorn(fileBytes: nat)
    requires fileBytes >= HEADER_BYTES
  {
    (fileBytes - 16) % 48 != 0
  }

  function RecordAt(records: seq<byte>, ordinal: nat): (raw: seq<byte>)
    requires |records| >= AreaBytes(ordinal + 1)
    ensures |raw| == RECORD_BYTES
  {
    records[AreaBytes(ordinal)..AreaBytes(ordinal + 1)]
  }

  function RecordCount(records: seq<byte>): Result<nat> {
    if |records| < HEADER_BYTES || !HeaderIsOurs(records[..HEADER_BYTES]) then Err(InvalidArgument, 0)
    else
      var whole := WholeRecordsIn(|records|);
      if whole > MAX_INDEXED_CANDIDATES then Err(OutOfRange, 0) else Ok(whole)
  }

  function AppendCandidate(contents: IndexContents, read: Option<Candidate>): IndexContents {
    match read
    case None => contents.(droppedRecords := contents.droppedRecords + 1)
    case Some(c) => contents.(candidates := contents.candidates + [c])
  }

  function ReadFirst(records: seq<byte>, blob: seq<byte>, count: nat): IndexContents
    requires |records| >= AreaBytes(count)
  {
    if count == 0 then
      IndexContents([], if IsTorn(|records|) then 1 else 0)
    else
      AppendCandidate(ReadFirst(records, blob, count - 1),
                      ReadCandidate(DecodeRecord(RecordAt(records, count - 1)), blob))
  }

  function IndexIn(records: seq<byte>, blob: seq<byte>): Result<IndexContents> {
    match RecordCount(records)
    case Err(code, offset) => Err(code, offset)
    case Ok(count) => Ok(ReadFirst(records, blob, count))
  }

  method ReadIndex(records: seq<byte>, blob: seq<byte>) returns (contents: Result<IndexContents>)
    ensures contents == IndexIn(records, blob)
  {
    hide HeaderIsOurs, ReadCandidate, DecodeRecord;
    var counted := RecordCount(records);
    if counted.Err? {
      return Err(counted.code, counted.offset);
    }
    var read := IndexContents([], if IsTorn(|records|) then 1 else 0);
    for ordinal := 0 to counted.value
      invariant read == ReadFirst(records, blob, ordinal)
    {
      var record := DecodeRecord(RecordAt(records, ordinal));
      read := AppendCandidate(read, ReadCandidate(record, blob));
    }
    contents := Ok(read);
  }

  // ---- Round trips ----

  lemma HeaderIsRead()
    ensures |HeaderBytes()| == HEADER_BYTES && HeaderIsOurs(HeaderBytes())
  {
    CapacityOfFields();
    LittleEndianRoundTrip(INDEX_VERSION, 4);
    LittleEndianRoundTrip(RECORD_BYTES, 4);
    var raw := HeaderBytes();
    assert raw[0x08..0x0C] == LittleEndian(INDEX_VERSION, 4);
    assert raw[0x0C..0x10] == LittleEndian(RECORD_BYTES, 4);
  }

  // The header and the first bytes of what follows it, spelled out.
  lemma HeaderIs()
    ensures HeaderBytes() == [0x52, 0x56, 0x4E, 0x54, 0x49, 0x44, 0x58, 0x00, 1, 0, 0, 0, 48, 0, 0, 0]
  {
    LittleEndianDigits(1);
    LittleEndianDigits(48);
  }

  lemma WordIs(raw: seq<byte>, digit: byte)
    requires |raw| == 4
    ensures FromLittleEndian(raw) == digit <==> raw == [digit, 0, 0, 0]
  {
    FourBytes(raw);
  }

  // An index is opened exactly when its first sixteen bytes are these, and it has
  // no more than 2^20 whole records.
  lemma IndexIsOpened(records: seq<byte>, count: nat)
    ensures RecordCount(records) == Ok(count)
            <==> && |records| >= 16
                 && records[..16] == [0x52, 0x56, 0x4E, 0x54, 0x49, 0x44, 0x58, 0x00, 1, 0, 0, 0, 48, 0, 0, 0]
                 && count <= 0x10_0000 && 16 + 48 * count <= |records| < 16 + 48 * (count + 1)
  {
    hide FromLittleEndian;
    if |records| >= 16 {
      var raw := records[..16];
      WordIs(raw[8..12], 1);
      WordIs(raw[12..16], 48);
      var literal := [0x52, 0x56, 0x4E, 0x54, 0x49, 0x44, 0x58, 0x00, 1, 0, 0, 0, 48, 0, 0, 0];
      assert raw == raw[..8] + raw[8..12] + raw[12..16];
      assert literal == literal[..8] + [1, 0, 0, 0] + [48, 0, 0, 0];
      assert literal[..8] == INDEX_MAGIC;
      if raw == literal {
        assert raw[8..12] == literal[8..12] == [1, 0, 0, 0];
        assert raw[12..16] == literal[12..16] == [48, 0, 0, 0];
      }
    }
  }

  lemma FieldsStand(r: Record)
    ensures WideBytes(r)[0..8] == LittleEndian(r.blobOffset, 8) && WideBytes(r)[8..16] == LittleEndian(r.created, 8)
    ensures WideBytes(r)[16..24] == LittleEndian(r.modified, 8) && WideBytes(r)[24..32] == LittleEndian(r.accessed, 8)
    ensures LengthBytes(r)[0..4] == LittleEndian(r.nameLength, 4)
    ensures LengthBytes(r)[4..8] == LittleEndian(r.residentLength, 4)
    ensures LengthBytes(r)[8..12] == LittleEndian(r.extentCount, 4)
  {
    hide LittleEndian;
  }

  // Where a candidate's fields stand in its record.
  lemma RecordLayout(c: Candidate, at: u64)
    requires Storable(c)
    ensures var raw := RecordBytes(RecordFor(c, at));
            && |raw| == 48
            && raw[0..8] == LittleEndian(at, 8)
            && raw[8..16] == LittleEndian(c.timestamps.created, 8)
            && raw[16..24] == LittleEndian(c.timestamps.modified, 8)
            && raw[24..32] == LittleEndian(c.timestamps.accessed, 8)
            && raw[32..36] == LittleEndian(|c.name|, 4)
            && raw[36..40] == LittleEndian(|c.residentContent|, 4)
            && raw[40..44] == LittleEndian(|c.extents|, 4)
            && raw[44..48] == [c.confidence, c.source, 0, 0]
  {
    hide LittleEndian, WideBytes, LengthBytes;
    var r := RecordFor(c, at);
    var raw := RecordBytes(r);
    FieldsStand(r);
    assert raw[0..32] == WideBytes(r) && raw[32..44] == LengthBytes(r);
    assert forall i, j :: 0 <= i <= j <= 32 ==> raw[i..j] == raw[0..32][i..j];
    assert forall i, j :: 0 <= i <= j <= 12 ==> raw[32 + i..32 + j] == raw[32..44][i..j];
    assert raw[32 + 0..32 + 4] == LengthBytes(r)[0..4] && raw[32 + 4..32 + 8] == LengthBytes(r)[4..8];
    assert raw[32 + 8..32 + 12] == LengthBytes(r)[8..12];
  }

  // Where an extent stands in the blob entry.
  lemma {:induction false} EntryLayout(c: Candidate, i: nat)
    requires i < |c.extents|
    ensures var entry, at := BlobEntry(c), |c.name| + 16 * i;
            && |entry| == |c.name| + 16 * |c.extents| + |c.residentContent|
            && entry[..|c.name|] == c.name
            && entry[at..at + 8] == LittleEndian(c.extents[i].deviceOffset, 8)
            && entry[at + 8..at + 16] == LittleEndian(c.extents[i].lengthBytes, 8)
            && entry[|c.name| + 16 * |c.extents|..] == c.residentContent
  {
    hide LittleEndian;
    ThreeParts(c.name, ExtentsBytes(c.extents), c.residentContent);
    ExtentStands(c.extents, i);
    var entry, at := BlobEntry(c), |c.name| + 16 * i;
    var raw := ExtentsBytes(c.extents);
    assert entry[at..at + 8] == raw[16 * i..16 * i + 8];
    assert entry[at + 8..at + 16] == raw[16 * i + 8..16 * i + 16];
  }

  lemma {:induction false} ExtentStands(extents: seq<Extent>, i: nat)
    requires i < |extents|
    ensures ExtentsBytes(extents)[16 * i..16 * i + 8] == LittleEndian(extents[i].deviceOffset, 8)
    ensures ExtentsBytes(extents)[16 * i + 8..16 * i + 16] == LittleEndian(extents[i].lengthBytes, 8)
  {
    hide LittleEndian;
    var raw, rest := ExtentsBytes(extents), ExtentsBytes(extents[1..]);
    assert raw == ExtentBytes(extents[0]) + rest;
    if i > 0 {
      ExtentStands(extents[1..], i - 1);
      assert raw[16..] == rest;
      assert raw[16 * i..16 * i + 8] == rest[16 * (i - 1)..16 * (i - 1) + 8];
      assert raw[16 * i + 8..16 * i + 16] == rest[16 * (i - 1) + 8..16 * (i - 1) + 16];
    }
  }

  lemma FieldRoundTrip(before: seq<byte>, value: nat, width: nat, after: seq<byte>)
    requires value < Capacity(width)
    ensures Field(before + LittleEndian(value, width) + after, |before|, width) == value
  {
    LittleEndianRoundTrip(value, width);
    var raw := before + LittleEndian(value, width) + after;
    assert raw[|before|..|before| + width] == LittleEndian(value, width);
  }

  // A field in front of what follows it.
  lemma FieldOfPrefix(before: seq<byte>, after: seq<byte>, at: nat, width: nat)
    requires at + width <= |before|
    ensures Field(before + after, at, width) == Field(before, at, width)
  {
    assert (before + after)[at..at + width] == before[at..at + width];
  }

  lemma FieldOfSuffix(before: seq<byte>, after: seq<byte>, at: nat, width: nat)
    requires at + width <= |after|
    ensures Field(before + after, |before| + at, width) == Field(after, at, width)
  {
    assert (before + after)[|before| + at..|before| + at + width] == after[at..at + width];
  }

  lemma WideFields(r: Record)
    ensures var raw := WideBytes(r);
            && Field(raw, 0x00, 8) == r.blobOffset && Field(raw, 0x08, 8) == r.created
            && Field(raw, 0x10, 8) == r.modified && Field(raw, 0x18, 8) == r.accessed
  {
    CapacityOfFields();
    var a, b, c, d := LittleEndian(r.blobOffset, 8), LittleEndian(r.created, 8),
                      LittleEndian(r.modified, 8), LittleEndian(r.accessed, 8);
    FieldRoundTrip([], r.blobOffset, 8, b + c + d);
    assert [] + a + (b + c + d) == a + b + c + d;
    FieldRoundTrip(a, r.created, 8, c + d);
    assert a + b + (c + d) == a + b + c + d;
    FieldRoundTrip(a + b, r.modified, 8, d);
    FieldRoundTrip(a + b + c, r.accessed, 8, []);
    assert a + b + c + d + [] == a + b + c + d;
  }

  lemma LengthFields(r: Record)
    ensures var raw := LengthBytes(r);
            && Field(raw, 0, 4) == r.nameLength && Field(raw, 4, 4) == r.residentLength
            && Field(raw, 8, 4) == r.extentCount
  {
    CapacityOfFields();
    var a, b, c := LittleEndian(r.nameLength, 4), LittleEndian(r.residentLength, 4), LittleEndian(r.extentCount, 4);
    FieldRoundTrip([], r.nameLength, 4, b + c);
    assert [] + a + (b + c) == a + b + c;
    FieldRoundTrip(a, r.residentLength, 4, c);
    FieldRoundTrip(a + b, r.extentCount, 4, []);
    assert a + b + c + [] == a + b + c;
  }

  lemma RecordWideFields(r: Record)
    ensures var raw := RecordBytes(r);
            && Field(raw, 0x00, 8) == r.blobOffset && Field(raw, 0x08, 8) == r.created
            && Field(raw, 0x10, 8) == r.modified && Field(raw, 0x18, 8) == r.accessed
  {
    var wide := WideBytes(r);
    var rest := LengthBytes(r) + [r.confidence, r.source, 0, 0];
    assert RecordBytes(r) == wide + rest;
    WideFields(r);
    FieldOfPrefix(wide, rest, 0x00, 8);
    FieldOfPrefix(wide, rest, 0x08, 8);
    FieldOfPrefix(wide, rest, 0x10, 8);
    FieldOfPrefix(wide, rest, 0x18, 8);
  }

  lemma RecordNarrowFields(r: Record)
    ensures var raw := RecordBytes(r);
            && Field(raw, 0x20, 4) == r.nameLength && Field(raw, 0x24, 4) == r.residentLength
            && Field(raw, 0x28, 4) == r.extentCount
            && raw[0x2C] == r.confidence && raw[0x2D] == r.source
  {
    var front := WideBytes(r) + LengthBytes(r);
    LengthFields(r);
    FieldOfSuffix(WideBytes(r), LengthBytes(r), 0, 4);
    FieldOfSuffix(WideBytes(r), LengthBytes(r), 4, 4);
    FieldOfSuffix(WideBytes(r), LengthBytes(r), 8, 4);
    FieldOfPrefix(front, [r.confidence, r.source, 0, 0], 0x20, 4);
    FieldOfPrefix(front, [r.confidence, r.source, 0, 0], 0x24, 4);
    FieldOfPrefix(front, [r.confidence, r.source, 0, 0], 0x28, 4);
  }

  lemma RecordRoundTrip(r: Record)
    ensures DecodeRecord(RecordBytes(r)) == r
  {
    RecordWideFields(r);
    RecordNarrowFields(r);
  }

  lemma ExtentRoundTrip(extent: Extent, rest: seq<byte>)
    ensures Field(ExtentBytes(extent) + rest, 0, 8) == extent.deviceOffset
    ensures Field(ExtentBytes(extent) + rest, 8, 8) == extent.lengthBytes
  {
    CapacityOfFields();
    var a, b := LittleEndian(extent.deviceOffset, 8), LittleEndian(extent.lengthBytes, 8);
    FieldRoundTrip([], extent.deviceOffset, 8, b + rest);
    assert [] + a + (b + rest) == a + b + rest;
    FieldRoundTrip(a, extent.lengthBytes, 8, rest);
  }

  lemma {:induction false} ExtentsRoundTrip(extents: seq<Extent>)
    ensures ExtentsIn(ExtentsBytes(extents), |extents|) == extents
  {
    if extents == [] {
    } else {
      var rest := ExtentsBytes(extents[1..]);
      ExtentRoundTrip(extents[0], rest);
      assert (ExtentBytes(extents[0]) + rest)[EXTENT_BYTES..] == rest;
      ExtentsRoundTrip(extents[1..]);
    }
  }

  // Each length fits the 32-bit field it is stored in.
  predicate Storable(c: Candidate) {
    |c.name| < U32_LIMIT && |c.residentContent| < U32_LIMIT && |c.extents| < U32_LIMIT
  }

  // The bounds the reader enforces on what it materializes.
  predicate InBounds(c: Candidate) {
    && |c.name| <= MAX_NAME_BYTES
    && |c.extents| <= MAX_EXTENTS
    && |c.residentContent| <= MAX_RESIDENT_BYTES
  }

  function Readable(c: Candidate): Option<Candidate> {
    if InBounds(c) then Some(c) else None
  }

  // A record that says where its entry is, over a blob that holds it there.
  ghost predicate RecordHolds(raw: seq<byte>, blob: seq<byte>, c: Candidate)
    requires |raw| == RECORD_BYTES
  {
    var at := WideField(raw, 0);
    && at + |BlobEntry(c)| <= |blob|
    && blob[at..at + |BlobEntry(c)|] == BlobEntry(c)
    && raw == RecordBytes(RecordFor(c, at))
  }

  lemma FreshRecordHolds(blob: seq<byte>, at: u64, c: Candidate)
    requires at + |BlobEntry(c)| <= |blob|
    requires blob[at..at + |BlobEntry(c)|] == BlobEntry(c)
    ensures RecordHolds(RecordBytes(RecordFor(c, at)), blob, c)
  {
    RecordRoundTrip(RecordFor(c, at));
  }

  lemma ThreeParts(a: seq<byte>, b: seq<byte>, c: seq<byte>)
    ensures (a + b + c)[..|a|] == a && (a + b + c)[|a|..|a| + |b|] == b && (a + b + c)[|a| + |b|..] == c
  {
  }

  lemma CandidateRoundTrip(c: Candidate, at: u64)
    requires Storable(c)
    ensures EntryBytes(RecordFor(c, at)) == |BlobEntry(c)|
    ensures DecodeCandidate(RecordFor(c, at), BlobEntry(c)) == c
  {
    hide ExtentsBytes, ExtentsIn;
    ThreeParts(c.name, ExtentsBytes(c.extents), c.residentContent);
    ExtentsRoundTrip(c.extents);
  }

  // What a held record reads back as: the candidate, or a counted drop when the
  // candidate is larger than the reader admits.
  lemma HeldRecordIsRead(raw: seq<byte>, blob: seq<byte>, c: Candidate)
    requires |raw| == RECORD_BYTES && Storable(c) && RecordHolds(raw, blob, c)
    ensures ReadCandidate(DecodeRecord(raw), blob) == Readable(c)
  {
    var at := WideField(raw, 0);
    RecordRoundTrip(RecordFor(c, at));
    CandidateRoundTrip(c, at);
    hide DecodeRecord, RecordBytes, DecodeCandidate, BlobEntry, WideField;
    assert |c.name| % U32_LIMIT == |c.name| && |c.extents| % U32_LIMIT == |c.extents|;
  }

  // The first records of the file are exactly those of `candidates`.
  ghost predicate Holds(records: seq<byte>, blob: seq<byte>, candidates: seq<Candidate>) {
    && |records| >= AreaBytes(|candidates|)
    && records[..HEADER_BYTES] == HeaderBytes()
    && forall i :: 0 <= i < |candidates| ==> RecordHolds(RecordAt(records, i), blob, candidates[i])
  }

  function Kept(candidates: seq<Candidate>): seq<Candidate> {
    if candidates == [] then []
    else if InBounds(candidates[|candidates| - 1])
    then Kept(candidates[..|candidates| - 1]) + [candidates[|candidates| - 1]]
    else Kept(candidates[..|candidates| - 1])
  }

  lemma {:induction false} KeptOfInBounds(candidates: seq<Candidate>)
    ensures |Kept(candidates)| <= |candidates|
    ensures (forall c :: c in candidates ==> InBounds(c)) ==> Kept(candidates) == candidates
  {
    if candidates == [] {
    } else {
      KeptOfInBounds(candidates[..|candidates| - 1]);
      assert candidates == candidates[..|candidates| - 1] + [candidates[|candidates| - 1]];
    }
  }

  ghost predicate AllStorable(candidates: seq<Candidate>) {
    forall i :: 0 <= i < |candidates| ==> Storable(candidates[i])
  }

  lemma {:induction false} HeldRecordsAreRead(records: seq<byte>, blob: seq<byte>, candidates: seq<Candidate>, n: nat)
    requires Holds(records, blob, candidates) && AllStorable(candidates) && n <= |candidates|
    ensures ReadFirst(records, blob, n).candidates == Kept(candidates[..n])
    ensures ReadFirst(records, blob, n).droppedRecords
            == n - |Kept(candidates[..n])| + (if IsTorn(|records|) then 1 else 0)
  {
    hide RecordHolds, ReadCandidate, DecodeRecord, Storable, InBounds, HeaderBytes;
    if n == 0 {
    } else {
      HeldRecordsAreRead(records, blob, candidates, n - 1);
      HeldRecordIsRead(RecordAt(records, n - 1), blob, candidates[n - 1]);
      assert candidates[..n][..n - 1] == candidates[..n - 1];
    }
  }

  // What reading an index back yields.
  function Expected(candidates: seq<Candidate>, torn: bool): Result<IndexContents> {
    if |candidates| > MAX_INDEXED_CANDIDATES then Err(OutOfRange, 0)
    else
      KeptOfInBounds(candidates);
      Ok(IndexContents(Kept(candidates), |candidates| - |Kept(candidates)| + if torn then 1 else 0))
  }

  lemma WholeRecords(size: nat, whole: nat)
    requires AreaBytes(whole) <= size < AreaBytes(whole + 1)
    ensures WholeRecordsIn(size) == whole
    ensures IsTorn(size) <==> size != AreaBytes(whole)
  {
  }

  lemma HeldRecordCount(records: seq<byte>)
    requires |records| >= HEADER_BYTES && records[..HEADER_BYTES] == HeaderBytes()
    ensures RecordCount(records)
            == if WholeRecordsIn(|records|) > MAX_INDEXED_CANDIDATES then Err(OutOfRange, 0)
               else Ok(WholeRecordsIn(|records|))
  {
    HeaderIsRead();
  }

  // An index whose whole records are `candidates` reads back as them, whatever
  // part of one more record follows.
  lemma HeldIndexIsRead(records: seq<byte>, blob: seq<byte>, candidates: seq<Candidate>)
    requires Holds(records, blob, candidates) && AllStorable(candidates)
    requires |records| < AreaBytes(|candidates| + 1)
    ensures IndexIn(records, blob) == Expected(candidates, |records| != AreaBytes(|candidates|))
  {
    hide RecordHolds, HeaderIsOurs, ReadFirst;
    HeldRecordCount(records);
    WholeRecords(|records|, |candidates|);
    if |candidates| <= MAX_INDEXED_CANDIDATES {
      HeldRecordsAreRead(records, blob, candidates, |candidates|);
      assert candidates[..|candidates|] == candidates;
    }
  }

  // ---- Torn files ----

  // Every entry the first records point at lies inside the blob's first bytes.
  ghost predicate EntriesWithin(records: seq<byte>, candidates: seq<Candidate>, blobBytes: nat)
    requires |records| >= AreaBytes(|candidates|)
  {
    forall i :: 0 <= i < |candidates| ==>
      WideField(RecordAt(records, i), 0) + |BlobEntry(candidates[i])| <= blobBytes
  }

  lemma CutRecordHolds(raw: seq<byte>, blob: seq<byte>, blobBytes: nat, c: Candidate)
    requires |raw| == RECORD_BYTES && blobBytes <= |blob| && RecordHolds(raw, blob, c)
    requires WideField(raw, 0) + |BlobEntry(c)| <= blobBytes
    ensures RecordHolds(raw, blob[..blobBytes], c)
  {
    var at := WideField(raw, 0);
    assert blob[..blobBytes][at..at + |BlobEntry(c)|] == blob[at..at + |BlobEntry(c)|];
  }

  // Cutting the record file at any byte past the header, and the blob anywhere
  // that keeps the surviving entries, yields exactly the candidates of the whole
  // records left, with one drop counted exactly when part of a record remains.
  lemma TornIndexReadsItsPrefix(
    records: seq<byte>, blob: seq<byte>, candidates: seq<Candidate>, cut: nat, blobCut: nat)
    requires Holds(records, blob, candidates) && AllStorable(candidates)
    requires |records| == AreaBytes(|candidates|)
    requires HEADER_BYTES <= cut <= |records| && blobCut <= |blob|
    requires EntriesWithin(records, candidates[..WholeRecordsIn(cut)], blobCut)
    ensures IndexIn(records[..cut], blob[..blobCut])
            == Expected(candidates[..WholeRecordsIn(cut)], IsTorn(cut))
  {
    var whole := WholeRecordsIn(cut);
    assert records[..cut][..HEADER_BYTES] == records[..HEADER_BYTES];
    forall i | 0 <= i < whole
      ensures RecordHolds(RecordAt(records[..cut], i), blob[..blobCut], candidates[..whole][i])
    {
      assert RecordAt(records[..cut], i) == RecordAt(records, i);
      CutRecordHolds(RecordAt(records, i), blob, blobCut, candidates[i]);
    }
    HeldIndexIsRead(records[..cut], blob[..blobCut], candidates[..whole]);
  }

  // ---- Growing and truncating ----

  lemma HoldsAfterGrowth(
    records: seq<byte>, blob: seq<byte>, candidates: seq<Candidate>, records': seq<byte>, blob': seq<byte>)
    requires Holds(records, blob, candidates) && blob <= blob'
    requires |records'| >= AreaBytes(|candidates|)
    requires records'[..AreaBytes(|candidates|)]
             == records[..AreaBytes(|candidates|)]
    ensures Holds(records', blob', candidates)
  {
    var kept := AreaBytes(|candidates|);
    assert records'[..HEADER_BYTES] == records'[..kept][..HEADER_BYTES] == records[..HEADER_BYTES];
    forall i | 0 <= i < |candidates|
      ensures RecordHolds(RecordAt(records', i), blob', candidates[i])
    {
      assert RecordAt(records', i) == records'[..kept][AreaBytes(i)..AreaBytes(i + 1)];
      assert RecordAt(records, i) == records[..kept][AreaBytes(i)..AreaBytes(i + 1)];
      var at := WideField(RecordAt(records, i), 0);
      var size := |BlobEntry(candidates[i])|;
      assert blob'[at..at + size] == blob'[..|blob|][at..at + size];
    }
  }

  // One more entry, then one more record: the index holds one more candidate.
  lemma HoldsAfterAppend(records: seq<byte>, blob: seq<byte>, candidates: seq<Candidate>, c: Candidate)
    requires Holds(records, blob, candidates)
    requires |records| == AreaBytes(|candidates|) && |blob| < U64_LIMIT
    ensures Holds(records + RecordBytes(RecordFor(c, |blob|)), blob + BlobEntry(c), candidates + [c])
  {
    var records' := records + RecordBytes(RecordFor(c, |blob|));
    var blob' := blob + BlobEntry(c);
    HoldsAfterGrowth(records, blob, candidates, records', blob');
    FreshRecordHolds(blob', |blob|, c);
    forall i | 0 <= i < |candidates + [c]|
      ensures RecordHolds(RecordAt(records', i), blob', (candidates + [c])[i])
    {
      if i == |candidates| {
        assert RecordAt(records', i) == RecordBytes(RecordFor(c, |blob|));
      }
    }
  }
}
