// The PNG chunk walk, from the signature to IEND; and that the carver calls
// Valid exactly the bytes that are a whole chunk list.
module Png {
  import opened Bytes
  import opened Outcomes
  import opened Candidates
  import Crc
  import CrcResidue

  const SIGNATURE: seq<byte> := [0x89, 0x50, 0x4E, 0x47, 0x0D, 0x0A, 0x1A, 0x0A]
  const IHDR: seq<byte> := [0x49, 0x48, 0x44, 0x52]
  const IEND: seq<byte> := [0x49, 0x45, 0x4E, 0x44]
  const MAX_CHUNK_DATA := 0x7FFF_FFFF

  // ---- The walk ----

  // A chunk as located in the data: the bytes its CRC covers, the CRC stored
  // after them, and where the next chunk begins.
  datatype Located = Located(covered: seq<byte>, storedCrc: nat, next: nat)

  datatype WalkOutcome = WalkOutcome(end: nat, sawIhdr: bool, reachedIend: bool)

  function ReadBe32(data: seq<byte>, offset: nat): Option<nat> {
    if InRange(data, offset, 4) then Some(FromBigEndian(data[offset..offset + 4])) else None
  }

  function ReadChunkLength(data: seq<byte>, offset: nat): Option<nat> {
    var length := ReadBe32(data, offset);
    if length.Some? && length.value > MAX_CHUNK_DATA then None else length
  }

  function ReadChunk(data: seq<byte>, offset: nat): (chunk: Option<Located>)
    ensures chunk.Some? ==> |chunk.value.covered| >= 4 && offset + 12 <= chunk.value.next <= |data|
  {
    var length := ReadChunkLength(data, offset);
    if length.None? || !InRange(data, offset + 4, 4 + length.value) then None
    else
      var covered := data[offset + 4..offset + 8 + length.value];
      var stored := ReadBe32(data, offset + 4 + |covered|);
      if stored.None? then None
      else Some(Located(covered, stored.value, offset + 12 + (|covered| - 4)))
  }

  predicate TypeIs(chunk: Located, name: seq<byte>)
    requires |chunk.covered| >= 4
  {
    chunk.covered[..4] == name
  }

  predicate CrcVerifies(chunk: Located) {
    Crc.Reference(chunk.covered) == chunk.storedCrc
  }

  datatype Step = Stop | NotPng | Continue(outcome: WalkOutcome)

  function StepChunk(data: seq<byte>, outcome: WalkOutcome): Step {
    match ReadChunk(data, outcome.end)
    case None => Stop
    case Some(chunk) =>
      if !CrcVerifies(chunk) then Stop
      else if !outcome.sawIhdr && !TypeIs(chunk, IHDR) then NotPng
      else Continue(WalkOutcome(chunk.next, true, TypeIs(chunk, IEND)))
  }

  lemma StepAdvances(data: seq<byte>, outcome: WalkOutcome)
    ensures StepChunk(data, outcome).Continue? ==>
              outcome.end + 12 <= StepChunk(data, outcome).outcome.end <= |data|
  {
  }

  const NOTHING := WalkOutcome(0, false, false)

  function WalkFrom(data: seq<byte>, outcome: WalkOutcome): WalkOutcome
    decreases |data| - outcome.end
  {
    if outcome.reachedIend then outcome
    else
      StepAdvances(data, outcome);
      match StepChunk(data, outcome)
      case Stop => outcome
      case NotPng => NOTHING
      case Continue(next) => WalkFrom(data, next)
  }

  const START := WalkOutcome(8, false, false)

  // One verified chunk folded into the outcome; refused when it should have
  // been IHDR.
  method AcceptChunk(outcome: WalkOutcome, chunk: Located) returns (accepted: bool, folded: WalkOutcome)
    requires |chunk.covered| >= 4
    ensures accepted <==> outcome.sawIhdr || TypeIs(chunk, IHDR)
    ensures folded == if accepted then WalkOutcome(chunk.next, true, TypeIs(chunk, IEND)) else outcome
  {
    folded := outcome;
    if !outcome.sawIhdr && !TypeIs(chunk, IHDR) {
      return false, folded;
    }
    folded := folded.(sawIhdr := true);
    folded := folded.(end := chunk.next);
    folded := folded.(reachedIend := TypeIs(chunk, IEND));
    accepted := true;
  }

  method WalkPngChunks(data: seq<byte>) returns (outcome: WalkOutcome)
    ensures outcome == WalkFrom(data, START)
  {
    hide ReadChunk, TypeIs;
    outcome := START;
    var offset := 8;
    while !outcome.reachedIend
      invariant offset == outcome.end
      invariant WalkFrom(data, outcome) == WalkFrom(data, START)
      decreases |data| - offset, !outcome.reachedIend
    {
      ghost var before := outcome;
      var chunk := ReadChunk(data, offset);
      if chunk.None? {
        return;
      }
      var crc := Crc.Crc32(chunk.value.covered);
      if crc != chunk.value.storedCrc {
        return;
      }
      var accepted;
      accepted, outcome := AcceptChunk(outcome, chunk.value);
      if !accepted {
        return NOTHING;
      }
      offset := chunk.value.next;
      assert StepChunk(data, before) == Continue(outcome);
    }
  }

  function VerdictFor(outcome: WalkOutcome): Verdict {
    if !outcome.sawIhdr then Verdict(0, REJECTED)
    else if outcome.reachedIend then Verdict(outcome.end, VALID)
    else Verdict(outcome.end, UNCERTAIN)
  }

  predicate HeadMatches(data: seq<byte>) {
    |data| >= 8 && data[..8] == SIGNATURE
  }

  function Carved(data: seq<byte>): Verdict {
    if !HeadMatches(data) then VerdictFor(NOTHING) else VerdictFor(WalkFrom(data, START))
  }

  method Carve(data: seq<byte>) returns (verdict: Verdict)
    ensures verdict == Carved(data)
  {
    if !HeadMatches(data) {
      return VerdictFor(NOTHING);
    }
    var outcome := WalkPngChunks(data);
    verdict := VerdictFor(outcome);
  }

  // ---- What a PNG is ----

  datatype Chunk = Chunk(kind: seq<byte>, payload: seq<byte>)

  function ChunkBytes(chunk: Chunk): (bytes: seq<byte>)
    ensures |bytes| == 8 + |chunk.kind| + |chunk.payload|
  {
    var covered := chunk.kind + chunk.payload;
    BigEndian(|chunk.payload|, 4) + covered + BigEndian(Crc.Reference(covered), 4)
  }

  function ChunkList(chunks: seq<Chunk>): seq<byte> {
    if chunks == [] then [] else ChunkBytes(chunks[0]) + ChunkList(chunks[1..])
  }

  function File(chunks: seq<Chunk>): seq<byte> {
    [0x89, 0x50, 0x4E, 0x47, 0x0D, 0x0A, 0x1A, 0x0A] + ChunkList(chunks)
  }

  predicate ChunkOk(chunk: Chunk) {
    |chunk.kind| == 4 && |chunk.payload| <= 0x7FFF_FFFF
  }

  predicate ChunksOk(chunks: seq<Chunk>) {
    forall i :: 0 <= i < |chunks| ==> ChunkOk(chunks[i])
  }

  // Chunks of which none ends the list.
  predicate Unended(chunks: seq<Chunk>) {
    ChunksOk(chunks) && forall i :: 0 <= i < |chunks| ==> chunks[i].kind != [0x49, 0x45, 0x4E, 0x44]
  }

  // The first chunk is IHDR, and the last, and only the last, is IEND.
  predicate WholePng(chunks: seq<Chunk>) {
    && |chunks| > 0 && chunks[0].kind == [0x49, 0x48, 0x44, 0x52]
    && ChunkOk(chunks[|chunks| - 1]) && chunks[|chunks| - 1].kind == [0x49, 0x45, 0x4E, 0x44]
    && Unended(chunks[..|chunks| - 1])
  }

  // ---- One chunk ----

  lemma Be32InPlace(data: seq<byte>, offset: nat, value: nat)
    requires value < U32_LIMIT
    ensures At(data, offset, BigEndian(value, 4)) <==> ReadBe32(data, offset) == Some(value)
  {
    CapacityOfFields();
    BigEndianRoundTrip(value, 4);
    if InRange(data, offset, 4) {
      FromBigEndianRoundTrip(data[offset..offset + 4]);
    }
  }

  lemma ChunkBytesInPlace(data: seq<byte>, offset: nat, chunk: Chunk)
    ensures At(data, offset, ChunkBytes(chunk)) <==>
              && At(data, offset, BigEndian(|chunk.payload|, 4))
              && At(data, offset + 4, chunk.kind + chunk.payload)
              && At(data, offset + 4 + |chunk.kind + chunk.payload|, BigEndian(Crc.Reference(chunk.kind + chunk.payload), 4))
  {
    hide At, BigEndian, Crc.Reference;
    var covered := chunk.kind + chunk.payload;
    var length, crc := BigEndian(|chunk.payload|, 4), BigEndian(Crc.Reference(covered), 4);
    AtSplits(data, offset, length + covered, crc);
    AtSplits(data, offset, length, covered);
  }

  // Some chunk's bytes lie at `offset` exactly when the walk reads it there and
  // its CRC verifies.
  lemma ChunkIsRead(data: seq<byte>, offset: nat, chunk: Chunk)
    requires ChunkOk(chunk)
    ensures At(data, offset, ChunkBytes(chunk)) <==>
              && ReadChunk(data, offset).Some?
              && CrcVerifies(ReadChunk(data, offset).value)
              && ReadChunk(data, offset).value.covered == chunk.kind + chunk.payload
  {
    hide BigEndian, FromBigEndian, Crc.Reference;
    var covered := chunk.kind + chunk.payload;
    ChunkBytesInPlace(data, offset, chunk);
    Be32InPlace(data, offset, |chunk.payload|);
    Be32InPlace(data, offset + 4 + |covered|, Crc.Reference(covered));
  }

  lemma ReadIsAChunk(data: seq<byte>, offset: nat) returns (chunk: Chunk)
    requires ReadChunk(data, offset).Some?
    ensures ChunkOk(chunk) && ReadChunk(data, offset).value.covered == chunk.kind + chunk.payload
    ensures ReadChunk(data, offset).value.next == offset + |ChunkBytes(chunk)|
  {
    hide BigEndian, FromBigEndian, Crc.Reference;
    var covered := ReadChunk(data, offset).value.covered;
    chunk := Chunk(covered[..4], covered[4..]);
    assert covered == chunk.kind + chunk.payload;
  }

  lemma EndChunkBytes()
    ensures ChunkBytes(Chunk([0x49, 0x45, 0x4E, 0x44], []))
            == [0, 0, 0, 0, 0x49, 0x45, 0x4E, 0x44, 0xAE, 0x42, 0x60, 0x82]
  {
    CrcResidue.CrcOfIend();
    hide Crc.Reference;
    assert BigEndian(0, 1) == BigEndian(0, 0) + [0] && BigEndian(0, 2) == BigEndian(0, 1) + [0];
    assert BigEndian(0, 3) == BigEndian(0, 2) + [0] && BigEndian(0, 4) == BigEndian(0, 3) + [0];
    assert BigEndian(0xAE, 1) == BigEndian(0, 0) + [0xAE] && BigEndian(0xAE42, 2) == BigEndian(0xAE, 1) + [0x42];
    assert BigEndian(0xAE_4260, 3) == BigEndian(0xAE42, 2) + [0x60];
    assert BigEndian(0xAE42_6082, 4) == BigEndian(0xAE_4260, 3) + [0x82];
    assert [0x49 as byte, 0x45, 0x4E, 0x44] + [] == [0x49, 0x45, 0x4E, 0x44];
  }

  // The twelve bytes every PNG ends in are read as its end wherever they lie.
  lemma EndChunkIsRead(data: seq<byte>, outcome: WalkOutcome)
    requires At(data, outcome.end, [0, 0, 0, 0, 0x49, 0x45, 0x4E, 0x44, 0xAE, 0x42, 0x60, 0x82])
    ensures outcome.sawIhdr ==> StepChunk(data, outcome) == Continue(WalkOutcome(outcome.end + 12, true, true))
    ensures !outcome.sawIhdr ==> StepChunk(data, outcome) == NotPng
  {
    EndChunkBytes();
    hide ChunkBytes, At, Crc.Reference;
    StepIsAChunk(data, outcome, Chunk([0x49, 0x45, 0x4E, 0x44], []));
  }

  // A step goes on exactly over the bytes of a chunk, with IHDR first.
  lemma StepIsAChunk(data: seq<byte>, outcome: WalkOutcome, chunk: Chunk)
    requires ChunkOk(chunk) && At(data, outcome.end, ChunkBytes(chunk))
    ensures StepChunk(data, outcome)
            == if outcome.sawIhdr || chunk.kind == IHDR
               then Continue(WalkOutcome(outcome.end + |ChunkBytes(chunk)|, true, chunk.kind == IEND))
               else NotPng
  {
    hide Crc.Reference, BigEndian, FromBigEndian, At;
    ChunkIsRead(data, outcome.end, chunk);
    var read := ReadIsAChunk(data, outcome.end);
    var covered := chunk.kind + chunk.payload;
    assert covered[..4] == chunk.kind && |covered| == 4 + |chunk.payload|;
    assert |read.kind + read.payload| == 4 + |read.payload|;
  }

  lemma StepTookAChunk(data: seq<byte>, outcome: WalkOutcome) returns (chunk: Chunk)
    requires StepChunk(data, outcome).Continue?
    ensures ChunkOk(chunk) && At(data, outcome.end, ChunkBytes(chunk))
    ensures outcome.sawIhdr || chunk.kind == IHDR
    ensures StepChunk(data, outcome).outcome
            == WalkOutcome(outcome.end + |ChunkBytes(chunk)|, true, chunk.kind == IEND)
  {
    hide Crc.Reference, BigEndian, FromBigEndian, At;
    chunk := ReadIsAChunk(data, outcome.end);
    ChunkIsRead(data, outcome.end, chunk);
    StepIsAChunk(data, outcome, chunk);
  }

  // ---- The whole list ----

  // No chunk that verifies begins at `offset`.
  ghost predicate NoChunkAt(data: seq<byte>, offset: nat) {
    forall chunk: Chunk :: ChunkOk(chunk) ==> !At(data, offset, ChunkBytes(chunk))
  }

  lemma NothingReadsNoChunk(data: seq<byte>, outcome: WalkOutcome)
    requires StepChunk(data, outcome).Stop?
    ensures NoChunkAt(data, outcome.end)
  {
    hide At, ChunkBytes, StepChunk;
    forall chunk: Chunk | ChunkOk(chunk)
      ensures !At(data, outcome.end, ChunkBytes(chunk))
    {
      if At(data, outcome.end, ChunkBytes(chunk)) {
        StepIsAChunk(data, outcome, chunk);
        assert false;
      }
    }
  }

  lemma NoChunkStops(data: seq<byte>, outcome: WalkOutcome)
    requires NoChunkAt(data, outcome.end)
    ensures StepChunk(data, outcome).Stop?
  {
    hide At, ChunkBytes;
    if ReadChunk(data, outcome.end).Some? {
      var chunk := ReadIsAChunk(data, outcome.end);
      ChunkIsRead(data, outcome.end, chunk);
    }
  }

  // The chunks of a whole list end in its only IEND; those of a cut one have none.
  predicate Listed(chunks: seq<Chunk>, ended: bool) {
    if ended
    then && |chunks| > 0 && ChunkOk(chunks[|chunks| - 1]) && chunks[|chunks| - 1].kind == IEND
         && Unended(chunks[..|chunks| - 1])
    else Unended(chunks)
  }

  // The chunks the walk takes: a whole list, or those up to where no further
  // chunk verifies.
  ghost predicate Taken(data: seq<byte>, offset: nat, chunks: seq<Chunk>, ended: bool) {
    && At(data, offset, ChunkList(chunks))
    && Listed(chunks, ended)
    && (!ended ==> NoChunkAt(data, offset + |ChunkList(chunks)|))
  }

  lemma ListedRest(chunks: seq<Chunk>, ended: bool)
    requires Listed(chunks, ended) && chunks != []
    ensures ChunkOk(chunks[0])
    ensures chunks[0].kind == IEND <==> ended && |chunks| == 1
    ensures chunks[0].kind != IEND ==> Listed(chunks[1..], ended)
  {
    hide ChunkOk;
    var body, rest := chunks[..|chunks| - 1], chunks[1..];
    if ended && |chunks| > 1 {
      assert body[0] == chunks[0];
      assert rest[..|rest| - 1] == body[1..];
    }
  }

  lemma ListedInFront(chunk: Chunk, rest: seq<Chunk>, ended: bool)
    requires ChunkOk(chunk) && chunk.kind != IEND && Listed(rest, ended)
    ensures Listed([chunk] + rest, ended)
  {
    hide ChunkOk;
    var chunks := [chunk] + rest;
    if ended {
      assert chunks[..|chunks| - 1] == [chunk] + rest[..|rest| - 1];
    }
  }

  lemma TakenRest(data: seq<byte>, offset: nat, chunks: seq<Chunk>, ended: bool)
    requires Taken(data, offset, chunks, ended) && chunks != []
    ensures ChunkOk(chunks[0]) && At(data, offset, ChunkBytes(chunks[0]))
    ensures chunks[0].kind == IEND <==> ended && |chunks| == 1
    ensures chunks[0].kind != IEND ==> Taken(data, offset + |ChunkBytes(chunks[0])|, chunks[1..], ended)
    ensures |ChunkList(chunks)| == |ChunkBytes(chunks[0])| + |ChunkList(chunks[1..])|
  {
    hide At, ChunkBytes, ChunkOk, NoChunkAt, Listed;
    AtSplits(data, offset, ChunkBytes(chunks[0]), ChunkList(chunks[1..]));
    ListedRest(chunks, ended);
  }

  lemma {:induction false} WalkTakes(data: seq<byte>, outcome: WalkOutcome, chunks: seq<Chunk>, ended: bool)
    requires Taken(data, outcome.end, chunks, ended) && !outcome.reachedIend
    requires outcome.sawIhdr || (chunks != [] && chunks[0].kind == IHDR)
    ensures WalkFrom(data, outcome) == WalkOutcome(outcome.end + |ChunkList(chunks)|, true, ended)
    decreases |chunks|
  {
    hide At, ChunkBytes, ChunkOk, StepChunk, NoChunkAt;
    if chunks == [] {
      NoChunkStops(data, outcome);
    } else {
      TakenRest(data, outcome.end, chunks, ended);
      StepIsAChunk(data, outcome, chunks[0]);
      if chunks[0].kind != IEND {
        WalkTakes(data, StepChunk(data, outcome).outcome, chunks[1..], ended);
      }
    }
  }

  lemma TakenInFront(data: seq<byte>, offset: nat, chunk: Chunk, rest: seq<Chunk>, ended: bool)
    requires ChunkOk(chunk) && At(data, offset, ChunkBytes(chunk)) && chunk.kind != IEND
    requires Taken(data, offset + |ChunkBytes(chunk)|, rest, ended)
    ensures Taken(data, offset, [chunk] + rest, ended)
    ensures |ChunkList([chunk] + rest)| == |ChunkBytes(chunk)| + |ChunkList(rest)|
  {
    hide At, ChunkBytes, ChunkOk, NoChunkAt, Listed;
    assert ([chunk] + rest)[1..] == rest;
    AtSplits(data, offset, ChunkBytes(chunk), ChunkList(rest));
    ListedInFront(chunk, rest, ended);
  }

  lemma LastTaken(data: seq<byte>, offset: nat, chunk: Chunk)
    requires ChunkOk(chunk) && At(data, offset, ChunkBytes(chunk)) && chunk.kind == IEND
    ensures Taken(data, offset, [chunk], true) && ChunkList([chunk]) == ChunkBytes(chunk)
  {
    hide At, ChunkBytes, ChunkOk;
    assert [chunk][1..] == [];
    assert ChunkList([chunk]) == ChunkBytes(chunk) + [] == ChunkBytes(chunk);
    assert Unended([chunk][..0]);
  }

  // The converse: what any walk that saw IHDR took.
  lemma {:induction false} WalkTook(data: seq<byte>, outcome: WalkOutcome) returns (chunks: seq<Chunk>)
    requires !outcome.reachedIend && WalkFrom(data, outcome).sawIhdr && outcome.end <= |data|
    ensures Taken(data, outcome.end, chunks, WalkFrom(data, outcome).reachedIend)
    ensures WalkFrom(data, outcome).end == outcome.end + |ChunkList(chunks)|
    ensures outcome.sawIhdr || (chunks != [] && chunks[0].kind == IHDR)
    decreases |data| - outcome.end
  {
    hide At, ChunkBytes, ChunkOk, StepChunk, NoChunkAt, Taken;
    StepAdvances(data, outcome);
    match StepChunk(data, outcome)
    case Stop =>
      NothingReadsNoChunk(data, outcome);
      NoneTaken(data, outcome.end);
      chunks := [];
    case Continue(next) =>
      var chunk := StepTookAChunk(data, outcome);
      if next.reachedIend {
        LastTaken(data, outcome.end, chunk);
        chunks := [chunk];
      } else {
        var rest := WalkTook(data, next);
        TakenInFront(data, outcome.end, chunk, rest, WalkFrom(data, outcome).reachedIend);
        chunks := [chunk] + rest;
      }
  }

  lemma NoneTaken(data: seq<byte>, offset: nat)
    requires NoChunkAt(data, offset) && offset <= |data|
    ensures Taken(data, offset, [], false) && ChunkList([]) == []
  {
    hide NoChunkAt;
  }

  lemma FileInPlace(data: seq<byte>, chunks: seq<Chunk>)
    ensures At(data, 0, File(chunks)) <==> HeadMatches(data) && At(data, 8, ChunkList(chunks))
  {
    AtSplits(data, 0, SIGNATURE, ChunkList(chunks));
  }

  // ---- The carver's verdict, exactly ----

  // A whole PNG is carved to its exact length, whatever bytes follow it.
  lemma WholePngIsCarved(chunks: seq<Chunk>, trailing: seq<byte>)
    requires WholePng(chunks)
    ensures Carved(File(chunks) + trailing) == Verdict(|File(chunks)|, VALID)
  {
    hide ChunkList, Unended, ChunkOk, WalkFrom;
    var data := File(chunks) + trailing;
    assert data[0..|File(chunks)|] == File(chunks);
    FileInPlace(data, chunks);
    WalkTakes(data, START, chunks, true);
  }

  // And nothing else is called Valid.
  lemma ValidIsAWholePng(data: seq<byte>) returns (chunks: seq<Chunk>)
    requires Carved(data).confidence == VALID
    ensures WholePng(chunks)
    ensures Carved(data).length == |File(chunks)| <= |data| && data[..Carved(data).length] == File(chunks)
  {
    hide ChunkList, Unended, ChunkOk, WalkFrom;
    chunks := WalkTook(data, START);
    FileInPlace(data, chunks);
  }

  // Uncertain is the longest prefix that can be trusted: an IHDR and the chunks
  // after it, none of them IEND, up to where no chunk verifies any more.
  lemma UncertainIsAPrefix(data: seq<byte>) returns (chunks: seq<Chunk>)
    requires Carved(data).confidence == UNCERTAIN
    ensures chunks != [] && chunks[0].kind == IHDR && Unended(chunks)
    ensures Carved(data).length == |File(chunks)| <= |data| && data[..Carved(data).length] == File(chunks)
    ensures NoChunkAt(data, Carved(data).length)
  {
    hide ChunkList, Unended, ChunkOk, WalkFrom, NoChunkAt;
    chunks := WalkTook(data, START);
    FileInPlace(data, chunks);
  }

  lemma TruncatedPngIsAPrefix(data: seq<byte>, chunks: seq<Chunk>)
    requires chunks != [] && chunks[0].kind == IHDR && Unended(chunks)
    requires At(data, 0, File(chunks)) && NoChunkAt(data, |File(chunks)|)
    ensures Carved(data) == Verdict(|File(chunks)|, UNCERTAIN)
  {
    hide ChunkList, Unended, ChunkOk, WalkFrom, NoChunkAt, At;
    FileInPlace(data, chunks);
    WalkTakes(data, START, chunks, false);
  }

  // ---- And rejected is everything else ----

  // The data begins with the signature and an IHDR that verifies.
  ghost predicate Begins(data: seq<byte>, chunk: Chunk) {
    && ChunkOk(chunk) && chunk.kind == [0x49, 0x48, 0x44, 0x52]
    && At(data, 0, [0x89, 0x50, 0x4E, 0x47, 0x0D, 0x0A, 0x1A, 0x0A]) && At(data, 8, ChunkBytes(chunk))
  }

  lemma {:induction false} SeenStaysSeen(data: seq<byte>, outcome: WalkOutcome)
    requires outcome.sawIhdr
    ensures WalkFrom(data, outcome).sawIhdr
    decreases |data| - outcome.end
  {
    StepAdvances(data, outcome);
    if !outcome.reachedIend && StepChunk(data, outcome).Continue? {
      SeenStaysSeen(data, StepChunk(data, outcome).outcome);
    }
  }

  // Nothing is claimed of data exactly when it does not begin so.
  lemma RejectedExactly(data: seq<byte>)
    ensures Carved(data) == Verdict(0, REJECTED) <==> forall chunk :: !Begins(data, chunk)
    ensures Carved(data).confidence == REJECTED ==> Carved(data).length == 0
  {
    hide ChunkOk, WalkFrom, At, ChunkBytes;
    SignatureInPlace(data);
    if chunk :| Begins(data, chunk) {
      StepIsAChunk(data, START, chunk);
      SeenStaysSeen(data, StepChunk(data, START).outcome);
      WalkOn(data, START);
    }
    if HeadMatches(data) && WalkFrom(data, START).sawIhdr {
      var chunk := SeenBegan(data);
    }
  }

  lemma SeenBegan(data: seq<byte>) returns (chunk: Chunk)
    requires HeadMatches(data) && WalkFrom(data, START).sawIhdr
    ensures Begins(data, chunk)
  {
    hide ChunkOk, WalkFrom, At, ChunkBytes;
    SignatureInPlace(data);
    var chunks := WalkTook(data, START);
    TakenRest(data, 8, chunks, WalkFrom(data, START).reachedIend);
    chunk := chunks[0];
  }

  lemma SignatureInPlace(data: seq<byte>)
    ensures At(data, 0, [0x89, 0x50, 0x4E, 0x47, 0x0D, 0x0A, 0x1A, 0x0A]) <==> HeadMatches(data)
  {
  }

  lemma WalkOn(data: seq<byte>, outcome: WalkOutcome)
    requires !outcome.reachedIend && StepChunk(data, outcome).Continue?
    ensures WalkFrom(data, outcome) == WalkFrom(data, StepChunk(data, outcome).outcome)
  {
  }
}
