// What a whole JPEG is to the walk.
module JpegGrammar {
  import opened Bytes
  import opened Outcomes
  import opened Candidates
  import opened Jpeg

  // A list of markers with their fill bytes, length-prefixed segments and stuffed
  // scans, ending in EOI. The carver recovers exactly the extent of one, whatever
  // follows it.

  // One unit of entropy-coded data.
  datatype Unit = Plain(value: byte) | Stuffed | Restart(code: byte)

  // A marker, behind `fill` extra 0xFF bytes, with what it carries.
  datatype Item =
    | Standalone(fill: nat, code: byte)
    | Segment(fill: nat, code: byte, payload: seq<byte>)
    | Scan(fill: nat, payload: seq<byte>, entropy: seq<Unit>)

  // ---- Serialized ----

  function UnitBytes(u: Unit): seq<byte> {
    match u
    case Plain(value) => [value]
    case Stuffed => [0xFF, 0x00]
    case Restart(code) => [0xFF, code]
  }

  function EntropyBytes(units: seq<Unit>): seq<byte> {
    if units == [] then [] else UnitBytes(units[0]) + EntropyBytes(units[1..])
  }

  function Fill(count: nat): (bytes: seq<byte>)
    ensures |bytes| == count && forall i :: 0 <= i < count ==> bytes[i] == 0xFF
  {
    seq(count, _ => 0xFF)
  }

  // A marker is its fill, one more 0xFF, and its code.
  function MarkerBytes(fill: nat, code: byte): (bytes: seq<byte>)
    ensures |bytes| == fill + 2
  {
    Fill(fill + 1) + [code]
  }

  function SegmentBytes(payload: seq<byte>): (bytes: seq<byte>)
    ensures |bytes| == |payload| + 2
  {
    BigEndian(|payload| + 2, 2) + payload
  }

  function ItemBytes(item: Item): seq<byte> {
    match item
    case Standalone(fill, code) => MarkerBytes(fill, code)
    case Segment(fill, code, payload) => MarkerBytes(fill, code) + SegmentBytes(payload)
    case Scan(fill, payload, entropy) => MarkerBytes(fill, 0xDA) + SegmentBytes(payload) + EntropyBytes(entropy)
  }

  // Everything after SOI: the items, then EOI behind its own fill.
  function Body(items: seq<Item>, eoiFill: nat): seq<byte> {
    if items == [] then MarkerBytes(eoiFill, 0xD9)
    else ItemBytes(items[0]) + Body(items[1..], eoiFill)
  }

  function File(items: seq<Item>, eoiFill: nat): seq<byte> {
    [0xFF, 0xD8] + Body(items, eoiFill)
  }

  // ---- Well formed ----

  // RST0 to RST7, and the codes with nothing behind them: those and TEM (table
  // B.1 of T.81).
  predicate RestartCode(code: byte) {
    0xD0 <= code <= 0xD7
  }

  predicate LoneCode(code: byte) {
    code == 0x01 || RestartCode(code)
  }

  predicate UnitOk(u: Unit) {
    match u
    case Plain(value) => value != 0xFF
    case Stuffed => true
    case Restart(code) => RestartCode(code)
  }

  predicate PayloadOk(payload: seq<byte>) {
    |payload| + 2 < 0x1_0000
  }

  predicate ItemOk(item: Item) {
    match item
    case Standalone(_, code) => LoneCode(code)
    case Segment(_, code, payload) =>
      && code != 0xFF && code != 0xD9 && code != 0xDA && !LoneCode(code)
      && PayloadOk(payload)
    case Scan(_, payload, entropy) => PayloadOk(payload) && forall i :: 0 <= i < |entropy| ==> UnitOk(entropy[i])
  }

  // Right after entropy data a marker must not read as stuffing or a restart.
  predicate EndsEntropy(fill: nat, code: byte) {
    fill > 0 || (code != 0x00 && !RestartCode(code))
  }

  predicate ItemEndsEntropy(item: Item) {
    match item
    case Standalone(fill, code) => EndsEntropy(fill, code)
    case Segment(fill, code, _) => EndsEntropy(fill, code)
    case Scan(_, _, _) => true
  }

  ghost predicate WellFormed(items: seq<Item>) {
    && (forall i :: 0 <= i < |items| ==> ItemOk(items[i]))
    && (forall i :: 0 <= i < |items| - 1 && items[i].Scan? ==> ItemEndsEntropy(items[i + 1]))
  }

  predicate HasScan(items: seq<Item>) {
    exists i :: 0 <= i < |items| && items[i].Scan?
  }

  // ---- Each production is walked over exactly ----

  lemma {:induction false} FillIsSkipped(data: seq<byte>, pos: nat, fill: nat)
    requires pos + fill + 1 < |data|
    requires forall i :: pos <= i <= pos + fill ==> data[i] == MARKER_PREFIX
    requires data[pos + fill + 1] != MARKER_PREFIX
    ensures LastFill(data, pos) == pos + fill
    decreases fill
  {
    if fill == 0 {
    } else {
      FillIsSkipped(data, pos + 1, fill - 1);
    }
  }

  lemma MarkerIsRead(data: seq<byte>, pos: nat, fill: nat, code: byte)
    requires At(data, pos, MarkerBytes(fill, code)) && code != MARKER_PREFIX
    ensures MarkerCode(data, pos) == Some(code) && LastFill(data, pos) == pos + fill
  {
    AtSplits(data, pos, Fill(fill + 1), [code]);
    forall i | pos <= i <= pos + fill
      ensures data[i] == MARKER_PREFIX
    {
      AtIndex(data, pos, Fill(fill + 1), i - pos);
    }
    AtIndex(data, pos + fill + 1, [code], 0);
    FillIsSkipped(data, pos, fill);
  }

  lemma SegmentIsRead(data: seq<byte>, pos: nat, payload: seq<byte>)
    requires At(data, pos, SegmentBytes(payload)) && PayloadOk(payload)
    ensures SegmentEnd(data, pos) == Some(pos + 2 + |payload|)
  {
    AtSplits(data, pos, BigEndian(|payload| + 2, 2), payload);
    CapacityOfFields();
    BigEndianRoundTrip(|payload| + 2, 2);
  }

  lemma {:induction false} EntropyIsRead(data: seq<byte>, pos: nat, units: seq<Unit>)
    requires At(data, pos, EntropyBytes(units))
    requires forall i :: 0 <= i < |units| ==> UnitOk(units[i])
    ensures EntropyEnd(data, pos) == EntropyEnd(data, pos + |EntropyBytes(units)|)
    decreases |units|
  {
    if units == [] {
    } else {
      var head := UnitBytes(units[0]);
      AtSplits(data, pos, head, EntropyBytes(units[1..]));
      AtIndex(data, pos, head, 0);
      if |head| == 2 {
        AtIndex(data, pos, head, 1);
      }
      EntropyIsRead(data, pos + |head|, units[1..]);
    }
  }

  // A marker that cannot read as entropy data is where a scan ends.
  lemma EntropyStopsAt(data: seq<byte>, pos: nat, fill: nat, code: byte)
    requires At(data, pos, MarkerBytes(fill, code)) && EndsEntropy(fill, code)
    ensures EntropyEnd(data, pos) == EntropyOutcome(pos, true)
  {
    AtIndex(data, pos, MarkerBytes(fill, code), 0);
    AtIndex(data, pos, MarkerBytes(fill, code), 1);
  }

  function ItemCode(item: Item): byte {
    match item
    case Standalone(_, code) => code
    case Segment(_, code, _) => code
    case Scan(_, _, _) => 0xDA
  }

  // The rest of a file begins with a marker.
  lemma BodyStarts(data: seq<byte>, pos: nat, items: seq<Item>, eoiFill: nat)
    requires At(data, pos, Body(items, eoiFill))
    ensures items == [] ==> At(data, pos, MarkerBytes(eoiFill, MARKER_EOI))
    ensures items != [] ==>
              && At(data, pos, MarkerBytes(items[0].fill, ItemCode(items[0])))
              && At(data, pos, ItemBytes(items[0]))
              && At(data, pos + |ItemBytes(items[0])|, Body(items[1..], eoiFill))
  {
    hide At, MarkerBytes, SegmentBytes, EntropyBytes;
    if items != [] {
      var item := items[0];
      AtSplits(data, pos, ItemBytes(item), Body(items[1..], eoiFill));
      var marker := MarkerBytes(item.fill, ItemCode(item));
      match item
      case Standalone(_, _) =>
      case Segment(_, _, payload) =>
        AtSplits(data, pos, marker, SegmentBytes(payload));
      case Scan(_, payload, entropy) =>
        AtSplits(data, pos, marker + SegmentBytes(payload), EntropyBytes(entropy));
        AtSplits(data, pos, marker, SegmentBytes(payload));
    }
  }

  // An entropy run stops where the rest of the file begins.
  lemma EntropyStopsAtBody(data: seq<byte>, pos: nat, items: seq<Item>, eoiFill: nat)
    requires At(data, pos, Body(items, eoiFill))
    requires items != [] ==> ItemEndsEntropy(items[0])
    ensures EntropyEnd(data, pos) == EntropyOutcome(pos, true)
  {
    BodyStarts(data, pos, items, eoiFill);
    if items == [] {
      EntropyStopsAt(data, pos, eoiFill, MARKER_EOI);
    } else {
      EntropyStopsAt(data, pos, items[0].fill, ItemCode(items[0]));
    }
  }

  // One step of the walk takes one item.
  lemma ItemIsStepped(data: seq<byte>, w: WalkState, items: seq<Item>, eoiFill: nat)
    requires items != [] && WellFormed(items) && At(data, w.pos, Body(items, eoiFill))
    ensures StepFrom(data, w)
            == Onward(WalkState(w.pos + |ItemBytes(items[0])|, w.sawSos || items[0].Scan?))
  {
    hide At, MarkerBytes, SegmentBytes, EntropyBytes, EntropyEnd, LastFill, SegmentEnd, MarkerCode, Body, UnitOk;
    var item := items[0];
    BodyStarts(data, w.pos, items, eoiFill);
    MarkerIsRead(data, w.pos, item.fill, ItemCode(item));
    var marker := MarkerBytes(item.fill, ItemCode(item));
    match item
    case Standalone(_, _) =>
    case Segment(_, _, payload) =>
      AtSplits(data, w.pos, marker, SegmentBytes(payload));
      SegmentIsRead(data, w.pos + |marker|, payload);
    case Scan(_, payload, entropy) =>
      AtSplits(data, w.pos, marker + SegmentBytes(payload), EntropyBytes(entropy));
      AtSplits(data, w.pos, marker, SegmentBytes(payload));
      SegmentIsRead(data, w.pos + |marker|, payload);
      EntropyIsRead(data, w.pos + |marker + SegmentBytes(payload)|, entropy);
      EntropyStopsAtBody(data, w.pos + |ItemBytes(item)|, items[1..], eoiFill);
  }

  lemma {:induction false} BodyIsWalked(data: seq<byte>, w: WalkState, items: seq<Item>, eoiFill: nat)
    requires WellFormed(items) && At(data, w.pos, Body(items, eoiFill))
    ensures w.pos <= |data|
    ensures WalkFrom(data, w) == WalkOutcome(w.pos + |Body(items, eoiFill)|, w.sawSos || HasScan(items), true)
    decreases |items|
  {
    hide StepFrom, ItemOk, ItemEndsEntropy, At, HasScan;
    assert w.pos <= |data| by { AtIsInside(data, w.pos, Body(items, eoiFill)); }
    BodyStarts(data, w.pos, items, eoiFill);
    if items == [] {
      EoiIsStepped(data, w, eoiFill);
      NoScan();
    } else {
      ItemIsStepped(data, w, items, eoiFill);
      ScanInRest(items);
      BodyIsWalked(data, StepFrom(data, w).at, items[1..], eoiFill);
    }
  }

  lemma EoiIsStepped(data: seq<byte>, w: WalkState, eoiFill: nat)
    requires At(data, w.pos, MarkerBytes(eoiFill, MARKER_EOI))
    ensures StepFrom(data, w) == Finished(WalkState(w.pos + |MarkerBytes(eoiFill, MARKER_EOI)|, w.sawSos))
  {
    MarkerIsRead(data, w.pos, eoiFill, MARKER_EOI);
  }

  lemma NoScan()
    ensures !HasScan([])
  {
  }

  lemma ScanInRest(items: seq<Item>)
    requires items != []
    ensures HasScan(items) <==> items[0].Scan? || HasScan(items[1..])
  {
    if HasScan(items[1..]) {
      var i :| 0 <= i < |items[1..]| && items[1..][i].Scan?;
      assert items[i + 1].Scan?;
    }
    if i :| 0 <= i < |items| && items[i].Scan? {
      assert i > 0 ==> items[1..][i - 1].Scan?;
    }
  }

  lemma {:induction false} BodyIsNotEmpty(items: seq<Item>, eoiFill: nat)
    ensures |Body(items, eoiFill)| >= 2
  {
    if items == [] {
    } else {
      BodyIsNotEmpty(items[1..], eoiFill);
    }
  }

  lemma HeadOfFile(data: seq<byte>, items: seq<Item>, eoiFill: nat)
    requires At(data, 0, File(items, eoiFill))
    ensures HeadMatches(data) && At(data, 2, Body(items, eoiFill))
  {
    hide At;
    AtSplits(data, 0, [0xFF, 0xD8], Body(items, eoiFill));
    BodyStarts(data, 2, items, eoiFill);
    AtIndex(data, 0, [0xFF, 0xD8], 0);
    AtIndex(data, 0, [0xFF, 0xD8], 1);
    if items == [] {
      AtIndex(data, 2, MarkerBytes(eoiFill, MARKER_EOI), 0);
    } else {
      AtIndex(data, 2, MarkerBytes(items[0].fill, ItemCode(items[0])), 0);
    }
    AtIsInside(data, 2, Body(items, eoiFill));
    BodyIsNotEmpty(items, eoiFill);
    assert data[..3] == [data[0], data[1], data[2]];
  }

  // Every well-formed file with a scan is carved to its exact length, whatever
  // bytes follow it on the device.
  lemma WholeFileIsCarved(items: seq<Item>, eoiFill: nat, trailing: seq<byte>)
    requires WellFormed(items) && HasScan(items)
    ensures Carved(File(items, eoiFill) + trailing) == Verdict(|File(items, eoiFill)|, VALID)
  {
    var data := File(items, eoiFill) + trailing;
    assert data[0..|File(items, eoiFill)|] == File(items, eoiFill);
    HeadOfFile(data, items, eoiFill);
    BodyIsWalked(data, WalkState(2, false), items, eoiFill);
  }

  lemma {:induction false} EntropyJoins(a: seq<Unit>, b: seq<Unit>)
    ensures EntropyBytes(a + b) == EntropyBytes(a) + EntropyBytes(b)
  {
    if a == [] {
      assert a + b == b;
    } else {
      assert (a + b)[1..] == a[1..] + b;
      EntropyJoins(a[1..], b);
    }
  }

  lemma RestartBetween(before: seq<Unit>, after: seq<Unit>, code: byte)
    ensures EntropyBytes(before + [Restart(code)] + after) == EntropyBytes(before) + [0xFF, code] + EntropyBytes(after)
  {
    assert [Restart(code)][1..] == [];
    assert EntropyBytes([Restart(code)]) == [0xFF, code] + EntropyBytes([]);
    EntropyJoins(before, [Restart(code)]);
    EntropyJoins(before + [Restart(code)], after);
  }

  // A file of one scan, byte for byte.
  lemma OneScanFile(payload: seq<byte>, units: seq<Unit>)
    requires PayloadOk(payload)
    ensures File([Scan(0, payload, units)], 0)
            == [0xFF, 0xD8, 0xFF, 0xDA] + BigEndian(|payload| + 2, 2) + payload + EntropyBytes(units) + [0xFF, 0xD9]
  {
    hide EntropyBytes, BigEndian;
    var items := [Scan(0, payload, units)];
    assert items[1..] == [] && Fill(1) == [0xFF];
    assert Body([], 0) == [0xFF, 0xD9];
    assert Body(items, 0) == ItemBytes(items[0]) + Body([], 0);
  }

  // Every one of the eight restart markers may stand anywhere in a scan.
  lemma RestartsAreWalkedOver(payload: seq<byte>, before: seq<Unit>, after: seq<Unit>, k: nat, trailing: seq<byte>)
    requires |payload| + 2 < 0x1_0000 && k < 8
    requires forall u :: u in before || u in after ==> UnitOk(u)
    ensures var scan := EntropyBytes(before) + [0xFF, 0xD0 + k] + EntropyBytes(after);
            var whole := [0xFF, 0xD8, 0xFF, 0xDA] + BigEndian(|payload| + 2, 2) + payload + scan + [0xFF, 0xD9];
            Carved(whole + trailing) == Verdict(|whole|, VALID)
  {
    var units := before + [Restart(0xD0 + k)] + after;
    RestartBetween(before, after, 0xD0 + k);
    OneScanFile(payload, units);
    assert forall i :: 0 <= i < |units| ==> UnitOk(units[i]);
    assert [Scan(0, payload, units)][0].Scan?;
    hide EntropyBytes, BigEndian, UnitOk, File;
    WholeFileIsCarved([Scan(0, payload, units)], 0, trailing);
  }

  // ---- And nothing else is called whole ----

  // The fill and code of the marker a walk reads.
  lemma {:induction false} FillIsAll(data: seq<byte>, pos: nat)
    requires pos < |data| && data[pos] == MARKER_PREFIX
    ensures forall i :: pos <= i <= LastFill(data, pos) ==> data[i] == MARKER_PREFIX
    ensures LastFill(data, pos) + 1 < |data| ==> data[LastFill(data, pos) + 1] != MARKER_PREFIX
    decreases |data| - pos
  {
    if pos + 1 < |data| && data[pos + 1] == MARKER_PREFIX {
      FillIsAll(data, pos + 1);
    }
  }

  lemma MarkerInPlace(data: seq<byte>, pos: nat)
    requires MarkerCode(data, pos).Some?
    ensures At(data, pos, MarkerBytes(LastFill(data, pos) - pos, MarkerCode(data, pos).value))
    ensures MarkerCode(data, pos).value != MARKER_PREFIX
  {
    FillIsAll(data, pos);
    var last := LastFill(data, pos);
    assert data[pos..last + 1] == Fill(last - pos + 1);
    assert data[last + 1..last + 2] == [MarkerCode(data, pos).value];
    AtSplits(data, pos, Fill(last - pos + 1), [MarkerCode(data, pos).value]);
  }

  lemma SegmentInPlace(data: seq<byte>, pos: nat) returns (payload: seq<byte>)
    requires SegmentEnd(data, pos).Some?
    ensures PayloadOk(payload) && At(data, pos, SegmentBytes(payload))
    ensures SegmentEnd(data, pos).value == pos + |SegmentBytes(payload)|
  {
    var length := FromBigEndian(data[pos..pos + 2]);
    CapacityOfFields();
    FromBigEndianRoundTrip(data[pos..pos + 2]);
    payload := data[pos + 2..pos + length];
    AtSplits(data, pos, BigEndian(length, 2), payload);
  }

  lemma UnitInFront(data: seq<byte>, pos: nat, u: Unit, units: seq<Unit>)
    requires At(data, pos, UnitBytes(u)) && At(data, pos + |UnitBytes(u)|, EntropyBytes(units))
    ensures At(data, pos, EntropyBytes([u] + units))
    ensures |EntropyBytes([u] + units)| == |UnitBytes(u)| + |EntropyBytes(units)|
  {
    assert ([u] + units)[1..] == units;
    AtSplits(data, pos, UnitBytes(u), EntropyBytes(units));
  }

  lemma {:induction false} EntropyInPlace(data: seq<byte>, pos: nat) returns (units: seq<Unit>)
    requires EntropyEnd(data, pos).foundTerminator
    ensures forall i :: 0 <= i < |units| ==> UnitOk(units[i])
    ensures At(data, pos, EntropyBytes(units)) && EntropyEnd(data, pos).pos == pos + |EntropyBytes(units)|
    decreases |data| - pos
  {
    hide EntropyBytes;
    if data[pos] != MARKER_PREFIX {
      var rest := EntropyInPlace(data, pos + 1);
      assert data[pos..pos + 1] == [data[pos]];
      UnitInFront(data, pos, Plain(data[pos]), rest);
      units := [Plain(data[pos])] + rest;
    } else if data[pos + 1] == STUFFED_ZERO || IsRestart(data[pos + 1]) {
      var rest := EntropyInPlace(data, pos + 2);
      var u := if data[pos + 1] == STUFFED_ZERO then Stuffed else Restart(data[pos + 1]);
      assert data[pos..pos + 2] == [MARKER_PREFIX, data[pos + 1]];
      UnitInFront(data, pos, u, rest);
      units := [u] + rest;
    } else {
      NoEntropy(data, pos);
      units := [];
    }
  }

  lemma NoEntropy(data: seq<byte>, pos: nat)
    requires pos <= |data|
    ensures At(data, pos, EntropyBytes([])) && |EntropyBytes([])| == 0
  {
  }

  // Where entropy data stops, no marker that reads as entropy data begins.
  lemma {:induction false} EntropyStopIsReal(data: seq<byte>, pos: nat)
    requires EntropyEnd(data, pos).foundTerminator
    ensures var q := EntropyEnd(data, pos).pos;
            && q + 1 < |data| && data[q + 1] != STUFFED_ZERO && !IsRestart(data[q + 1])
    decreases |data| - pos
  {
    if data[pos] != MARKER_PREFIX {
      EntropyStopIsReal(data, pos + 1);
    } else if data[pos + 1] == STUFFED_ZERO || IsRestart(data[pos + 1]) {
      EntropyStopIsReal(data, pos + 2);
    }
  }

  // A step that goes on read a marker, and whatever its code carries.
  lemma SomeMarker(data: seq<byte>, w: WalkState)
    requires w.pos <= |data| && StepFrom(data, w).Onward?
    ensures MarkerCode(data, w.pos).Some? && MarkerCode(data, w.pos).value != MARKER_EOI
    ensures !IsStandalone(MarkerCode(data, w.pos).value) ==> SegmentEnd(data, LastFill(data, w.pos) + 2).Some?
    ensures MarkerCode(data, w.pos).value == MARKER_SOS ==>
              EntropyEnd(data, SegmentEnd(data, LastFill(data, w.pos) + 2).value).foundTerminator
  {
    hide EntropyEnd, LastFill, SegmentEnd;
  }

  // A step that goes on walked over one item.
  lemma StepTakesItem(data: seq<byte>, w: WalkState) returns (item: Item)
    requires w.pos <= |data| && StepFrom(data, w).Onward?
    ensures ItemOk(item) && At(data, w.pos, ItemBytes(item))
    ensures StepFrom(data, w).at == WalkState(w.pos + |ItemBytes(item)|, w.sawSos || item.Scan?)
    ensures item.fill == LastFill(data, w.pos) - w.pos && MarkerCode(data, w.pos) == Some(ItemCode(item))
  {
    hide At, MarkerBytes, SegmentBytes, EntropyBytes, EntropyEnd, LastFill, SegmentEnd, UnitOk;
    MarkerInPlace(data, w.pos);
    SomeMarker(data, w);
    var code, fill := MarkerCode(data, w.pos).value, LastFill(data, w.pos) - w.pos;
    var marker := MarkerBytes(fill, code);
    if IsStandalone(code) {
      return Standalone(fill, code);
    }
    var payload := SegmentInPlace(data, w.pos + |marker|);
    AtSplits(data, w.pos, marker, SegmentBytes(payload));
    if code != MARKER_SOS {
      return Segment(fill, code, payload);
    }
    var units := EntropyInPlace(data, w.pos + |marker| + |SegmentBytes(payload)|);
    AtSplits(data, w.pos, marker + SegmentBytes(payload), EntropyBytes(units));
    item := Scan(fill, payload, units);
  }

  lemma FinishedAtEoi(data: seq<byte>, w: WalkState) returns (eoiFill: nat)
    requires w.pos <= |data| && StepFrom(data, w).Finished?
    ensures At(data, w.pos, MarkerBytes(eoiFill, MARKER_EOI))
    ensures StepFrom(data, w).at == WalkState(w.pos + |MarkerBytes(eoiFill, MARKER_EOI)|, w.sawSos)
  {
    hide LastFill, MarkerBytes, EntropyEnd, SegmentEnd;
    MarkerInPlace(data, w.pos);
    eoiFill := LastFill(data, w.pos) - w.pos;
  }

  // A walk that reached EOI walked over a well-formed file.
  lemma {:induction false} WalkTakesBody(data: seq<byte>, w: WalkState) returns (items: seq<Item>, eoiFill: nat)
    requires w.pos <= |data| && WalkFrom(data, w).reachedEoi
    ensures WellFormed(items) && At(data, w.pos, Body(items, eoiFill))
    ensures WalkFrom(data, w) == WalkOutcome(w.pos + |Body(items, eoiFill)|, w.sawSos || HasScan(items), true)
    ensures items != [] ==> items[0].fill == LastFill(data, w.pos) - w.pos && MarkerCode(data, w.pos) == Some(ItemCode(items[0]))
    decreases |data| - w.pos
  {
    hide ItemBytes, At, ItemOk, ItemEndsEntropy, EntropyEnd, SegmentEnd, StepFrom, LastFill, MarkerCode, MarkerBytes;
    StepAdvances(data, w);
    if StepFrom(data, w).Finished? {
      eoiFill := FinishedAtEoi(data, w);
      NoScan();
      return [], eoiFill;
    }
    var item := StepTakesItem(data, w);
    var next := StepFrom(data, w).at;
    var rest: seq<Item>;
    rest, eoiFill := WalkTakesBody(data, next);
    items := [item] + rest;
    assert items[1..] == rest;
    AtSplits(data, w.pos, ItemBytes(item), Body(rest, eoiFill));
    ScanInRest(items);
    if item.Scan? && rest != [] {
      NextEndsEntropy(data, w, rest[0]);
    }
  }

  // The byte after a lone prefix is its code.
  lemma LoneMarker(data: seq<byte>, pos: nat)
    requires MarkerCode(data, pos).Some? && LastFill(data, pos) == pos
    ensures pos + 1 < |data| && MarkerCode(data, pos).value == data[pos + 1]
  {
  }

  lemma NextEndsEntropy(data: seq<byte>, w: WalkState, item: Item)
    requires w.pos <= |data| && StepFrom(data, w).Onward? && MarkerCode(data, w.pos) == Some(MARKER_SOS)
    requires var pos := StepFrom(data, w).at.pos;
             && MarkerCode(data, pos) == Some(ItemCode(item))
             && item.fill == LastFill(data, pos) - pos
    ensures ItemEndsEntropy(item)
  {
    hide EntropyEnd, LastFill, SegmentEnd, MarkerCode;
    SomeMarker(data, w);
    EntropyStopIsReal(data, SegmentEnd(data, LastFill(data, w.pos) + 2).value);
    var pos := StepFrom(data, w).at.pos;
    if item.fill == 0 {
      LoneMarker(data, pos);
    }
  }

  // The carver says Valid with length n only of a well-formed file of exactly n
  // bytes with at least one scan.
  lemma ValidIsAWholeFile(data: seq<byte>) returns (items: seq<Item>, eoiFill: nat)
    requires Carved(data).confidence == VALID
    ensures WellFormed(items) && HasScan(items)
    ensures Carved(data).length == |File(items, eoiFill)| <= |data|
    ensures data[..Carved(data).length] == File(items, eoiFill)
  {
    hide WellFormed, HasScan, Body, WalkFrom;
    items, eoiFill := WalkTakesBody(data, WalkState(2, false));
    assert data[0..2] == data[..3][..2] == [0xFF, 0xD8];
    AtSplits(data, 0, [0xFF, 0xD8], Body(items, eoiFill));
  }
}
