// What a JPEG that was cut short is to the walk.
module JpegTruncation {
  import opened Bytes
  import opened Outcomes
  import opened Candidates
  import opened Jpeg
  import opened JpegGrammar

  // The markers of a file up to a place where none can be read, none's segment
  // fits, or a scan runs out. The carver calls Uncertain exactly those that hold
  // a scan.

  // How the markers end before EOI: with no marker behind them, with one whose
  // segment is not there, or inside a scan.
  datatype Break =
    | NoMarker
    | BadSegment(fill: nat, code: byte)
    | OpenScan(fill: nat, payload: seq<byte>, entropy: seq<Unit>)

  function ItemsBytes(items: seq<Item>): seq<byte> {
    if items == [] then [] else ItemBytes(items[0]) + ItemsBytes(items[1..])
  }

  // What of a break the walk still counts to the file.
  function BreakBytes(b: Break): seq<byte> {
    match b
    case NoMarker => []
    case BadSegment(fill, code) => MarkerBytes(fill, code)
    case OpenScan(fill, payload, entropy) => ItemBytes(Scan(fill, payload, entropy))
  }

  // A marker begins here that cannot read as entropy data.
  predicate StopsEntropy(data: seq<byte>, pos: nat) {
    && pos + 1 < |data| && data[pos] == 0xFF
    && data[pos + 1] != 0x00 && !RestartCode(data[pos + 1])
  }

  // The bytes run out here, but for half a pair.
  predicate RunsOut(data: seq<byte>, pos: nat) {
    pos == |data| || (pos + 1 == |data| && data[pos] == 0xFF)
  }

  ghost predicate BreaksAt(data: seq<byte>, pos: nat, b: Break) {
    && pos <= |data| && At(data, pos, BreakBytes(b))
    && match b
       case NoMarker => MarkerCode(data, pos).None?
       case BadSegment(fill, code) =>
         && code != 0xFF && code != 0xD9 && !LoneCode(code)
         && SegmentEnd(data, pos + |BreakBytes(b)|).None?
       case OpenScan(fill, payload, entropy) =>
         ItemOk(Scan(fill, payload, entropy)) && RunsOut(data, pos + |BreakBytes(b)|)
  }

  ghost predicate EndsInScan(items: seq<Item>) {
    items != [] && items[|items| - 1].Scan?
  }

  // SOI, a well-formed list of markers, and a break, with a scan among them.
  ghost predicate Truncated(data: seq<byte>, items: seq<Item>, b: Break) {
    && HeadMatches(data) && WellFormed(items) && At(data, 2, ItemsBytes(items))
    && (EndsInScan(items) ==> StopsEntropy(data, 2 + |ItemsBytes(items)|))
    && BreaksAt(data, 2 + |ItemsBytes(items)|, b)
    && (HasScan(items) || b.OpenScan?)
  }

  function ExtentOf(items: seq<Item>, b: Break): nat {
    2 + |ItemsBytes(items)| + |BreakBytes(b)|
  }

  // ---- Items in place ----

  ghost predicate ItemsAt(data: seq<byte>, pos: nat, items: seq<Item>)
    decreases |items|
  {
    items != [] ==>
      var next := pos + |ItemBytes(items[0])|;
      && ItemOk(items[0]) && At(data, pos, ItemBytes(items[0]))
      && (items[0].Scan? ==> StopsEntropy(data, next))
      && ItemsAt(data, next, items[1..])
  }

  lemma ItemHasMarker(data: seq<byte>, pos: nat, item: Item)
    requires At(data, pos, ItemBytes(item))
    ensures At(data, pos, MarkerBytes(item.fill, ItemCode(item)))
  {
    hide At, MarkerBytes, SegmentBytes, EntropyBytes;
    var marker := MarkerBytes(item.fill, ItemCode(item));
    match item
    case Standalone(_, _) =>
    case Segment(_, _, payload) =>
      AtSplits(data, pos, marker, SegmentBytes(payload));
    case Scan(_, payload, entropy) =>
      AtSplits(data, pos, marker + SegmentBytes(payload), EntropyBytes(entropy));
      AtSplits(data, pos, marker, SegmentBytes(payload));
  }

  // A marker stops entropy data exactly when it ends it.
  lemma MarkerStopsEntropy(data: seq<byte>, pos: nat, fill: nat, code: byte)
    requires At(data, pos, MarkerBytes(fill, code))
    ensures StopsEntropy(data, pos) <==> EndsEntropy(fill, code)
  {
    AtIndex(data, pos, MarkerBytes(fill, code), 0);
    AtIndex(data, pos, MarkerBytes(fill, code), 1);
  }

  lemma ItemStopsEntropy(data: seq<byte>, pos: nat, item: Item)
    requires At(data, pos, ItemBytes(item))
    ensures StopsEntropy(data, pos) ==> ItemEndsEntropy(item)
    ensures ItemEndsEntropy(item) ==> StopsEntropy(data, pos)
  {
    ItemHasMarker(data, pos, item);
    MarkerStopsEntropy(data, pos, item.fill, ItemCode(item));
    hide At, StopsEntropy, MarkerBytes, ItemBytes, EndsEntropy;
    if item.Scan? {
      SosEndsEntropy(item.fill);
    }
  }

  lemma SosEndsEntropy(fill: nat)
    ensures EndsEntropy(fill, MARKER_SOS)
  {
  }

  lemma WellFormedRest(items: seq<Item>)
    requires items != []
    ensures WellFormed(items) <==>
              && ItemOk(items[0]) && WellFormed(items[1..])
              && (items[0].Scan? && |items| > 1 ==> ItemEndsEntropy(items[1]))
  {
    hide ItemOk, ItemEndsEntropy;
    var rest := items[1..];
    if ItemOk(items[0]) && WellFormed(rest) && (items[0].Scan? && |items| > 1 ==> ItemEndsEntropy(items[1])) {
      forall i | 0 <= i < |items|
        ensures ItemOk(items[i])
      {
        assert i > 0 ==> ItemOk(rest[i - 1]);
      }
      forall i | 0 <= i < |items| - 1 && items[i].Scan?
        ensures ItemEndsEntropy(items[i + 1])
      {
        assert i > 0 ==> rest[i - 1].Scan? && ItemEndsEntropy(rest[i - 1 + 1]);
      }
    }
  }

  // Items in place one after another are a well-formed list in place.
  lemma {:induction false} ItemsAtIs(data: seq<byte>, pos: nat, items: seq<Item>)
    requires pos <= |data|
    ensures ItemsAt(data, pos, items) <==>
              && WellFormed(items) && At(data, pos, ItemsBytes(items))
              && (EndsInScan(items) ==> StopsEntropy(data, pos + |ItemsBytes(items)|))
    decreases |items|
  {
    hide ItemOk, ItemEndsEntropy, At, StopsEntropy, ItemBytes;
    if items == [] {
      NothingAt(data, pos);
    } else {
      var next := pos + |ItemBytes(items[0])|;
      AtSplits(data, pos, ItemBytes(items[0]), ItemsBytes(items[1..]));
      WellFormedRest(items);
      hide WellFormed;
      if At(data, pos, ItemBytes(items[0])) {
        AtIsInside(data, pos, ItemBytes(items[0]));
        ItemsAtIs(data, next, items[1..]);
        if |items| > 1 {
          FirstItemAt(data, next, items[1..]);
          assert items[1..][|items| - 2] == items[|items| - 1];
        } else {
          assert ItemsBytes(items[1..]) == [];
        }
      }
    }
  }

  lemma NothingAt(data: seq<byte>, pos: nat)
    requires pos <= |data|
    ensures At(data, pos, ItemsBytes([])) && WellFormed([])
  {
  }

  lemma FirstItemAt(data: seq<byte>, pos: nat, items: seq<Item>)
    requires items != []
    ensures At(data, pos, ItemsBytes(items)) ==> (StopsEntropy(data, pos) <==> ItemEndsEntropy(items[0]))
  {
    hide At, ItemBytes, StopsEntropy, ItemEndsEntropy;
    AtSplits(data, pos, ItemBytes(items[0]), ItemsBytes(items[1..]));
    if At(data, pos, ItemBytes(items[0])) {
      ItemStopsEntropy(data, pos, items[0]);
    }
  }

  // ---- A truncated file is walked over to its break ----

  lemma ItemTakesStep(data: seq<byte>, w: WalkState, item: Item)
    requires ItemOk(item) && At(data, w.pos, ItemBytes(item))
    requires item.Scan? ==> StopsEntropy(data, w.pos + |ItemBytes(item)|)
    ensures StepFrom(data, w) == Jpeg.Onward(WalkState(w.pos + |ItemBytes(item)|, w.sawSos || item.Scan?))
  {
    hide At, MarkerBytes, SegmentBytes, EntropyBytes, LastFill, SegmentEnd, MarkerCode, UnitOk;
    ItemHasMarker(data, w.pos, item);
    MarkerIsRead(data, w.pos, item.fill, ItemCode(item));
    var marker := MarkerBytes(item.fill, ItemCode(item));
    match item
    case Standalone(_, _) =>
    case Segment(_, _, payload) =>
      AtSplits(data, w.pos, marker, SegmentBytes(payload));
      SegmentIsRead(data, w.pos + |marker|, payload);
    case Scan(_, payload, entropy) =>
      ScanHeadIsRead(data, w.pos, item);
      EntropyIsRead(data, w.pos + |marker + SegmentBytes(payload)|, entropy);
  }

  lemma ScanHeadIsRead(data: seq<byte>, pos: nat, item: Item)
    requires item.Scan? && ItemOk(item) && At(data, pos, ItemBytes(item))
    ensures var head := MarkerBytes(item.fill, MARKER_SOS) + SegmentBytes(item.payload);
            && MarkerCode(data, pos) == Some(MARKER_SOS) && LastFill(data, pos) == pos + item.fill
            && SegmentEnd(data, pos + item.fill + 2) == Some(pos + |head|)
            && At(data, pos + |head|, EntropyBytes(item.entropy))
  {
    hide At, MarkerBytes, SegmentBytes, EntropyBytes, LastFill, SegmentEnd, MarkerCode, UnitOk;
    ItemHasMarker(data, pos, item);
    MarkerIsRead(data, pos, item.fill, MARKER_SOS);
    var marker := MarkerBytes(item.fill, MARKER_SOS);
    AtSplits(data, pos, marker + SegmentBytes(item.payload), EntropyBytes(item.entropy));
    AtSplits(data, pos, marker, SegmentBytes(item.payload));
    SegmentIsRead(data, pos + |marker|, item.payload);
  }

  lemma EntropyRunsOut(data: seq<byte>, pos: nat)
    requires RunsOut(data, pos)
    ensures EntropyEnd(data, pos) == EntropyOutcome(pos, false)
  {
  }

  lemma BreakIsStepped(data: seq<byte>, w: WalkState, b: Break)
    requires BreaksAt(data, w.pos, b)
    ensures StepFrom(data, w) == Broken(WalkState(w.pos + |BreakBytes(b)|, w.sawSos || b.OpenScan?))
  {
    hide At, MarkerBytes, SegmentBytes, EntropyBytes, LastFill, SegmentEnd, MarkerCode, EntropyEnd, UnitOk;
    match b
    case NoMarker =>
    case BadSegment(fill, code) =>
      MarkerIsRead(data, w.pos, fill, code);
    case OpenScan(fill, payload, entropy) =>
      var item := Scan(fill, payload, entropy);
      ScanHeadIsRead(data, w.pos, item);
      EntropyIsRead(data, w.pos + |MarkerBytes(fill, MARKER_SOS) + SegmentBytes(payload)|, entropy);
      EntropyRunsOut(data, w.pos + |ItemBytes(item)|);
  }

  lemma {:induction false} ItemsAreWalked(data: seq<byte>, w: WalkState, items: seq<Item>, b: Break)
    requires w.pos <= |data| && ItemsAt(data, w.pos, items) && BreaksAt(data, w.pos + |ItemsBytes(items)|, b)
    ensures WalkFrom(data, w)
            == WalkOutcome(w.pos + |ItemsBytes(items)| + |BreakBytes(b)|, w.sawSos || HasScan(items) || b.OpenScan?, false)
    decreases |items|
  {
    hide StepFrom, ItemOk, At, HasScan, BreaksAt, BreakBytes, StopsEntropy;
    if items == [] {
      BreakIsStepped(data, w, b);
      NoScan();
    } else {
      ItemTakesStep(data, w, items[0]);
      AtIsInside(data, w.pos, ItemBytes(items[0]));
      ScanInRest(items);
      ItemsAreWalked(data, StepFrom(data, w).at, items[1..], b);
    }
  }

  // A file cut short after its first scan began is Uncertain, and its extent ends
  // where the walk can no longer tell what follows.
  lemma TruncationIsUncertain(data: seq<byte>, items: seq<Item>, b: Break)
    requires Truncated(data, items, b)
    ensures Carved(data) == Verdict(ExtentOf(items, b), UNCERTAIN)
  {
    hide WellFormed, At, HasScan, BreaksAt, BreakBytes, ItemsBytes, StopsEntropy, ItemsAt;
    ItemsAtIs(data, 2, items);
    ItemsAreWalked(data, WalkState(2, false), items, b);
  }

  // ---- And nothing else is Uncertain ----

  lemma {:induction false} OpenEntropy(data: seq<byte>, pos: nat) returns (units: seq<Unit>)
    requires pos <= |data| && !EntropyEnd(data, pos).foundTerminator
    ensures forall i :: 0 <= i < |units| ==> UnitOk(units[i])
    ensures At(data, pos, EntropyBytes(units)) && EntropyEnd(data, pos).pos == pos + |EntropyBytes(units)|
    ensures RunsOut(data, EntropyEnd(data, pos).pos)
    decreases |data| - pos
  {
    hide EntropyBytes;
    if pos == |data| || (data[pos] == MARKER_PREFIX && pos + 1 == |data|) {
      NoEntropy(data, pos);
      units := [];
    } else if data[pos] != MARKER_PREFIX {
      var rest := OpenEntropy(data, pos + 1);
      assert data[pos..pos + 1] == [data[pos]];
      UnitInFront(data, pos, Plain(data[pos]), rest);
      units := [Plain(data[pos])] + rest;
    } else {
      var rest := OpenEntropy(data, pos + 2);
      var u := if data[pos + 1] == STUFFED_ZERO then Stuffed else Restart(data[pos + 1]);
      assert data[pos..pos + 2] == [MARKER_PREFIX, data[pos + 1]];
      UnitInFront(data, pos, u, rest);
      units := [u] + rest;
    }
  }

  lemma {:induction false} TerminatorStops(data: seq<byte>, pos: nat)
    requires EntropyEnd(data, pos).foundTerminator
    ensures StopsEntropy(data, EntropyEnd(data, pos).pos)
    decreases |data| - pos
  {
    if data[pos] != MARKER_PREFIX {
      TerminatorStops(data, pos + 1);
    } else if data[pos + 1] == STUFFED_ZERO || IsRestart(data[pos + 1]) {
      TerminatorStops(data, pos + 2);
    }
  }

  lemma BrokenStepIs(data: seq<byte>, w: WalkState)
    requires StepFrom(data, w).Broken? && MarkerCode(data, w.pos).Some?
    ensures var code, past := MarkerCode(data, w.pos).value, LastFill(data, w.pos) + 2;
            && code != MARKER_EOI && !IsStandalone(code)
            && (SegmentEnd(data, past).None? ==> StepFrom(data, w).at == WalkState(past, w.sawSos))
            && (SegmentEnd(data, past).Some? ==>
                  && code == MARKER_SOS && !EntropyEnd(data, SegmentEnd(data, past).value).foundTerminator
                  && StepFrom(data, w).at == WalkState(EntropyEnd(data, SegmentEnd(data, past).value).pos, true))
  {
    hide LastFill, SegmentEnd, EntropyEnd, MarkerCode;
  }

  lemma BrokenTakesBreak(data: seq<byte>, w: WalkState) returns (b: Break)
    requires w.pos <= |data| && StepFrom(data, w).Broken?
    ensures BreaksAt(data, w.pos, b)
    ensures StepFrom(data, w).at == WalkState(w.pos + |BreakBytes(b)|, w.sawSos || b.OpenScan?)
  {
    hide At, MarkerBytes, SegmentBytes, EntropyBytes, EntropyEnd, LastFill, SegmentEnd, UnitOk, MarkerCode;
    if MarkerCode(data, w.pos).None? {
      b := NoMarker;
      NothingAt(data, w.pos);
      return;
    }
    MarkerInPlace(data, w.pos);
    BrokenStepIs(data, w);
    var code, fill := MarkerCode(data, w.pos).value, LastFill(data, w.pos) - w.pos;
    var past := LastFill(data, w.pos) + 2;
    if SegmentEnd(data, past).None? {
      return BadSegment(fill, code);
    }
    var marker := MarkerBytes(fill, code);
    var payload := SegmentInPlace(data, past);
    AtSplits(data, w.pos, marker, SegmentBytes(payload));
    AtIsInside(data, past, SegmentBytes(payload));
    var units := OpenEntropy(data, past + |SegmentBytes(payload)|);
    AtSplits(data, w.pos, marker + SegmentBytes(payload), EntropyBytes(units));
    b := OpenScan(fill, payload, units);
  }

  lemma ScanStepStops(data: seq<byte>, w: WalkState)
    requires w.pos <= |data| && StepFrom(data, w).Onward? && MarkerCode(data, w.pos) == Some(MARKER_SOS)
    ensures StopsEntropy(data, StepFrom(data, w).at.pos)
  {
    hide LastFill, SegmentEnd, EntropyEnd, MarkerCode, StopsEntropy;
    SomeMarker(data, w);
    TerminatorStops(data, SegmentEnd(data, LastFill(data, w.pos) + 2).value);
  }

  lemma {:induction false} WalkTakesItems(data: seq<byte>, w: WalkState) returns (items: seq<Item>, b: Break)
    requires w.pos <= |data| && !WalkFrom(data, w).reachedEoi
    ensures ItemsAt(data, w.pos, items) && BreaksAt(data, w.pos + |ItemsBytes(items)|, b)
    ensures WalkFrom(data, w)
            == WalkOutcome(w.pos + |ItemsBytes(items)| + |BreakBytes(b)|, w.sawSos || HasScan(items) || b.OpenScan?, false)
    decreases |data| - w.pos
  {
    hide ItemBytes, At, ItemOk, BreaksAt, BreakBytes, StepFrom, MarkerCode, StopsEntropy, HasScan;
    StepAdvances(data, w);
    if StepFrom(data, w).Broken? {
      b := BrokenTakesBreak(data, w);
      NoScan();
      return [], b;
    }
    var item := StepTakesItem(data, w);
    var next := StepFrom(data, w).at;
    if item.Scan? {
      ScanStepStops(data, w);
    }
    var rest: seq<Item>;
    rest, b := WalkTakesItems(data, next);
    items := [item] + rest;
    assert items[1..] == rest;
    ScanInRest(items);
  }

  // The carver says Uncertain with length n only of a truncated file whose
  // markers and break are its first n bytes.
  lemma UncertainIsATruncation(data: seq<byte>) returns (items: seq<Item>, b: Break)
    requires Carved(data).confidence == UNCERTAIN
    ensures Truncated(data, items, b) && Carved(data).length == ExtentOf(items, b)
  {
    hide WellFormed, At, HasScan, BreaksAt, BreakBytes, ItemsBytes, StopsEntropy, ItemsAt, WalkFrom;
    items, b := WalkTakesItems(data, WalkState(2, false));
    ItemsAtIs(data, 2, items);
  }

  // ---- What counts as a segment ----

  // Twelve bytes: SOI, an empty segment under `code`, an empty scan, EOI.
  function UnderCode(code: byte): seq<byte> {
    [0xFF, 0xD8, 0xFF, code, 0x00, 0x02, 0xFF, 0xDA, 0x00, 0x02, 0xFF, 0xD9]
  }

  // The walk takes a length-prefixed segment under every code it gives no other
  // meaning, among them 0x00, which T.81 keeps for byte stuffing, and a second SOI.
  lemma AnyOtherCodeBeginsASegment(code: byte)
    requires code != 0xFF && code != 0xD9 && code != 0xDA && code != 0x01 && !(0xD0 <= code <= 0xD7)
    ensures Carved(UnderCode(code)) == Verdict(12, VALID)
  {
    var data := UnderCode(code);
    var items := [Segment(0, code, []), Scan(0, [], [])];
    assert items[1].Scan?;
    assert EntropyBytes([]) == [];
    EmptySegment();
    assert Fill(1) == [0xFF];
    assert items[1..][1..] == [];
    assert Body([], 0) == [0xFF, 0xD9];
    assert Body(items[1..], 0) == [0xFF, 0xDA, 0x00, 0x02] + [0xFF, 0xD9];
    assert Body(items, 0) == [0xFF, code, 0x00, 0x02] + Body(items[1..], 0);
    assert File(items, 0) + [] == data;
    WholeFileIsCarved(items, 0, []);
  }

  lemma EmptySegment()
    ensures SegmentBytes([]) == [0x00, 0x02]
  {
    assert BigEndian(0, 1) == BigEndian(0, 0) + [0];
    assert BigEndian(2, 2) == BigEndian(0, 1) + [2];
  }

  lemma StuffingAndSoiBeginSegments()
    ensures Carved(UnderCode(0x00)) == Verdict(12, VALID)
    ensures Carved(UnderCode(0xD8)) == Verdict(12, VALID)
  {
    AnyOtherCodeBeginsASegment(0x00);
    AnyOtherCodeBeginsASegment(0xD8);
  }
}
