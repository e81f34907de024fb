// When what a scan reports is independent of how much it reads at a time.
module ScanWindows {
  import opened Bytes
  import opened Regions
  import opened Signatures
  import opened WindowMatching
  import opened Scanning
  import opened ScanReference

  // Exactly when no signature the greedy pass reports can be cut off by a
  // window's end that leaves a later signature whole.

  function Windowed(s: Scan, windowBytes: nat): Scan {
    s.(windowBytes := windowBytes)
  }

  // Region and device end inside 64-bit offsets.
  ghost predicate Sized(s: Scan, regionEnd: nat) {
    regionEnd <= U64_MAX && |s.device| <= U64_MAX
  }

  ghost predicate WindowHolds(s: Scan, windowBytes: nat) {
    MaxSignatureBytes(s.carvers) <= windowBytes
  }

  // A place where a window from `cursor` may end cuts off one signature and
  // leaves another whole that starts no earlier.
  ghost predicate EdgeParts(s: Scan, cursor: nat, regionEnd: nat, cutOff: Match, whole: Match, end: nat) {
    && cursor + MaxSignatureBytes(s.carvers) <= end <= |s.device|
    && cutOff.offset <= whole.offset < regionEnd
    && !HitBy(s, cutOff, end) && HitBy(s, whole, end)
  }

  // No such place parts a signature of the greedy pass from a later one.
  ghost predicate NoEdgeParts(s: Scan, cursor: nat, regionEnd: nat, greedy: seq<Report>) {
    forall i, whole, end: nat :: 0 <= i < |greedy| ==> !EdgeParts(s, cursor, regionEnd, greedy[i].found, whole, end)
  }

  // ---- With no such place, every window follows the greedy pass ----

  // A window's end is a place the condition speaks of, unless it is the device's.
  lemma WindowEndIsPlace(s: Scan, low: nat, cursor: nat, regionEnd: nat, m: Match)
    requires Scannable(s, regionEnd) && low <= cursor < regionEnd
    requires Hit(s, m) && cursor <= m.offset && !HitBy(s, m, cursor + ReadBytes(s, cursor, regionEnd))
    ensures low + MaxSignatureBytes(s.carvers) <= cursor + ReadBytes(s, cursor, regionEnd) <= |s.device|
  {
    hide HitBy, MaxSignatureBytes;
    HitHasWidth(s, m);
    ReadsReach(s, cursor, regionEnd);
  }

  lemma {:induction false} WindowFollowsGreedy(
      s: Scan, low: nat, cursor: nat, regionEnd: nat, greedy: seq<Report>, i: nat)
    requires Scannable(s, regionEnd) && low <= cursor < regionEnd
    requires Greedy(s, cursor, regionEnd, greedy) && NoEdgeParts(s, low, regionEnd, greedy)
    requires i < |ReportsAt(s, cursor, regionEnd)|
    ensures i < |greedy| && ReportsAt(s, cursor, regionEnd)[i] == greedy[i]
    decreases i
  {
    hide ReportsAt, HitBy, ResumeOffset, MaxSignatureBytes, Scannable, ReadBytes;
    var here := ReportsAt(s, cursor, regionEnd);
    var end := cursor + ReadBytes(s, cursor, regionEnd);
    if i == 0 {
    } else {
      WindowFollowsGreedy(s, low, cursor, regionEnd, greedy, i - 1);
    }
    var from := FromOf(cursor, greedy, i);
    assert from == FromOf(cursor, here, i);
    FromIsPastCursor(s, cursor, regionEnd, i);
    assert NoneBetween(s, FromOf(cursor, greedy, |greedy|), regionEnd);
    assert i < |greedy|;
    assert GreedyStep(s, cursor, regionEnd, greedy, i);
    var first := greedy[i].found;
    ReportIsWhole(s, cursor, regionEnd, i);
    assert !EdgeParts(s, low, regionEnd, first, here[i].found, end);
    if HitBy(s, first, end) {
      WindowTakesFirst(s, cursor, regionEnd, i, first);
    } else {
      WindowEndIsPlace(s, low, cursor, regionEnd, first);
    }
    ReportIsCarved(s, cursor, regionEnd, i);
  }

  lemma {:induction false} EveryWindowFollows(s: Scan, low: nat, cursor: nat, regionEnd: nat, greedy: seq<Report>)
    requires Scannable(s, regionEnd) && low <= cursor
    requires Greedy(s, cursor, regionEnd, greedy) && NoEdgeParts(s, low, regionEnd, greedy)
    ensures NothingOvertaken(s, cursor, regionEnd)
    decreases regionEnd - cursor
  {
    hide ReportsAt, CursorAfter, Scannable, GreedyStep, NoneBetween, EdgeParts, WindowOvertakesNone;
    if cursor >= regionEnd {
    } else {
      CursorAdvances(s, cursor, regionEnd);
      var here, next := ReportsAt(s, cursor, regionEnd), CursorAfter(s, cursor, regionEnd);
      if here != [] {
        WindowFollowsGreedy(s, low, cursor, regionEnd, greedy, |here| - 1);
      }
      forall i | 0 <= i < |here|
        ensures here[i] == greedy[i]
      {
        WindowFollowsGreedy(s, low, cursor, regionEnd, greedy, i);
      }
      var rest := greedy[|here|..];
      assert greedy == here + rest;
      GreedySplits(s, cursor, regionEnd, here, rest);
      WindowReportsGreedily(s, cursor, regionEnd);
      NoneSkipped(s, cursor, regionEnd);
      LastFromIsPast(s, cursor, regionEnd);
      GreedyFromEither(s, FromOf(cursor, here, |here|), next, regionEnd, rest);
      assert forall i :: 0 <= i < |rest| ==> rest[i] == greedy[|here| + i];
      EveryWindowFollows(s, low, next, regionEnd, rest);
    }
  }

  // ---- Such a place is the end of some window ----

  // A window that ends there reads exactly that far.
  lemma WindowEndsThere(s: Scan, cursor: nat, regionEnd: nat, cutOff: Match, whole: Match, end: nat)
    requires Hit(s, cutOff) && cursor <= cutOff.offset && EdgeParts(s, cursor, regionEnd, cutOff, whole, end)
    ensures cursor < regionEnd && ReadBytes(Windowed(s, end - cursor), cursor, regionEnd) == end - cursor
  {
    hide HitBy, MaxSignatureBytes;
    HitIsOnDevice(s, whole, end);
    if regionEnd + MaxSignatureBytes(s.carvers) <= end {
      HitWithinReach(s, cutOff, end);
    }
  }

  // A whole match past the window's last resume point would have been carved.
  lemma NothingWholeIsLeft(s: Scan, cursor: nat, regionEnd: nat, m: Match)
    requires cursor < regionEnd && cursor <= m.offset < regionEnd
    requires HitBy(s, m, cursor + ReadBytes(s, cursor, regionEnd))
    ensures var here := ReportsAt(s, cursor, regionEnd); m.offset < FromOf(cursor, here, |here|)
  {
    hide WindowMatches, Process, HitBy, ResumeOffset;
    var end := cursor + ReadBytes(s, cursor, regionEnd);
    HitIsOnDevice(s, m, end);
    var matches := WindowMatches(s, cursor, end, regionEnd);
    WindowMatchesAreHits(s, cursor, end, regionEnd);
    ProcessPasses(s, matches);
    ProcessResume(s, matches);
    var here := ReportsAt(s, cursor, regionEnd);
    FromIsResume(cursor, here, |here|);
    assert m in matches;
  }

  lemma FromIsMonotone(s: Scan, from: nat, regionEnd: nat, greedy: seq<Report>, i: nat, j: nat)
    requires Greedy(s, from, regionEnd, greedy) && i <= j < |greedy|
    ensures FromOf(from, greedy, i) <= greedy[j].found.offset
    decreases j
  {
    hide ResumeOffset, HitBy, NoneBetween;
    assert GreedyStep(s, from, regionEnd, greedy, j);
    if i < j {
      FromIsMonotone(s, from, regionEnd, greedy, i, j - 1);
      ResumesPast(greedy[j - 1]);
    }
  }

  lemma GreedyIsHit(s: Scan, from: nat, regionEnd: nat, greedy: seq<Report>, i: nat)
    requires Greedy(s, from, regionEnd, greedy) && i < |greedy|
    ensures Hit(s, greedy[i].found) && from <= greedy[i].found.offset
  {
    hide HitBy, ResumeOffset, NoneBetween;
    FromIsMonotone(s, from, regionEnd, greedy, 0, i);
    assert GreedyStep(s, from, regionEnd, greedy, i);
  }

  // The window that ends there reports the later signature, or resumes past it,
  // without having reported the earlier one.
  lemma PartedIsMissed(s: Scan, cursor: nat, regionEnd: nat, greedy: seq<Report>, i: nat, whole: Match, end: nat)
    requires Greedy(s, cursor, regionEnd, greedy) && i < |greedy|
    requires EdgeParts(s, cursor, regionEnd, greedy[i].found, whole, end)
    ensures ScanFrom(Windowed(s, end - cursor), cursor, regionEnd) != greedy
  {
    hide HitBy, ReportsAt, CursorAfter, ReadBytes, MaxSignatureBytes, ResumeOffset;
    var t := Windowed(s, end - cursor);
    SameSignatures(s, end - cursor);
    GreedyIsHit(s, cursor, regionEnd, greedy, i);
    WindowEndsThere(s, cursor, regionEnd, greedy[i].found, whole, end);
    var here := ReportsAt(t, cursor, regionEnd);
    var all := ScanFrom(t, cursor, regionEnd);
    assert here <= all;
    if all == greedy {
      if i < |here| {
        ReportIsWhole(t, cursor, regionEnd, i);
      } else {
        NothingWholeIsLeft(t, cursor, regionEnd, whole);
        FromIsMonotone(s, cursor, regionEnd, greedy, |here|, i);
      }
    }
  }

  lemma SameSignatures(s: Scan, windowBytes: nat)
    ensures SameHits(s, Windowed(s, windowBytes))
    ensures forall m, end :: HitBy(s, m, end) <==> HitBy(Windowed(s, windowBytes), m, end)
  {
  }

  // ---- The greedy pass exists, as the scan of one window wide enough ----

  lemma WideWindowReachesAll(s: Scan, low: nat, cursor: nat, regionEnd: nat, m: Match)
    requires low <= cursor < regionEnd && regionEnd - low + MaxSignatureBytes(s.carvers) <= s.windowBytes
    requires Hit(s, m) && cursor <= m.offset < regionEnd
    ensures HitBy(s, m, cursor + ReadBytes(s, cursor, regionEnd))
  {
    hide HitBy, MaxSignatureBytes;
    HitHasWidth(s, m);
    var end := cursor + ReadBytes(s, cursor, regionEnd);
    if end < |s.device| {
      HitWithinReach(s, m, end);
    }
  }

  lemma {:induction false} WideWindowOvertakesNothing(s: Scan, low: nat, cursor: nat, regionEnd: nat)
    requires low <= cursor && regionEnd - low + MaxSignatureBytes(s.carvers) <= s.windowBytes
    ensures NothingOvertaken(s, cursor, regionEnd)
    decreases regionEnd - cursor
  {
    hide HitBy, ReportsAt, CursorAfter, ReadBytes, MaxSignatureBytes;
    if cursor >= regionEnd {
    } else {
      var reports := ReportsAt(s, cursor, regionEnd);
      var end := cursor + ReadBytes(s, cursor, regionEnd);
      forall i, m | 0 <= i < |reports| && Hit(s, m)
        ensures !Overtakes(s, FromOf(cursor, reports, i), end, regionEnd, reports[i], m)
      {
        FromIsPastCursor(s, cursor, regionEnd, i);
        if cursor <= m.offset < regionEnd {
          WideWindowReachesAll(s, low, cursor, regionEnd, m);
        }
      }
      CursorAdvances(s, cursor, regionEnd);
      WideWindowOvertakesNothing(s, low, CursorAfter(s, cursor, regionEnd), regionEnd);
    }
  }

  // A window that holds the region and one signature's reach makes one greedy pass.
  lemma WideWindowIsGreedy(s: Scan, cursor: nat, regionEnd: nat) returns (greedy: seq<Report>)
    requires Sized(s, regionEnd) && cursor <= regionEnd
    ensures Greedy(s, cursor, regionEnd, greedy)
    ensures greedy == ScanFrom(Windowed(s, regionEnd - cursor + MaxSignatureBytes(s.carvers)), cursor, regionEnd)
  {
    hide NothingOvertaken, Greedy, ScanFrom, MaxSignatureBytes, HitBy;
    var wide := regionEnd - cursor + MaxSignatureBytes(s.carvers);
    var t := Windowed(s, wide);
    SameSignatures(s, wide);
    WideWindowOvertakesNothing(t, cursor, cursor, regionEnd);
    ScanIsGreedyExactly(t, cursor, regionEnd);
    greedy := ScanFrom(t, cursor, regionEnd);
    GreedyIgnoresWindow(t, s, cursor, regionEnd, greedy);
  }

  // ---- Exactly when the window does not matter ----

  // Every window that holds each signature reports what one greedy pass would if
  // and only if no place where a window may end parts a signature of that pass
  // from a later one.
  lemma WindowsAgreeExactly(s: Scan, cursor: nat, regionEnd: nat, greedy: seq<Report>)
    requires Sized(s, regionEnd) && Greedy(s, cursor, regionEnd, greedy)
    ensures (forall windowBytes: nat :: WindowHolds(s, windowBytes) ==>
               ScanFrom(Windowed(s, windowBytes), cursor, regionEnd) == greedy)
            <==> NoEdgeParts(s, cursor, regionEnd, greedy)
  {
    hide Greedy, ScanFrom, NothingOvertaken, EdgeParts, HitBy, MaxSignatureBytes;
    if NoEdgeParts(s, cursor, regionEnd, greedy) {
      forall windowBytes: nat | WindowHolds(s, windowBytes)
        ensures ScanFrom(Windowed(s, windowBytes), cursor, regionEnd) == greedy
      {
        AgreesWithGreedy(s, cursor, regionEnd, greedy, windowBytes);
      }
    } else {
      var i: nat, whole: Match, end: nat :| 0 <= i < |greedy| && EdgeParts(s, cursor, regionEnd, greedy[i].found, whole, end);
      PartedIsMissed(s, cursor, regionEnd, greedy, i, whole, end);
      assert WindowHolds(s, end - cursor) by { PlaceHolds(s, cursor, regionEnd, greedy[i].found, whole, end); }
    }
  }

  lemma PlaceHolds(s: Scan, cursor: nat, regionEnd: nat, cutOff: Match, whole: Match, end: nat)
    requires EdgeParts(s, cursor, regionEnd, cutOff, whole, end)
    ensures cursor <= end && WindowHolds(s, end - cursor)
  {
  }

  lemma AgreesWithGreedy(s: Scan, cursor: nat, regionEnd: nat, greedy: seq<Report>, windowBytes: nat)
    requires Sized(s, regionEnd) && Greedy(s, cursor, regionEnd, greedy) && WindowHolds(s, windowBytes)
    requires NoEdgeParts(s, cursor, regionEnd, greedy)
    ensures ScanFrom(Windowed(s, windowBytes), cursor, regionEnd) == greedy
  {
    var t := Windowed(s, windowBytes);
    SameSignatures(s, windowBytes);
    forall i, whole, end: nat | 0 <= i < |greedy|
      ensures !EdgeParts(t, cursor, regionEnd, greedy[i].found, whole, end)
    {
      assert !EdgeParts(s, cursor, regionEnd, greedy[i].found, whole, end);
    }
    hide Greedy, ScanFrom, NothingOvertaken, EdgeParts, HitBy, MaxSignatureBytes;
    GreedyIgnoresWindow(s, t, cursor, regionEnd, greedy);
    EveryWindowFollows(t, cursor, cursor, regionEnd, greedy);
    ScanIsGreedyExactly(t, cursor, regionEnd);
    GreedyIsUnique(t, cursor, regionEnd, ScanFrom(t, cursor, regionEnd), greedy);
  }
}
