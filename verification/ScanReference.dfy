// What the windowed scan finds, compared with one greedy pass over the region
// that sees the whole device at once.
module ScanReference {
  import opened Bytes
  import opened Regions
  import opened Signatures
  import opened WindowMatching
  import opened Scanning

  // ---- One greedy pass over the region, as the reference ----

  // The canonically first signature on the device from `from` on.
  ghost predicate IsFirst(s: Scan, from: nat, regionEnd: nat, m: Match) {
    && Hit(s, m) && from <= m.offset < regionEnd
    && forall other :: Hit(s, other) && from <= other.offset < regionEnd ==> Before(m, other)
  }

  ghost predicate NoneBetween(s: Scan, from: nat, upTo: nat) {
    forall m: Match :: from <= m.offset < upTo ==> !Hit(s, m)
  }

  // Where the search for report `i` began.
  function FromOf(from: nat, reports: seq<Report>, i: nat): nat
    requires i <= |reports|
  {
    if i == 0 then from
    else
      var before := reports[i - 1];
      before.found.offset + if before.result.rejected || before.result.length == 0 then 1 else before.result.length
  }

  lemma FromIsResume(from: nat, reports: seq<Report>, i: nat)
    requires i <= |reports|
    ensures FromOf(from, reports, i) == if i == 0 then from else ResumeOffset(reports[i - 1])
  {
  }

  ghost predicate GreedyStep(s: Scan, from: nat, regionEnd: nat, reports: seq<Report>, i: nat)
    requires i < |reports|
  {
    && IsFirst(s, FromOf(from, reports, i), regionEnd, reports[i].found)
    && reports[i].result == s.carve(reports[i].found)
  }

  // Each report is the first signature past what the one before it resumed
  // after, carved; and after the last there is none.
  ghost predicate Greedy(s: Scan, from: nat, regionEnd: nat, reports: seq<Report>) {
    && (forall i: nat :: i < |reports| ==> GreedyStep(s, from, regionEnd, reports, i))
    && NoneBetween(s, FromOf(from, reports, |reports|), regionEnd)
  }

  lemma FirstIsUnique(s: Scan, from: nat, regionEnd: nat, a: Match, b: Match)
    requires IsFirst(s, from, regionEnd, a) && IsFirst(s, from, regionEnd, b)
    ensures a == b
  {
    assert Before(a, b) && Before(b, a);
  }

  lemma {:induction false} GreedyAgrees(s: Scan, from: nat, regionEnd: nat, a: seq<Report>, b: seq<Report>, i: nat)
    requires Greedy(s, from, regionEnd, a) && Greedy(s, from, regionEnd, b) && i < |a| && i < |b|
    ensures a[i] == b[i]
  {
    hide IsFirst, NoneBetween, ResumeOffset;
    if i == 0 {
    } else {
      GreedyAgrees(s, from, regionEnd, a, b, i - 1);
    }
    assert GreedyStep(s, from, regionEnd, a, i) && GreedyStep(s, from, regionEnd, b, i);
    assert FromOf(from, a, i) == FromOf(from, b, i);
    FirstIsUnique(s, FromOf(from, a, i), regionEnd, a[i].found, b[i].found);
  }

  lemma NoneIsFirst(s: Scan, from: nat, regionEnd: nat, m: Match)
    requires NoneBetween(s, from, regionEnd)
    ensures !IsFirst(s, from, regionEnd, m)
  {
  }

  lemma GreedyIsNoShorter(s: Scan, from: nat, regionEnd: nat, a: seq<Report>, b: seq<Report>)
    requires Greedy(s, from, regionEnd, a) && Greedy(s, from, regionEnd, b)
    ensures |b| <= |a|
  {
    hide IsFirst, NoneBetween, ResumeOffset;
    if |a| < |b| {
      if a != [] {
        GreedyAgrees(s, from, regionEnd, a, b, |a| - 1);
      }
      assert FromOf(from, a, |a|) == FromOf(from, b, |a|);
      assert GreedyStep(s, from, regionEnd, b, |a|);
      NoneIsFirst(s, FromOf(from, b, |a|), regionEnd, b[|a|].found);
    }
  }

  // There is one greedy pass.
  lemma GreedyIsUnique(s: Scan, from: nat, regionEnd: nat, a: seq<Report>, b: seq<Report>)
    requires Greedy(s, from, regionEnd, a) && Greedy(s, from, regionEnd, b)
    ensures a == b
  {
    hide Greedy;
    GreedyIsNoShorter(s, from, regionEnd, a, b);
    GreedyIsNoShorter(s, from, regionEnd, b, a);
    forall i | 0 <= i < |a|
      ensures a[i] == b[i]
    {
      GreedyAgrees(s, from, regionEnd, a, b, i);
    }
  }

  // ---- Exactly when the windowed scan is that pass ----

  // A signature no report has covered yet, cut off by the window's end, that the
  // window's next report passes over.
  ghost predicate Overtakes(s: Scan, from: nat, end: nat, regionEnd: nat, r: Report, m: Match) {
    Hit(s, m) && from <= m.offset < regionEnd && !HitBy(s, m, end) && !Before(r.found, m)
  }

  ghost predicate OvertakesNone(s: Scan, from: nat, end: nat, regionEnd: nat, r: Report) {
    forall m :: Hit(s, m) ==> !Overtakes(s, from, end, regionEnd, r, m)
  }

  ghost predicate WindowOvertakesNone(s: Scan, from: nat, end: nat, regionEnd: nat, reports: seq<Report>) {
    forall i :: 0 <= i < |reports| ==> OvertakesNone(s, FromOf(from, reports, i), end, regionEnd, reports[i])
  }

  // No window of the scan overtakes a signature its end cuts off.
  ghost predicate NothingOvertaken(s: Scan, cursor: nat, regionEnd: nat)
    decreases regionEnd - cursor
  {
    cursor < regionEnd ==>
      && WindowOvertakesNone(s, cursor, cursor + ReadBytes(s, cursor, regionEnd), regionEnd, ReportsAt(s, cursor, regionEnd))
      && NothingOvertaken(s, CursorAfter(s, cursor, regionEnd), regionEnd)
  }

  // A window reports the first of its whole matches past each resume point.
  lemma {:induction false} ProcessTakesFirst(s: Scan, cursor: nat, matches: seq<Match>, i: nat, k: nat)
    requires InOrder(matches) && k < |matches| && i < |Process(s, matches).reports|
    requires FromOf(cursor, Process(s, matches).reports, i) <= matches[k].offset
    ensures Before(Process(s, matches).reports[i].found, matches[k])
  {
    hide ResumeOffset;
    var shorter, last := matches[..|matches| - 1], matches[|matches| - 1];
    var before := Process(s, shorter);
    ProcessStep(s, matches);
    ProcessCarves(s, shorter);
    ProcessResume(s, shorter);
    ProcessPasses(s, shorter);
    FromIsResume(cursor, Process(s, matches).reports, i);
    if i < |before.reports| {
      if k < |shorter| {
        ProcessTakesFirst(s, cursor, shorter, i, k);
      }
    }
  }

  lemma FromIsPast(s: Scan, cursor: nat, regionEnd: nat, i: nat)
    requires cursor < regionEnd && i < |ReportsAt(s, cursor, regionEnd)|
    ensures cursor <= FromOf(cursor, ReportsAt(s, cursor, regionEnd), i)
                   <= ReportsAt(s, cursor, regionEnd)[i].found.offset
  {
    hide ReportsAt;
    NextCursorReaches(s, cursor, regionEnd);
    var reports := ReportsAt(s, cursor, regionEnd);
    if i > 0 {
      ResumesPast(reports[i - 1]);
    }
  }

  lemma WindowTakesFirst(s: Scan, cursor: nat, regionEnd: nat, i: nat, m: Match)
    requires cursor < regionEnd && i < |ReportsAt(s, cursor, regionEnd)|
    requires HitBy(s, m, cursor + ReadBytes(s, cursor, regionEnd)) && m.offset < regionEnd
    requires FromOf(cursor, ReportsAt(s, cursor, regionEnd), i) <= m.offset
    ensures Before(ReportsAt(s, cursor, regionEnd)[i].found, m)
  {
    hide WindowMatches, Process, HitBy, ResumeOffset;
    var end := cursor + ReadBytes(s, cursor, regionEnd);
    var matches := WindowMatches(s, cursor, end, regionEnd);
    WindowMatchesAreHits(s, cursor, end, regionEnd);
    FromIsPastCursor(s, cursor, regionEnd, i);
    var k :| 0 <= k < |matches| && matches[k] == m;
    ProcessTakesFirst(s, cursor, matches, i, k);
  }

  lemma HitIsInside(s: Scan, m: Match, end: nat)
    requires HitBy(s, m, end)
    ensures m.offset < end <= |s.device|
  {
    HitIsASignature(s, m, end);
  }

  lemma WindowGoesOn(s: Scan, cursor: nat, regionEnd: nat, i: nat, m: Match)
    requires cursor < regionEnd && i <= |ReportsAt(s, cursor, regionEnd)|
    requires HitBy(s, m, cursor + ReadBytes(s, cursor, regionEnd)) && m.offset < regionEnd
    requires FromOf(cursor, ReportsAt(s, cursor, regionEnd), i) <= m.offset
    ensures i < |ReportsAt(s, cursor, regionEnd)|
  {
    hide WindowMatches, Process, HitBy, ResumeOffset;
    var end := cursor + ReadBytes(s, cursor, regionEnd);
    var reports := ReportsAt(s, cursor, regionEnd);
    FromIsResume(cursor, reports, i);
    if i > 0 {
      FromIsPastCursor(s, cursor, regionEnd, i - 1);
      ResumesPast(reports[i - 1]);
    }
    HitIsInside(s, m, end);
    var matches := WindowMatches(s, cursor, end, regionEnd);
    WindowMatchesAreHits(s, cursor, end, regionEnd);
    var k :| 0 <= k < |matches| && matches[k] == m;
    ProcessCovers(s, matches, k);
    ProcessChains(s, matches);
    var j :| 0 <= j < |reports| && CoveredBy(reports[j], m);
    if 0 < i {
      ResumeIsPast(reports[i - 1], m.offset);
    }
  }

  // Of its whole matches a window first reports the first.
  lemma FirstReportIsFirst(s: Scan, cursor: nat, regionEnd: nat, m: Match)
    requires cursor <= m.offset < regionEnd && HitBy(s, m, cursor + ReadBytes(s, cursor, regionEnd))
    ensures |ReportsAt(s, cursor, regionEnd)| > 0 && Before(ReportsAt(s, cursor, regionEnd)[0].found, m)
  {
    hide ReportsAt, HitBy;
    WindowGoesOn(s, cursor, regionEnd, 0, m);
    WindowTakesFirst(s, cursor, regionEnd, 0, m);
  }

  // After a report, it goes on to the first of them past that report: past all of
  // a trusted candidate, past the start of a rejected one.
  lemma NextReportIsFirst(s: Scan, cursor: nat, regionEnd: nat, i: nat, m: Match)
    requires cursor < regionEnd && i < |ReportsAt(s, cursor, regionEnd)|
    requires HitBy(s, m, cursor + ReadBytes(s, cursor, regionEnd)) && m.offset < regionEnd
    requires var report := ReportsAt(s, cursor, regionEnd)[i];
             report.found.offset < m.offset
             && (report.result.rejected || report.found.offset + report.result.length <= m.offset)
    ensures i + 1 < |ReportsAt(s, cursor, regionEnd)| && Before(ReportsAt(s, cursor, regionEnd)[i + 1].found, m)
  {
    hide ReportsAt, HitBy;
    WindowGoesOn(s, cursor, regionEnd, i + 1, m);
    WindowTakesFirst(s, cursor, regionEnd, i + 1, m);
  }

  // A scan reports nothing inside a trusted candidate it has reported.
  lemma NothingInsideATrusted(s: Scan, cursor: nat, regionEnd: nat, i: nat, j: nat)
    requires i < j < |ScanFrom(s, cursor, regionEnd)|
    ensures var earlier, later := ScanFrom(s, cursor, regionEnd)[i], ScanFrom(s, cursor, regionEnd)[j];
            earlier.found.offset < later.found.offset
            && (!earlier.result.rejected ==> earlier.found.offset + earlier.result.length <= later.found.offset)
  {
    hide ScanFrom, HitBy;
    ScanReportsInOrder(s, cursor, regionEnd);
  }

  lemma FromIsPastCursor(s: Scan, cursor: nat, regionEnd: nat, i: nat)
    requires cursor < regionEnd && i < |ReportsAt(s, cursor, regionEnd)|
    ensures cursor <= FromOf(cursor, ReportsAt(s, cursor, regionEnd), i)
    ensures FromOf(cursor, ReportsAt(s, cursor, regionEnd), i) <= ReportsAt(s, cursor, regionEnd)[i].found.offset < regionEnd
    ensures Hit(s, ReportsAt(s, cursor, regionEnd)[i].found)
  {
    hide ReportsAt, HitBy;
    FromIsPast(s, cursor, regionEnd, i);
    NextCursorReaches(s, cursor, regionEnd);
  }

  lemma ReportIsCarved(s: Scan, cursor: nat, regionEnd: nat, i: nat)
    requires cursor < regionEnd && i < |ReportsAt(s, cursor, regionEnd)|
    ensures ReportsAt(s, cursor, regionEnd)[i].result == s.carve(ReportsAt(s, cursor, regionEnd)[i].found)
  {
    hide WindowMatches, Process;
    ProcessCarves(s, WindowMatches(s, cursor, cursor + ReadBytes(s, cursor, regionEnd), regionEnd));
  }

  // The window's report is the region's first signature exactly when it passes
  // over none that the window's end cuts off.
  lemma WindowIsGreedyExactly(s: Scan, cursor: nat, regionEnd: nat, i: nat)
    requires cursor < regionEnd && i < |ReportsAt(s, cursor, regionEnd)|
    ensures var reports := ReportsAt(s, cursor, regionEnd);
            var from := FromOf(cursor, reports, i);
            IsFirst(s, from, regionEnd, reports[i].found)
            <==> OvertakesNone(s, from, cursor + ReadBytes(s, cursor, regionEnd), regionEnd, reports[i])
  {
    hide ReportsAt, HitBy, ResumeOffset, FromOf, ReadBytes;
    var end := cursor + ReadBytes(s, cursor, regionEnd);
    var reports := ReportsAt(s, cursor, regionEnd);
    var from := FromOf(cursor, reports, i);
    FromIsPastCursor(s, cursor, regionEnd, i);
    if OvertakesNone(s, from, end, regionEnd, reports[i]) {
      forall m | Hit(s, m) && from <= m.offset < regionEnd
        ensures Before(reports[i].found, m)
      {
        assert !Overtakes(s, from, end, regionEnd, reports[i], m);
        if HitBy(s, m, end) {
          WindowTakesFirst(s, cursor, regionEnd, i, m);
        }
      }
    }
  }

  // A signature that starts before the next window was whole in this one.
  lemma StartsBeforeNextIsWhole(s: Scan, cursor: nat, regionEnd: nat, m: Match)
    requires Scannable(s, regionEnd) && cursor < regionEnd && Hit(s, m) && cursor <= m.offset
    requires ReadBytes(s, cursor, regionEnd) > 0 ==> WindowOutcome(s, cursor, regionEnd).resume <= m.offset
    requires m.offset < Min(CursorAfter(s, cursor, regionEnd), regionEnd)
    ensures HitBy(s, m, cursor + ReadBytes(s, cursor, regionEnd))
  {
    hide WindowOutcome, HitBy, MaxSignatureBytes;
    HitHasWidth(s, m);
    ReadsReach(s, cursor, regionEnd);
    var widest := MaxSignatureBytes(s.carvers);
    var bytesRead := ReadBytes(s, cursor, regionEnd);
    var end := cursor + bytesRead;
    assert bytesRead > 0;
    if end != |s.device| {
      assert bytesRead >= widest && OverlapBytes(s, bytesRead) == widest - 1;
      HitWithinReach(s, m, end);
    }
  }

  // Between what a window resolved and where the next one starts, there is no
  // signature left.
  lemma NoneSkipped(s: Scan, cursor: nat, regionEnd: nat)
    requires Scannable(s, regionEnd) && cursor < regionEnd
    ensures var reports := ReportsAt(s, cursor, regionEnd);
            NoneBetween(s, FromOf(cursor, reports, |reports|), Min(CursorAfter(s, cursor, regionEnd), regionEnd))
  {
    hide WindowMatches, Process, HitBy, ResumeOffset, CursorAfter, MaxSignatureBytes;
    var reports := ReportsAt(s, cursor, regionEnd);
    var end := cursor + ReadBytes(s, cursor, regionEnd);
    LastFromIsPast(s, cursor, regionEnd);
    var from := FromOf(cursor, reports, |reports|);
    FromIsResume(cursor, reports, |reports|);
    forall m: Match | from <= m.offset < Min(CursorAfter(s, cursor, regionEnd), regionEnd)
      ensures !Hit(s, m)
    {
      if Hit(s, m) {
        HitHasWidth(s, m);
        assert ReadBytes(s, cursor, regionEnd) > 0;
        var matches := WindowMatches(s, cursor, end, regionEnd);
        ProcessResume(s, matches);
        StartsBeforeNextIsWhole(s, cursor, regionEnd, m);
        WindowMatchesAreHits(s, cursor, end, regionEnd);
        ProcessPasses(s, matches);
        assert false;
      }
    }
  }

  lemma LastFromIsPast(s: Scan, cursor: nat, regionEnd: nat)
    requires cursor < regionEnd
    ensures cursor <= FromOf(cursor, ReportsAt(s, cursor, regionEnd), |ReportsAt(s, cursor, regionEnd)|)
                   <= CursorAfter(s, cursor, regionEnd)
  {
    hide ReportsAt, CursorAfter;
    NextCursorReaches(s, cursor, regionEnd);
    var reports := ReportsAt(s, cursor, regionEnd);
    if reports != [] {
      ResumesPast(reports[|reports| - 1]);
    }
    CursorAdvances(s, cursor, regionEnd);
  }

  lemma FromOfLater(from: nat, a: seq<Report>, next: nat, b: seq<Report>, j: nat)
    requires j <= |b|
    ensures FromOf(from, a + b, |a| + j) == if j == 0 then FromOf(from, a, |a|) else FromOf(next, b, j)
  {
  }

  // With nothing to find in between, a greedy pass may start from either place.
  lemma GreedyFromEither(s: Scan, from: nat, next: nat, regionEnd: nat, reports: seq<Report>)
    requires from <= next && NoneBetween(s, from, Min(next, regionEnd))
    ensures Greedy(s, from, regionEnd, reports) <==> Greedy(s, next, regionEnd, reports)
  {
    hide Hit, ResumeOffset;
    forall i: nat | i < |reports|
      ensures GreedyStep(s, from, regionEnd, reports, i) <==> GreedyStep(s, next, regionEnd, reports, i)
    {
      if i == 0 {
        FirstFromEither(s, from, next, regionEnd, reports[0].found);
      }
    }
    assert FromOf(from, reports, |reports|) == FromOf(next, reports, |reports|) || reports == [];
  }

  lemma FirstFromEither(s: Scan, from: nat, next: nat, regionEnd: nat, m: Match)
    requires from <= next && NoneBetween(s, from, Min(next, regionEnd))
    ensures IsFirst(s, from, regionEnd, m) <==> IsFirst(s, next, regionEnd, m)
  {
    hide HitBy;
  }

  lemma GreedyPrefix(s: Scan, from: nat, regionEnd: nat, a: seq<Report>, b: seq<Report>)
    requires forall i: nat :: i < |a| ==> GreedyStep(s, from, regionEnd, a, i)
    requires Greedy(s, FromOf(from, a, |a|), regionEnd, b)
    ensures Greedy(s, from, regionEnd, a + b)
  {
    hide IsFirst, NoneBetween, ResumeOffset;
    var next := FromOf(from, a, |a|);
    forall i: nat | i < |a + b|
      ensures GreedyStep(s, from, regionEnd, a + b, i)
    {
      if i < |a| {
        assert GreedyStep(s, from, regionEnd, a, i);
      } else {
        FromOfLater(from, a, next, b, i - |a|);
        assert GreedyStep(s, next, regionEnd, b, i - |a|);
      }
    }
    FromOfLater(from, a, next, b, |b|);
  }

  lemma GreedySplits(s: Scan, from: nat, regionEnd: nat, a: seq<Report>, b: seq<Report>)
    requires Greedy(s, from, regionEnd, a + b)
    ensures forall i: nat :: i < |a| ==> GreedyStep(s, from, regionEnd, a, i)
    ensures Greedy(s, FromOf(from, a, |a|), regionEnd, b)
  {
    hide IsFirst, NoneBetween, ResumeOffset;
    var next := FromOf(from, a, |a|);
    forall i: nat | i < |a|
      ensures GreedyStep(s, from, regionEnd, a, i)
    {
      assert GreedyStep(s, from, regionEnd, a + b, i);
    }
    forall i: nat | i < |b|
      ensures GreedyStep(s, next, regionEnd, b, i)
    {
      assert GreedyStep(s, from, regionEnd, a + b, |a| + i);
      FromOfLater(from, a, next, b, i);
    }
    FromOfLater(from, a, next, b, |b|);
  }

  lemma WindowReportsGreedily(s: Scan, cursor: nat, regionEnd: nat)
    requires cursor < regionEnd
    ensures var reports := ReportsAt(s, cursor, regionEnd);
            (forall i: nat :: i < |reports| ==> GreedyStep(s, cursor, regionEnd, reports, i))
            <==> WindowOvertakesNone(s, cursor, cursor + ReadBytes(s, cursor, regionEnd), regionEnd, reports)
  {
    hide OvertakesNone, IsFirst, WindowMatches, Process, ResumeOffset;
    var reports := ReportsAt(s, cursor, regionEnd);
    if ReadBytes(s, cursor, regionEnd) > 0 {
      ProcessCarves(s, WindowMatches(s, cursor, cursor + ReadBytes(s, cursor, regionEnd), regionEnd));
    }
    forall i: nat | i < |reports|
      ensures GreedyStep(s, cursor, regionEnd, reports, i)
              <==> OvertakesNone(s, FromOf(cursor, reports, i), cursor + ReadBytes(s, cursor, regionEnd), regionEnd, reports[i])
    {
      WindowIsGreedyExactly(s, cursor, regionEnd, i);
    }
  }

  // The windowed scan reports exactly what one greedy pass over the region would
  // if and only if no window overtakes a signature that its end cuts off.
  lemma {:induction false} ScanIsGreedyExactly(s: Scan, cursor: nat, regionEnd: nat)
    requires Scannable(s, regionEnd)
    ensures Greedy(s, cursor, regionEnd, ScanFrom(s, cursor, regionEnd)) <==> NothingOvertaken(s, cursor, regionEnd)
    decreases regionEnd - cursor
  {
    hide ReportsAt, CursorAfter, WindowOvertakesNone, GreedyStep, NoneBetween, Scannable, Hit;
    if cursor < regionEnd {
      CursorAdvances(s, cursor, regionEnd);
      var here, next := ReportsAt(s, cursor, regionEnd), CursorAfter(s, cursor, regionEnd);
      var rest := ScanFrom(s, next, regionEnd);
      var from := FromOf(cursor, here, |here|);
      ScanIsGreedyExactly(s, next, regionEnd);
      WindowReportsGreedily(s, cursor, regionEnd);
      NoneSkipped(s, cursor, regionEnd);
      LastFromIsPast(s, cursor, regionEnd);
      GreedyFromEither(s, from, next, regionEnd, rest);
      if Greedy(s, cursor, regionEnd, here + rest) {
        GreedySplits(s, cursor, regionEnd, here, rest);
      }
      if NothingOvertaken(s, cursor, regionEnd) {
        GreedyPrefix(s, cursor, regionEnd, here, rest);
      }
    } else {
      NothingLeft(s, cursor, regionEnd);
    }
  }

  lemma NothingLeft(s: Scan, cursor: nat, regionEnd: nat)
    requires cursor >= regionEnd
    ensures NoneBetween(s, cursor, regionEnd)
  {
  }

  // ---- When nothing can be overtaken, whatever the windows ----

  // Signatures end in the order they start: no later one is whole before an
  // earlier one is.
  ghost predicate EndInOrder(s: Scan) {
    forall a, b, end: nat :: Hit(s, a) && Before(a, b) && HitBy(s, b, end) ==> HitBy(s, a, end)
  }

  lemma {:induction false} EndInOrderOvertakesNothing(s: Scan, cursor: nat, regionEnd: nat)
    requires EndInOrder(s)
    ensures NothingOvertaken(s, cursor, regionEnd)
    decreases regionEnd - cursor
  {
    if cursor < regionEnd {
      var end := cursor + ReadBytes(s, cursor, regionEnd);
      var reports := ReportsAt(s, cursor, regionEnd);
      forall i, m | 0 <= i < |reports| && Hit(s, m)
        ensures !Overtakes(s, FromOf(cursor, reports, i), end, regionEnd, reports[i], m)
      {
        ReportIsWhole(s, cursor, regionEnd, i);
      }
      EndInOrderOvertakesNothing(s, CursorAfter(s, cursor, regionEnd), regionEnd);
    }
  }

  lemma ReportIsWhole(s: Scan, cursor: nat, regionEnd: nat, i: nat)
    requires cursor < regionEnd && i < |ReportsAt(s, cursor, regionEnd)|
    ensures HitBy(s, ReportsAt(s, cursor, regionEnd)[i].found, cursor + ReadBytes(s, cursor, regionEnd))
  {
    hide WindowMatches, Process, HitBy;
    var end := cursor + ReadBytes(s, cursor, regionEnd);
    var matches := WindowMatches(s, cursor, end, regionEnd);
    WindowMatchesAreHits(s, cursor, end, regionEnd);
    ProcessCarves(s, matches);
  }

  // Distinct signatures start at least one signature's reach apart.
  ghost predicate Spaced(s: Scan) {
    forall a, b :: Hit(s, a) && Hit(s, b) && a != b && Before(a, b) ==>
      a.offset + MaxSignatureBytes(s.carvers) <= b.offset
  }

  lemma SpacedEndsInOrder(s: Scan)
    requires Spaced(s)
    ensures EndInOrder(s)
  {
    forall a, b, end: nat | Hit(s, a) && Before(a, b) && HitBy(s, b, end)
      ensures HitBy(s, a, end)
    {
      HitIsOnDevice(s, b, end);
      HitByLater(s, b, end, |s.device|);
      if a != b {
        HitWithinReach(s, a, end);
      }
    }
  }

  ghost predicate SameHits(a: Scan, b: Scan) {
    a.device == b.device && a.carvers == b.carvers && a.carve == b.carve
  }

  lemma GreedyIgnoresWindow(a: Scan, b: Scan, from: nat, regionEnd: nat, reports: seq<Report>)
    requires SameHits(a, b) && Greedy(a, from, regionEnd, reports)
    ensures Greedy(b, from, regionEnd, reports)
  {
    assert forall m, end :: HitBy(a, m, end) <==> HitBy(b, m, end);
    forall i: nat | i < |reports|
      ensures GreedyStep(b, from, regionEnd, reports, i)
    {
      assert GreedyStep(a, from, regionEnd, reports, i);
    }
  }

  // Where signatures end in the order they start, what a scan reports does not
  // depend on how much of the device it reads at a time.
  lemma ReportsIgnoreWindowSize(a: Scan, b: Scan, cursor: nat, regionEnd: nat)
    requires SameHits(a, b) && Scannable(a, regionEnd) && Scannable(b, regionEnd) && EndInOrder(a)
    ensures ScanFrom(a, cursor, regionEnd) == ScanFrom(b, cursor, regionEnd)
    ensures Greedy(a, cursor, regionEnd, ScanFrom(a, cursor, regionEnd))
  {
    assert forall m, end :: HitBy(a, m, end) <==> HitBy(b, m, end);
    hide ScanFrom, Greedy, HitBy, Scannable;
    EndInOrderOvertakesNothing(a, cursor, regionEnd);
    EndInOrderOvertakesNothing(b, cursor, regionEnd);
    ScanIsGreedyExactly(a, cursor, regionEnd);
    ScanIsGreedyExactly(b, cursor, regionEnd);
    GreedyIgnoresWindow(b, a, cursor, regionEnd, ScanFrom(b, cursor, regionEnd));
    GreedyIsUnique(a, cursor, regionEnd, ScanFrom(a, cursor, regionEnd), ScanFrom(b, cursor, regionEnd));
  }

  // ---- Where the window size does decide ----

  // A three-byte signature at 1 and a one-byte signature at 2, both on a device
  // of four bytes; the short one's carver rejects what it finds.
  function EdgeScan(windowBytes: nat): Scan {
    Scan([0, 1, 2, 3], [[Signature([1, 2, 3], 0)], [Signature([2], 0)]], windowBytes,
         (m: Match) => if m.carverIndex == 0 then CarveResult(3, false) else CarveResult(0, true))
  }

  lemma EdgeEntries(windowBytes: nat)
    ensures Flatten(EdgeScan(windowBytes).carvers)
            == [SignatureEntry([1, 2, 3], 0, 0), SignatureEntry([2], 0, 1)]
    ensures MaxSignatureBytes(EdgeScan(windowBytes).carvers) == 3
  {
    var carvers := EdgeScan(windowBytes).carvers;
    assert carvers[1..] == [[Signature([2], 0)]];
    assert EntriesOf(carvers[0], 0) == [SignatureEntry([1, 2, 3], 0, 0)];
    assert EntriesOf(carvers[1], 1) == [SignatureEntry([2], 0, 1)];
    assert FlattenFrom(carvers[1..], 1) == [SignatureEntry([2], 0, 1)];
    assert WidestSignature(carvers[0]) == 3 && WidestSignature(carvers[1]) == 1;
    assert MaxSignatureBytes(carvers[1..]) == 1;
  }

  lemma OnlyShortFits(m: Match)
    ensures HitBy(EdgeScan(3), m, 3) <==> m == Match(2, 1)
  {
    var s := EdgeScan(3);
    EdgeEntries(3);
    var entries := Flatten(s.carvers);
    if m == Match(2, 1) {
      assert EntryFits(s.device, entries[1], m, 3);
    }
    assert s.device[0..3] != [1, 2, 3] by {
      assert s.device[0..3][0] == 0;
    }
    if i :| 0 <= i < |entries| && EntryFits(s.device, entries[i], m, 3) {
      assert i == 1;
      assert s.device[m.offset..m.offset + 1][0] == s.device[m.offset];
    }
  }

  lemma LongIsCutOff()
    ensures Hit(EdgeScan(3), Match(1, 0)) && !HitBy(EdgeScan(3), Match(1, 0), 3)
  {
    var s := EdgeScan(3);
    EdgeEntries(3);
    assert EntryFits(s.device, Flatten(s.carvers)[0], Match(1, 0), 4);
    OnlyShortFits(Match(1, 0));
  }

  lemma ShortIsReportedFirst()
    ensures ReadBytes(EdgeScan(3), 0, 4) == 3
    ensures var reports := ReportsAt(EdgeScan(3), 0, 4); reports != [] && reports[0].found == Match(2, 1)
  {
    var s := EdgeScan(3);
    EdgeEntries(3);
    hide HitBy, WindowMatches, Process, MaxSignatureBytes;
    var matches := WindowMatches(s, 0, 3, 4);
    WindowMatchesAreHits(s, 0, 3, 4);
    OnlyShortFits(Match(2, 1));
    assert Match(2, 1) in matches;
    ProcessPasses(s, matches);
    ProcessResume(s, matches);
    ProcessCarves(s, matches);
    OnlyShortFits(Process(s, matches).reports[0].found);
  }

  // A three-byte window sees only the short signature whole, and moves on past
  // the start of the long one.
  lemma ShortWindowOvertakes()
    ensures !NothingOvertaken(EdgeScan(3), 0, 4)
  {
    hide HitBy, ReportsAt, ReadBytes;
    ShortIsReportedFirst();
    LongIsCutOff();
    var reports := ReportsAt(EdgeScan(3), 0, 4);
    assert Overtakes(EdgeScan(3), FromOf(0, reports, 0), 3, 4, reports[0], Match(1, 0));
    assert !OvertakesNone(EdgeScan(3), FromOf(0, reports, 0), 3, 4, reports[0]);
  }

  // A window that reaches the device's end cuts nothing off.
  lemma {:induction false} WholeWindowOvertakesNothing(cursor: nat)
    requires cursor <= 4
    ensures NothingOvertaken(EdgeScan(4), cursor, 4)
    decreases 4 - cursor
  {
    if cursor < 4 {
      var s := EdgeScan(4);
      EdgeEntries(4);
      assert cursor + ReadBytes(s, cursor, 4) == 4 == |s.device|;
      CursorAdvances(s, cursor, 4);
      if CursorAfter(s, cursor, 4) <= 4 {
        WholeWindowOvertakesNothing(CursorAfter(s, cursor, 4));
      }
    }
  }

  // So one greedy pass is not what the scan computes in general: the same device
  // and carvers report differently for two window sizes that both hold every
  // signature.
  lemma WindowSizeCanDecide()
    ensures SameHits(EdgeScan(3), EdgeScan(4))
    ensures Scannable(EdgeScan(3), 4) && Scannable(EdgeScan(4), 4)
    ensures ScanFrom(EdgeScan(3), 0, 4) != ScanFrom(EdgeScan(4), 0, 4)
  {
    EdgeEntries(3);
    EdgeEntries(4);
    hide ScanFrom, NothingOvertaken, Greedy, MaxSignatureBytes;
    assert EdgeScan(3).carve == EdgeScan(4).carve;
    ShortWindowOvertakes();
    WholeWindowOvertakesNothing(0);
    ScanIsGreedyExactly(EdgeScan(3), 0, 4);
    ScanIsGreedyExactly(EdgeScan(4), 0, 4);
    GreedyIgnoresWindow(EdgeScan(4), EdgeScan(3), 0, 4, ScanFrom(EdgeScan(4), 0, 4));
  }
}
