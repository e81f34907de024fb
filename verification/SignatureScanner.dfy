// The streaming signature scan: overlapping bounded windows over a region, and a
// resume cursor that skips what a reported candidate already covers.
module Scanning {
  import opened Bytes
  import opened Regions
  import opened Signatures
  import opened WindowMatching

  // What a carver concluded about one match, the plausibility floor applied.
  datatype CarveResult = CarveResult(length: nat, rejected: bool)

  // A scan of one device by one registry of carvers. A carver is a deterministic
  // function of where it is asked to look.
  datatype Scan = Scan(
    device: seq<byte>,
    carvers: seq<Carver>,
    windowBytes: nat,
    carve: Match -> CarveResult)

  datatype Report = Report(found: Match, result: CarveResult)

  // ---- The registry ----

  function WidestSignature(signatures: seq<Signature>): nat {
    if signatures == [] then 0
    else
      var rest := WidestSignature(signatures[1..]);
      var first := |signatures[0].magic| + signatures[0].offset;
      if first > rest then first else rest
  }

  function MaxSignatureBytes(carvers: seq<Carver>): nat {
    if carvers == [] then 0
    else
      var rest := MaxSignatureBytes(carvers[1..]);
      var first := WidestSignature(carvers[0]);
      if first > rest then first else rest
  }

  predicate SpansWithin(entries: seq<SignatureEntry>, widest: nat) {
    forall i :: 0 <= i < |entries| ==> entries[i].magic != [] && entries[i].inFileOffset + |entries[i].magic| <= widest
  }

  lemma {:induction false} EntriesSpanWithin(signatures: seq<Signature>, carverIndex: nat)
    ensures SpansWithin(EntriesOf(signatures, carverIndex), WidestSignature(signatures))
  {
    if signatures == [] {
    } else {
      EntriesSpanWithin(signatures[1..], carverIndex);
    }
  }

  lemma {:induction false} FlattenSpansWithin(carvers: seq<Carver>, carverIndex: nat)
    ensures SpansWithin(FlattenFrom(carvers, carverIndex), MaxSignatureBytes(carvers))
  {
    if carvers == [] {
    } else {
      EntriesSpanWithin(carvers[0], carverIndex);
      FlattenSpansWithin(carvers[1..], carverIndex + 1);
    }
  }

  // It is the reach of some signature, or there is none.
  lemma {:induction false} WidestIsASignature(signatures: seq<Signature>) returns (k: nat)
    requires WidestSignature(signatures) > 0
    ensures k < |signatures| && WidestSignature(signatures) == signatures[k].offset + |signatures[k].magic|
  {
    if WidestSignature(signatures) == signatures[0].offset + |signatures[0].magic| {
      k := 0;
    } else {
      var rest := WidestIsASignature(signatures[1..]);
      k := rest + 1;
    }
  }

  lemma {:induction false} MaxIsASignature(carvers: seq<Carver>) returns (c: nat, k: nat)
    requires MaxSignatureBytes(carvers) > 0
    ensures c < |carvers| && k < |carvers[c]|
    ensures MaxSignatureBytes(carvers) == carvers[c][k].offset + |carvers[c][k].magic|
  {
    hide WidestSignature;
    if MaxSignatureBytes(carvers) == WidestSignature(carvers[0]) {
      c := 0;
      k := WidestIsASignature(carvers[0]);
    } else {
      var rest;
      rest, k := MaxIsASignature(carvers[1..]);
      c := rest + 1;
    }
  }

  // ---- Where signatures really are ----

  // `entry`'s magic is on the device where a file starting at `m` would have it,
  // and ends by `end`.
  predicate EntryFits(device: seq<byte>, entry: SignatureEntry, m: Match, end: nat) {
    var at := m.offset + entry.inFileOffset;
    && entry.carverIndex == m.carverIndex
    && at + |entry.magic| <= end <= |device|
    && device[at..at + |entry.magic|] == entry.magic
  }

  // Some signature of the match's carver is whole by `end`.
  ghost predicate HitBy(s: Scan, m: Match, end: nat) {
    exists i :: 0 <= i < |Flatten(s.carvers)| && EntryFits(s.device, Flatten(s.carvers)[i], m, end)
  }

  ghost predicate Hit(s: Scan, m: Match) {
    HitBy(s, m, |s.device|)
  }

  // The bytes of a signature's magic stand where a file starting at `offset` would
  // have them, and end by `end`.
  predicate StandsAt(device: seq<byte>, signature: Signature, offset: nat, end: nat) {
    var at := offset + signature.offset;
    signature.magic != [] && at + |signature.magic| <= end <= |device|
    && device[at..at + |signature.magic|] == signature.magic
  }

  // A match is a hit exactly when a signature its carver registered stands there.
  lemma HitIsASignature(s: Scan, m: Match, end: nat)
    ensures HitBy(s, m, end)
            <==> && m.carverIndex < |s.carvers|
                 && exists k :: 0 <= k < |s.carvers[m.carverIndex]|
                                && StandsAt(s.device, s.carvers[m.carverIndex][k], m.offset, end)
  {
    hide FlattenFrom;
    var entries := Flatten(s.carvers);
    if i :| 0 <= i < |entries| && EntryFits(s.device, entries[i], m, end) {
      FlattenIsRegistered(s.carvers, 0, entries[i]);
      var signature := Signature(entries[i].magic, entries[i].inFileOffset);
      var k :| 0 <= k < |s.carvers[m.carverIndex]| && s.carvers[m.carverIndex][k] == signature;
      assert StandsAt(s.device, s.carvers[m.carverIndex][k], m.offset, end);
    }
    if m.carverIndex < |s.carvers| {
      if k :| 0 <= k < |s.carvers[m.carverIndex]| && StandsAt(s.device, s.carvers[m.carverIndex][k], m.offset, end) {
        var signature := s.carvers[m.carverIndex][k];
        var entry := SignatureEntry(signature.magic, signature.offset, m.carverIndex);
        FlattenIsRegistered(s.carvers, 0, entry);
        var i :| 0 <= i < |entries| && entries[i] == entry;
        assert EntryFits(s.device, entries[i], m, end);
      }
    }
  }

  lemma HitByLater(s: Scan, m: Match, end: nat, later: nat)
    requires HitBy(s, m, end) && end <= later <= |s.device|
    ensures HitBy(s, m, later)
  {
    var i :| 0 <= i < |Flatten(s.carvers)| && EntryFits(s.device, Flatten(s.carvers)[i], m, end);
    assert EntryFits(s.device, Flatten(s.carvers)[i], m, later);
  }

  // A hit is whole within one signature's reach of its start.
  lemma HitWithinReach(s: Scan, m: Match, end: nat)
    requires Hit(s, m) && m.offset + MaxSignatureBytes(s.carvers) <= end <= |s.device|
    ensures HitBy(s, m, end)
  {
    FlattenSpansWithin(s.carvers, 0);
    var i :| 0 <= i < |Flatten(s.carvers)| && EntryFits(s.device, Flatten(s.carvers)[i], m, |s.device|);
    assert EntryFits(s.device, Flatten(s.carvers)[i], m, end);
  }

  lemma HitIsOnDevice(s: Scan, m: Match, end: nat)
    requires HitBy(s, m, end)
    ensures m.offset < end <= |s.device|
  {
    FlattenSpansWithin(s.carvers, 0);
  }

  // ---- Membership of a window's match list ----

  lemma {:induction false} InMatchesAt(entries: seq<SignatureEntry>, tail: seq<byte>, absolute: nat, m: Match)
    ensures m in MatchesAt(entries, tail, absolute)
            <==> exists i :: 0 <= i < |entries| && MagicIsAt(tail, entries[i].magic)
                             && m in Recorded(entries[i], absolute)
  {
    if entries == [] {
    } else {
      InMatchesAt(entries[1..], tail, absolute, m);
      if i :| 0 <= i < |entries[1..]| && MagicIsAt(tail, entries[1..][i].magic) && m in Recorded(entries[1..][i], absolute) {
        assert entries[i + 1] == entries[1..][i];
      }
      if i :| 0 <= i < |entries| && MagicIsAt(tail, entries[i].magic) && m in Recorded(entries[i], absolute) {
        assert i > 0 ==> entries[1..][i - 1] == entries[i];
      }
    }
  }

  lemma {:induction false} InNaive(entries: seq<SignatureEntry>, window: seq<byte>, windowOffset: nat, upTo: nat, m: Match)
    requires upTo <= |window|
    ensures m in NaiveUpTo(entries, window, windowOffset, upTo)
            <==> exists at :: 0 <= at < upTo && m in MatchesAt(entries, window[at..], windowOffset + at)
  {
    hide MatchesAt;
    if upTo == 0 {
    } else {
      InNaive(entries, window, windowOffset, upTo - 1, m);
    }
  }

  // A magic at a window position is the magic at the device position.
  lemma MagicInWindow(device: seq<byte>, from: nat, end: nat, at: nat, magic: seq<byte>)
    requires from <= end <= |device| && at <= end - from
    ensures MagicIsAt(device[from..end][at..], magic)
            <==> from + at + |magic| <= end && device[from + at..from + at + |magic|] == magic
  {
    if from + at + |magic| <= end {
      assert device[from..end][at..][..|magic|] == device[from + at..from + at + |magic|];
    }
  }

  lemma WindowFindsHit(s: Scan, from: nat, end: nat, m: Match)
    requires from <= end <= |s.device| && from <= m.offset && HitBy(s, m, end)
    ensures m in Naive(Flatten(s.carvers), s.device[from..end], from)
  {
    hide Flatten, MatchesAt, MagicIsAt, NaiveUpTo;
    var entries, window := Flatten(s.carvers), s.device[from..end];
    FlattenSpansWithin(s.carvers, 0);
    assert SpansWithin(entries, MaxSignatureBytes(s.carvers)) by { FlattenIs(s.carvers); }
    var i :| 0 <= i < |entries| && EntryFits(s.device, entries[i], m, end);
    var at := m.offset + entries[i].inFileOffset - from;
    MagicInWindow(s.device, from, end, at, entries[i].magic);
    assert m in Recorded(entries[i], from + at);
    InMatchesAt(entries, window[at..], from + at, m);
    InNaive(entries, window, from, |window|, m);
  }

  lemma FlattenIs(carvers: seq<Carver>)
    ensures Flatten(carvers) == FlattenFrom(carvers, 0)
  {
  }

  lemma WindowFindsOnlyHits(s: Scan, from: nat, end: nat, m: Match)
    requires from <= end <= |s.device|
    requires m in Naive(Flatten(s.carvers), s.device[from..end], from)
    ensures HitBy(s, m, end)
  {
    hide Flatten, MatchesAt, MagicIsAt, NaiveUpTo;
    var entries, window := Flatten(s.carvers), s.device[from..end];
    InNaive(entries, window, from, |window|, m);
    var at :| 0 <= at < |window| && m in MatchesAt(entries, window[at..], from + at);
    InMatchesAt(entries, window[at..], from + at, m);
    var i :| 0 <= i < |entries| && MagicIsAt(window[at..], entries[i].magic) && m in Recorded(entries[i], from + at);
    MagicInWindow(s.device, from, end, at, entries[i].magic);
    assert EntryFits(s.device, entries[i], m, end);
  }

  // `erase_if` of the matches that start before the window.
  function AtOrPast(matches: seq<Match>, low: nat): seq<Match> {
    if matches == [] then []
    else (if matches[0].offset < low then [] else [matches[0]]) + AtOrPast(matches[1..], low)
  }

  // `erase_if` of the matches that start past the region.
  function Below(matches: seq<Match>, high: nat): seq<Match> {
    if matches == [] then []
    else (if matches[0].offset >= high then [] else [matches[0]]) + Below(matches[1..], high)
  }

  lemma {:induction false} AtOrPastIsFilter(matches: seq<Match>, low: nat)
    ensures forall m :: m in AtOrPast(matches, low) <==> m in matches && low <= m.offset
    ensures InOrder(matches) ==> InOrder(AtOrPast(matches, low))
  {
    if matches == [] {
    } else {
      AtOrPastIsFilter(matches[1..], low);
      var rest := AtOrPast(matches[1..], low);
      if InOrder(matches) {
        forall i | 0 <= i < |rest|
          ensures Before(matches[0], rest[i])
        {
          assert rest[i] in matches[1..];
        }
      }
    }
  }

  lemma {:induction false} BelowIsFilter(matches: seq<Match>, high: nat)
    ensures forall m :: m in Below(matches, high) <==> m in matches && m.offset < high
    ensures InOrder(matches) ==> InOrder(Below(matches, high))
  {
    if matches == [] {
    } else {
      BelowIsFilter(matches[1..], high);
      var rest := Below(matches[1..], high);
      if InOrder(matches) {
        forall i | 0 <= i < |rest|
          ensures Before(matches[0], rest[i])
        {
          assert rest[i] in matches[1..];
        }
      }
    }
  }

  // The matches one window contributes, in canonical order.
  function WindowMatches(s: Scan, from: nat, end: nat, regionEnd: nat): seq<Match>
    requires from <= end <= |s.device|
  {
    Below(AtOrPast(Canonical(Naive(Flatten(s.carvers), s.device[from..end], from)), from), regionEnd)
  }

  lemma WindowMatchesAreHits(s: Scan, from: nat, end: nat, regionEnd: nat)
    requires from <= end <= |s.device|
    ensures InOrder(WindowMatches(s, from, end, regionEnd))
    ensures forall m :: m in WindowMatches(s, from, end, regionEnd)
                        <==> from <= m.offset < regionEnd && HitBy(s, m, end)
  {
    hide Naive, Canonical, AtOrPast, Below, HitBy;
    var naive := Naive(Flatten(s.carvers), s.device[from..end], from);
    CanonicalIsSorted(naive);
    AtOrPastIsFilter(Canonical(naive), from);
    BelowIsFilter(AtOrPast(Canonical(naive), from), regionEnd);
    forall m
      ensures m in WindowMatches(s, from, end, regionEnd) <==> from <= m.offset < regionEnd && HitBy(s, m, end)
    {
      assert m in Canonical(naive) <==> m in multiset(Canonical(naive));
      assert m in naive <==> m in multiset(naive);
      if m in naive {
        WindowFindsOnlyHits(s, from, end, m);
      } else if from <= m.offset && HitBy(s, m, end) {
        WindowFindsHit(s, from, end, m);
      }
    }
  }

  // ---- Carving one window's matches ----

  // Where scanning resumes after a candidate: past its extent for a trusted
  // verdict, one byte on for a rejection.
  function ResumeOffset(r: Report): (resume: nat)
    ensures r.found.offset < resume
  {
    if r.result.rejected then r.found.offset + 1
    else r.found.offset + if r.result.length > 1 then r.result.length else 1
  }

  // Past everything a report accounts for: the bytes of a trusted candidate, and
  // the first byte of any.
  predicate Past(r: Report, at: nat) {
    r.found.offset < at && (r.result.rejected || r.found.offset + r.result.length <= at)
  }

  lemma ResumeIsPast(r: Report, at: nat)
    ensures Past(r, at) <==> ResumeOffset(r) <= at
  {
  }

  datatype Outcome = Outcome(resume: nat, reports: seq<Report>)

  // A match inside what a previous candidate resumed past is skipped.
  function ApplyMatch(s: Scan, m: Match, outcome: Outcome): Outcome {
    if m.offset < outcome.resume then outcome
    else
      var r := Report(m, s.carve(m));
      Outcome(ResumeOffset(r), outcome.reports + [r])
  }

  function Process(s: Scan, matches: seq<Match>): Outcome {
    if matches == [] then Outcome(0, [])
    else ApplyMatch(s, matches[|matches| - 1], Process(s, matches[..|matches| - 1]))
  }

  method ProcessMatches(s: Scan, matches: seq<Match>) returns (outcome: Outcome)
    ensures outcome == Process(s, matches)
  {
    outcome := Outcome(0, []);
    for i := 0 to |matches|
      invariant outcome == Process(s, matches[..i])
    {
      assert matches[..i + 1][..i] == matches[..i];
      outcome := ApplyMatch(s, matches[i], outcome);
    }
    assert matches[..|matches|] == matches;
  }

  // ---- The window loop ----

  predicate Scannable(s: Scan, regionEnd: nat) {
    MaxSignatureBytes(s.carvers) <= s.windowBytes && regionEnd <= U64_MAX && |s.device| <= U64_MAX
  }

  // How much of the window buffer a step fills: all of it, or what the region
  // still needs and one signature's reach. Reads are short only at the device's
  // end.
  function ReadBytes(s: Scan, cursor: nat, regionEnd: nat): nat
    requires cursor < regionEnd
  {
    var remaining := regionEnd - cursor;
    var want := if remaining >= s.windowBytes then s.windowBytes
                else Min(s.windowBytes, remaining + MaxSignatureBytes(s.carvers));
    if cursor >= |s.device| then 0 else Min(want, |s.device| - cursor)
  }

  // Never more than the buffer holds or the device has, nor past one signature's
  // reach of the region's end; and no less than the least of the three.
  lemma ReadIsTheMost(s: Scan, cursor: nat, regionEnd: nat, count: nat)
    requires cursor < regionEnd && cursor <= |s.device|
    ensures count <= ReadBytes(s, cursor, regionEnd)
            <==> && count <= s.windowBytes && cursor + count <= |s.device|
                 && cursor + count <= regionEnd + MaxSignatureBytes(s.carvers)
  {
    hide MaxSignatureBytes;
  }

  // The widest signature less one byte, so that what straddles a window's end
  // starts inside the next window.
  function OverlapBytes(s: Scan, bytesRead: nat): nat {
    if MaxSignatureBytes(s.carvers) == 0 then 0 else Min(MaxSignatureBytes(s.carvers) - 1, bytesRead)
  }

  function NextCursor(cursor: nat, windowEnd: nat, overlap: nat, resume: nat): nat
    requires overlap <= windowEnd
  {
    var slidBack := Max(windowEnd - overlap, resume);
    if slidBack > cursor then slidBack else windowEnd
  }

  function WindowOutcome(s: Scan, cursor: nat, regionEnd: nat): Outcome
    requires cursor < regionEnd && ReadBytes(s, cursor, regionEnd) > 0
  {
    Process(s, WindowMatches(s, cursor, cursor + ReadBytes(s, cursor, regionEnd), regionEnd))
  }

  function CursorAfter(s: Scan, cursor: nat, regionEnd: nat): (next: nat)
    requires cursor < regionEnd
    ensures cursor < next
  {
    var bytesRead := ReadBytes(s, cursor, regionEnd);
    if bytesRead == 0 then regionEnd
    else NextCursor(cursor, cursor + bytesRead, OverlapBytes(s, bytesRead), WindowOutcome(s, cursor, regionEnd).resume)
  }

  function ReportsAt(s: Scan, cursor: nat, regionEnd: nat): seq<Report>
    requires cursor < regionEnd
  {
    if ReadBytes(s, cursor, regionEnd) == 0 then [] else WindowOutcome(s, cursor, regionEnd).reports
  }

  // Everything a scan reports from `cursor` to the end of its region.
  function ScanFrom(s: Scan, cursor: nat, regionEnd: nat): seq<Report>
    decreases regionEnd - cursor
  {
    if cursor >= regionEnd then []
    else ReportsAt(s, cursor, regionEnd) + ScanFrom(s, CursorAfter(s, cursor, regionEnd), regionEnd)
  }

  // ---- What one window's carving keeps ----

  // Each report starts past every one before it.
  ghost predicate Chained(reports: seq<Report>) {
    forall i, j :: 0 <= i < j < |reports| ==> Past(reports[i], reports[j].found.offset)
  }

  ghost predicate CoveredBy(r: Report, m: Match) {
    r.found.offset <= m.offset && !Past(r, m.offset)
  }

  ghost predicate Covered(reports: seq<Report>, m: Match) {
    exists i :: 0 <= i < |reports| && CoveredBy(reports[i], m)
  }

  // One match either changes nothing or adds one report, resuming past it.
  lemma ProcessStep(s: Scan, matches: seq<Match>)
    requires matches != []
    ensures var before := Process(s, matches[..|matches| - 1]);
            var last := matches[|matches| - 1];
            Process(s, matches)
            == if last.offset < before.resume then before
               else Outcome(ResumeOffset(Report(last, s.carve(last))), before.reports + [Report(last, s.carve(last))])
  {
  }

  lemma {:induction false} ProcessResume(s: Scan, matches: seq<Match>)
    ensures var o := Process(s, matches);
            o.resume == (if o.reports == [] then 0 else ResumeOffset(o.reports[|o.reports| - 1]))
  {
    hide ResumeOffset;
    if matches == [] {
    } else {
      ProcessResume(s, matches[..|matches| - 1]);
    }
  }

  lemma {:induction false} ProcessChains(s: Scan, matches: seq<Match>)
    ensures Chained(Process(s, matches).reports)
    ensures forall i :: 0 <= i < |Process(s, matches).reports| ==>
              ResumeOffset(Process(s, matches).reports[i]) <= Process(s, matches).resume
  {
    hide ResumeOffset;
    if matches == [] {
    } else {
      var before := Process(s, matches[..|matches| - 1]);
      ProcessChains(s, matches[..|matches| - 1]);
      var last := matches[|matches| - 1];
      forall i | 0 <= i < |before.reports| && before.resume <= last.offset
        ensures Past(before.reports[i], last.offset)
      {
        ResumeIsPast(before.reports[i], last.offset);
      }
      assert last.offset < ResumeOffset(Report(last, s.carve(last))) by { ResumesPast(Report(last, s.carve(last))); }
      ProcessStep(s, matches);
    }
  }

  lemma ResumesPast(r: Report)
    ensures r.found.offset < ResumeOffset(r)
  {
  }

  lemma {:induction false} ProcessCarves(s: Scan, matches: seq<Match>)
    ensures forall i :: 0 <= i < |Process(s, matches).reports| ==>
              && Process(s, matches).reports[i].found in matches
              && Process(s, matches).reports[i].result == s.carve(Process(s, matches).reports[i].found)
  {
    hide ResumeOffset;
    if matches == [] {
    } else {
      ProcessCarves(s, matches[..|matches| - 1]);
      ProcessStep(s, matches);
    }
  }

  lemma CoveredGrows(reports: seq<Report>, more: seq<Report>, m: Match)
    requires Covered(reports, m)
    ensures Covered(reports + more, m)
  {
    var i :| 0 <= i < |reports| && CoveredBy(reports[i], m);
    assert CoveredBy((reports + more)[i], m);
  }

  // A match below the last resume point starts no earlier than the candidate
  // that set it.
  lemma LastCovers(reports: seq<Report>, matches: seq<Match>, last: Match)
    requires reports != [] && reports[|reports| - 1].found in matches
    requires forall k :: 0 <= k < |matches| ==> matches[k].offset <= last.offset
    requires last.offset < ResumeOffset(reports[|reports| - 1])
    ensures Covered(reports, last)
  {
    assert CoveredBy(reports[|reports| - 1], last);
  }

  lemma {:induction false} ProcessPasses(s: Scan, matches: seq<Match>)
    ensures forall k :: 0 <= k < |matches| ==> matches[k].offset < Process(s, matches).resume
  {
    if matches == [] {
    } else {
      ProcessPasses(s, matches[..|matches| - 1]);
      ProcessStep(s, matches);
    }
  }

  // In canonical order nothing is lost: every match is carved, or lies inside
  // what an earlier one of them resumed past.
  lemma {:induction false} ProcessCovers(s: Scan, matches: seq<Match>, k: nat)
    requires InOrder(matches) && k < |matches|
    ensures Covered(Process(s, matches).reports, matches[k])
  {
    hide Process, Covered, ResumeOffset;
    var shorter, last := matches[..|matches| - 1], matches[|matches| - 1];
    var before := Process(s, shorter);
    ProcessStep(s, matches);
    if k < |shorter| {
      ProcessCovers(s, shorter, k);
      CoveredGrows(before.reports, [Report(last, s.carve(last))], matches[k]);
    } else if last.offset < before.resume {
      ProcessCarves(s, shorter);
      ProcessResume(s, shorter);
      LastCovers(before.reports, shorter, last);
    } else {
      ReportCovers(before.reports, Report(last, s.carve(last)));
    }
  }

  lemma ReportCovers(reports: seq<Report>, r: Report)
    ensures Covered(reports + [r], r.found)
  {
    assert CoveredBy((reports + [r])[|reports|], r.found);
  }

  // ---- The whole region: order and progress ----

  lemma NextCursorReaches(s: Scan, cursor: nat, regionEnd: nat)
    requires cursor < regionEnd
    ensures forall i :: 0 <= i < |ReportsAt(s, cursor, regionEnd)| ==>
              && cursor <= ReportsAt(s, cursor, regionEnd)[i].found.offset < regionEnd
              && Hit(s, ReportsAt(s, cursor, regionEnd)[i].found)
              && ResumeOffset(ReportsAt(s, cursor, regionEnd)[i]) <= CursorAfter(s, cursor, regionEnd)
    ensures Chained(ReportsAt(s, cursor, regionEnd))
  {
    hide WindowMatches, Process;
    var bytesRead := ReadBytes(s, cursor, regionEnd);
    if bytesRead > 0 {
      var end := cursor + bytesRead;
      var matches := WindowMatches(s, cursor, end, regionEnd);
      WindowMatchesAreHits(s, cursor, end, regionEnd);
      ProcessChains(s, matches);
      ProcessCarves(s, matches);
      ProcessResume(s, matches);
      var o := Process(s, matches);
      forall i | 0 <= i < |o.reports|
        ensures Hit(s, o.reports[i].found)
      {
        HitByLater(s, o.reports[i].found, end, |s.device|);
      }
      assert o.reports != [] ==> cursor < o.resume by {
        if o.reports != [] {
          assert o.reports[|o.reports| - 1].found in matches;
        }
      }
    }
  }

  // Reported candidates start inside the region, really carry a signature there,
  // and never overlap what an earlier report resumed past: offsets strictly
  // increase, window by window.
  lemma {:induction false} ScanReportsInOrder(s: Scan, cursor: nat, regionEnd: nat)
    ensures Chained(ScanFrom(s, cursor, regionEnd))
    ensures forall i :: 0 <= i < |ScanFrom(s, cursor, regionEnd)| ==>
              && cursor <= ScanFrom(s, cursor, regionEnd)[i].found.offset < regionEnd
              && Hit(s, ScanFrom(s, cursor, regionEnd)[i].found)
    decreases regionEnd - cursor
  {
    if cursor < regionEnd {
      NextCursorReaches(s, cursor, regionEnd);
      ScanReportsInOrder(s, CursorAfter(s, cursor, regionEnd), regionEnd);
    }
  }

  // ---- Coverage ----

  // Either no more can be read, or one whole signature's worth was.
  lemma ReadsReach(s: Scan, cursor: nat, regionEnd: nat)
    requires Scannable(s, regionEnd) && cursor < regionEnd
    ensures cursor + ReadBytes(s, cursor, regionEnd) >= |s.device|
            || ReadBytes(s, cursor, regionEnd) >= MaxSignatureBytes(s.carvers)
  {
  }

  lemma HitHasWidth(s: Scan, m: Match)
    requires Hit(s, m)
    ensures 0 < MaxSignatureBytes(s.carvers) && m.offset < |s.device|
  {
    FlattenSpansWithin(s.carvers, 0);
  }

  // A report that accounts for a match: it resumes past the match's start, and
  // begins within one signature's reach of it.
  ghost predicate AccountsFor(s: Scan, r: Report, m: Match) {
    r.found.offset < m.offset + MaxSignatureBytes(s.carvers) && !Past(r, m.offset)
  }

  ghost predicate AccountedFor(s: Scan, reports: seq<Report>, m: Match) {
    exists i :: 0 <= i < |reports| && AccountsFor(s, reports[i], m)
  }

  // What a window does not resolve starts inside the next one.
  lemma WindowAccounts(s: Scan, cursor: nat, regionEnd: nat, m: Match)
    requires Scannable(s, regionEnd) && cursor < regionEnd
    requires Hit(s, m) && cursor <= m.offset < regionEnd
    ensures AccountedFor(s, ReportsAt(s, cursor, regionEnd), m) || CursorAfter(s, cursor, regionEnd) <= m.offset
  {
    hide WindowMatches, Process, HitBy, MaxSignatureBytes;
    HitHasWidth(s, m);
    ReadsReach(s, cursor, regionEnd);
    var bytesRead := ReadBytes(s, cursor, regionEnd);
    var end := cursor + bytesRead;
    assert cursor < |s.device| && bytesRead > 0;
    if HitBy(s, m, end) {
      WholeIsAccounted(s, cursor, end, regionEnd, m);
    } else {
      assert end < |s.device| && end < m.offset + MaxSignatureBytes(s.carvers) by {
        if m.offset + MaxSignatureBytes(s.carvers) <= end { HitWithinReach(s, m, end); }
      }
      if m.offset < WindowOutcome(s, cursor, regionEnd).resume {
        StraddlerIsAccounted(s, cursor, end, regionEnd, m);
      }
    }
  }

  lemma WholeIsAccounted(s: Scan, cursor: nat, end: nat, regionEnd: nat, m: Match)
    requires cursor <= end <= |s.device| && HitBy(s, m, end) && cursor <= m.offset < regionEnd
    ensures AccountedFor(s, Process(s, WindowMatches(s, cursor, end, regionEnd)).reports, m)
  {
    hide WindowMatches, Process, HitBy, MaxSignatureBytes;
    var matches := WindowMatches(s, cursor, end, regionEnd);
    WindowMatchesAreHits(s, cursor, end, regionEnd);
    HitByLater(s, m, end, |s.device|);
    HitHasWidth(s, m);
    var k :| 0 <= k < |matches| && matches[k] == m;
    ProcessCovers(s, matches, k);
    var reports := Process(s, matches).reports;
    var i :| 0 <= i < |reports| && CoveredBy(reports[i], m);
    assert AccountsFor(s, reports[i], m);
  }

  // A match that straddles the window's end and is resumed past: the candidate
  // that did so was whole in the window, so it starts within the match's reach.
  lemma StraddlerIsAccounted(s: Scan, cursor: nat, end: nat, regionEnd: nat, m: Match)
    requires cursor <= end <= |s.device| && end < m.offset + MaxSignatureBytes(s.carvers)
    requires m.offset < Process(s, WindowMatches(s, cursor, end, regionEnd)).resume
    ensures AccountedFor(s, Process(s, WindowMatches(s, cursor, end, regionEnd)).reports, m)
  {
    hide WindowMatches, Process, HitBy, MaxSignatureBytes;
    var matches := WindowMatches(s, cursor, end, regionEnd);
    WindowMatchesAreHits(s, cursor, end, regionEnd);
    ProcessCarves(s, matches);
    ProcessResume(s, matches);
    var reports := Process(s, matches).reports;
    var last := reports[|reports| - 1];
    HitIsOnDevice(s, last.found, end);
    assert AccountsFor(s, reports[|reports| - 1], m);
  }

  // Every signature on the device that starts in the region is reported at its
  // start, or lies below the resume point of a candidate reported within one
  // signature's reach of it.
  lemma {:induction false} ScanAccountsForEveryHit(s: Scan, cursor: nat, regionEnd: nat, m: Match)
    requires Scannable(s, regionEnd) && Hit(s, m) && cursor <= m.offset < regionEnd
    ensures AccountedFor(s, ScanFrom(s, cursor, regionEnd), m)
    decreases regionEnd - cursor
  {
    hide HitBy, ReportsAt, CursorAfter;
    var here, next := ReportsAt(s, cursor, regionEnd), CursorAfter(s, cursor, regionEnd);
    var all := ScanFrom(s, cursor, regionEnd);
    assert all == here + ScanFrom(s, next, regionEnd);
    WindowAccounts(s, cursor, regionEnd, m);
    if AccountedFor(s, here, m) {
      var i :| 0 <= i < |here| && AccountsFor(s, here[i], m);
      assert AccountsFor(s, all[i], m);
    } else {
      ScanAccountsForEveryHit(s, next, regionEnd, m);
      var rest := ScanFrom(s, next, regionEnd);
      var i :| 0 <= i < |rest| && AccountsFor(s, rest[i], m);
      assert AccountsFor(s, all[|here| + i], m);
    }
  }

  lemma CursorAdvances(s: Scan, cursor: nat, regionEnd: nat)
    requires cursor < regionEnd
    ensures cursor < CursorAfter(s, cursor, regionEnd)
  {
  }

  // ---- The scan as it runs ----

  datatype WindowRead = WindowRead(bytesRead: nat, overlap: nat, matches: seq<Match>)

  // Reads one window and matches it, dropping hits that start before it.
  method ReadAndMatch(s: Scan, cursor: nat, want: nat, table: SignatureTable, prefilter: Prefilter)
    returns (read: WindowRead)
    requires TableOf(table, s.carvers) && NeverDrops(prefilter)
    ensures read.bytesRead == if cursor >= |s.device| then 0 else Min(want, |s.device| - cursor)
    ensures read.overlap == OverlapBytes(s, read.bytesRead)
    ensures read.bytesRead > 0 ==>
              read.matches
              == AtOrPast(Canonical(Naive(Flatten(s.carvers), s.device[cursor..cursor + read.bytesRead], cursor)), cursor)
  {
    var got := if cursor >= |s.device| then 0 else Min(want, |s.device| - cursor);
    if got == 0 {
      return WindowRead(0, OverlapBytes(s, 0), []);
    }
    var matches := MatchWindow(s.device[cursor..cursor + got], cursor, table, prefilter, s.carvers);
    return WindowRead(got, OverlapBytes(s, got), AtOrPast(matches, cursor));
  }

  // One window: matches at or past the region's end are left to the next region.
  method ScanOneWindow(s: Scan, cursor: nat, regionEnd: nat, table: SignatureTable, prefilter: Prefilter)
    returns (next: nat, reports: seq<Report>)
    requires TableOf(table, s.carvers) && NeverDrops(prefilter)
    requires Scannable(s, regionEnd) && cursor < regionEnd
    ensures next == CursorAfter(s, cursor, regionEnd) && reports == ReportsAt(s, cursor, regionEnd)
  {
    hide MaxSignatureBytes, Process, Naive, Canonical, Flatten;
    var remaining := regionEnd - cursor;
    var want := if remaining >= s.windowBytes then s.windowBytes
                else Min(s.windowBytes, remaining + MaxSignatureBytes(s.carvers));
    var read := ReadAndMatch(s, cursor, want, table, prefilter);
    if read.bytesRead == 0 {
      return regionEnd, [];
    }
    var outcome := ProcessMatches(s, Below(read.matches, regionEnd));
    next := NextCursor(cursor, cursor + read.bytesRead, read.overlap, outcome.resume);
    reports := outcome.reports;
  }

  // The window loop across one region. Its end saturates, so a length read off a
  // disk cannot wrap it.
  method ScanRegionWindows(s: Scan, region: Extent, table: SignatureTable, prefilter: Prefilter)
    returns (reports: seq<Report>)
    requires TableOf(table, s.carvers) && NeverDrops(prefilter) && Scannable(s, EndOf(region))
    ensures reports == ScanFrom(s, region.deviceOffset, EndOf(region))
  {
    hide CursorAfter, ReportsAt, Scannable;
    reports := [];
    var cursor: nat := region.deviceOffset;
    var end := EndOf(region);
    while cursor < end
      invariant reports + ScanFrom(s, cursor, end) == ScanFrom(s, region.deviceOffset, end)
      decreases end - cursor
    {
      CursorAdvances(s, cursor, end);
      var next, here := ScanOneWindow(s, cursor, end, table, prefilter);
      reports := reports + here;
      cursor := next;
    }
  }
}
