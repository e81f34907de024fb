// Competing explanations of the same bytes, resolved greedily.
module Arbitrating {
  import opened Bytes
  import opened Regions
  import opened Candidates

  // Candidates are offered most trusted first, and one that overlaps what is
  // claimed loses whole.

  datatype Arbitration = Arbitration(winners: seq<Candidate>, suppressed: nat)

  // ---- The order candidates are offered in ----

  function StartOf(candidate: Candidate): u64 {
    if candidate.extents == [] then 0 else candidate.extents[0].deviceOffset
  }

  // The sum of the lengths, as 64-bit addition keeps it.
  function AddLengths(sum: u64, extents: seq<Extent>): u64
    decreases |extents|
  {
    if extents == [] then sum else AddLengths((sum + extents[0].lengthBytes) % U64_LIMIT, extents[1..])
  }

  function TotalBytes(candidate: Candidate): u64 {
    AddLengths(|candidate.residentContent| % U64_LIMIT, candidate.extents)
  }

  function SumOfLengths(extents: seq<Extent>): nat {
    if extents == [] then 0 else extents[0].lengthBytes + SumOfLengths(extents[1..])
  }

  lemma {:induction false} AddLengthsIs(sum: u64, extents: seq<Extent>)
    ensures AddLengths(sum, extents) == (sum + SumOfLengths(extents)) % U64_LIMIT
    decreases |extents|
  {
    if extents == [] {
    } else {
      AddLengthsIs((sum + extents[0].lengthBytes) % U64_LIMIT, extents[1..]);
      WrapAdds(sum + extents[0].lengthBytes, SumOfLengths(extents[1..]));
    }
  }

  // Everything the candidate holds, on the device and inside its own record.
  lemma TotalBytesIs(candidate: Candidate)
    ensures TotalBytes(candidate) == (|candidate.residentContent| + SumOfLengths(candidate.extents)) % U64_LIMIT
  {
    AddLengthsIs(|candidate.residentContent| % U64_LIMIT, candidate.extents);
    WrapAdds(|candidate.residentContent|, SumOfLengths(candidate.extents));
  }

  // Source, then trust, then position, then size.
  datatype Rank = Rank(source: int, distrust: int, start: int, slack: int)

  function RankOf(candidate: Candidate): Rank {
    var trust: int := candidate.confidence;
    Rank(candidate.source, -trust, StartOf(candidate), U64_MAX - TotalBytes(candidate))
  }

  predicate Below(a: Rank, b: Rank) {
    a.source < b.source || (a.source == b.source
      && (a.distrust < b.distrust || (a.distrust == b.distrust
        && (a.start < b.start || (a.start == b.start
          && a.slack < b.slack)))))
  }

  predicate RankedFirst(a: Candidate, b: Candidate) {
    !Below(RankOf(b), RankOf(a))
  }

  // The first extent begins lower; what has no extent begins nowhere, before all
  // but what begins at zero.
  predicate StartsLower(a: Candidate, b: Candidate) {
    b.extents != [] && (if a.extents == [] then 0 else a.extents[0].deviceOffset) < b.extents[0].deviceOffset
  }

  // What a filesystem names goes before what was carved, however trusted; then
  // the more trusted, then the lower offset, then the larger.
  predicate Outranks(a: Candidate, b: Candidate) {
    if a.source != b.source then a.source < b.source
    else if a.confidence != b.confidence then a.confidence > b.confidence
    else if StartsLower(a, b) || StartsLower(b, a) then StartsLower(a, b)
    else
      (|a.residentContent| + SumOfLengths(a.extents)) % 0x1_0000_0000_0000_0000
      > (|b.residentContent| + SumOfLengths(b.extents)) % 0x1_0000_0000_0000_0000
  }

  // One candidate may be offered before another exactly when it is not outranked;
  // and whatever the file system names outranks whatever was carved.
  lemma RankIsTheOrderPromised(a: Candidate, b: Candidate)
    ensures RankedFirst(a, b) <==> !Outranks(b, a)
    ensures a.source == 0 && b.source == 1 ==> Outranks(a, b)
  {
    TotalBytesIs(a);
    TotalBytesIs(b);
    hide TotalBytes, SumOfLengths;
  }

  predicate StartsFirst(a: Candidate, b: Candidate) {
    StartOf(a) <= StartOf(b)
  }

  ghost predicate SortedBy(first: (Candidate, Candidate) -> bool, order: seq<Candidate>) {
    forall i, j :: 0 <= i < j < |order| ==> first(order[i], order[j])
  }

  ghost predicate Preorder(first: (Candidate, Candidate) -> bool) {
    && (forall a, b :: first(a, b) || first(b, a))
    && (forall a, b, c :: first(a, b) && first(b, c) ==> first(a, c))
  }

  lemma NothingIsSorted(first: (Candidate, Candidate) -> bool)
    ensures SortedBy(first, [])
  {
  }

  function Inserted(order: seq<Candidate>, at: nat, candidate: Candidate): seq<Candidate>
    requires at <= |order|
  {
    order[..at] + [candidate] + order[at..]
  }

  lemma InsertedAt(order: seq<Candidate>, at: nat, candidate: Candidate, i: nat)
    requires at <= |order| && i <= |order|
    ensures |Inserted(order, at, candidate)| == |order| + 1
    ensures Inserted(order, at, candidate)[i] == if i < at then order[i] else if i == at then candidate else order[i - 1]
  {
  }

  lemma InsertedOnce(order: seq<Candidate>, at: nat, candidate: Candidate)
    requires at <= |order|
    ensures multiset(Inserted(order, at, candidate)) == multiset(order) + multiset{candidate}
  {
    assert order == order[..at] + order[at..];
  }

  lemma InsertedInOrder(first: (Candidate, Candidate) -> bool, order: seq<Candidate>, at: nat, candidate: Candidate)
    requires Preorder(first) && SortedBy(first, order) && at <= |order|
    requires forall k :: 0 <= k < at ==> first(order[k], candidate)
    requires at < |order| ==> !first(order[at], candidate)
    ensures SortedBy(first, Inserted(order, at, candidate))
  {
    forall k | at <= k < |order|
      ensures first(candidate, order[k])
    {
      assert first(candidate, order[at]);
      assert k == at || first(order[at], order[k]);
    }
    hide Preorder, Inserted;
    forall i, j | 0 <= i < j <= |order|
      ensures first(Inserted(order, at, candidate)[i], Inserted(order, at, candidate)[j])
    {
      InsertedAt(order, at, candidate, i);
      InsertedAt(order, at, candidate, j);
    }
    InsertedAt(order, at, candidate, 0);
  }

  // The library's sort, of which only this is used: some permutation in order.
  // Elements that tie may come out in any order.
  method Sort(first: (Candidate, Candidate) -> bool, candidates: seq<Candidate>) returns (order: seq<Candidate>)
    requires Preorder(first)
    ensures SortedBy(first, order) && multiset(order) == multiset(candidates)
  {
    hide SortedBy, Preorder, Inserted;
    order := [];
    assert SortedBy(first, order) by { NothingIsSorted(first); }
    for i := 0 to |candidates|
      invariant SortedBy(first, order) && multiset(order) == multiset(candidates[..i])
    {
      var at := 0;
      while at < |order| && first(order[at], candidates[i])
        invariant at <= |order| && forall k :: 0 <= k < at ==> first(order[k], candidates[i])
      {
        at := at + 1;
      }
      assert candidates[..i + 1] == candidates[..i] + [candidates[i]];
      InsertedInOrder(first, order, at, candidates[i]);
      InsertedOnce(order, at, candidates[i]);
      order := Inserted(order, at, candidates[i]);
    }
    assert candidates[..|candidates|] == candidates;
  }

  lemma RankIsPreorder()
    ensures Preorder(RankedFirst)
  {
    hide RankOf;
  }

  lemma StartIsPreorder()
    ensures Preorder(StartsFirst)
  {
    hide StartOf;
  }

  // ---- Accepting and suppressing ----

  ghost predicate Blocked(spans: seq<Span>, candidate: Candidate) {
    exists i :: 0 <= i < |candidate.extents| && Intersects(spans, candidate.extents[i])
  }

  ghost predicate Accepted(spans: seq<Span>, candidate: Candidate) {
    candidate.confidence != REJECTED && !Blocked(spans, candidate)
  }

  // What is claimed after the candidates were offered in order.
  ghost function Claimed(order: seq<Candidate>): seq<Span> {
    if order == [] then []
    else
      var last := |order| - 1;
      var before := Claimed(order[..last]);
      if Accepted(before, order[last]) then ClaimAll(before, order[last].extents) else before
  }

  ghost predicate WinsAt(order: seq<Candidate>, i: nat) {
    i < |order| && Accepted(Claimed(order[..i]), order[i])
  }

  ghost function Winners(order: seq<Candidate>): seq<Candidate> {
    if order == [] then []
    else
      var last := |order| - 1;
      Winners(order[..last]) + if WinsAt(order, last) then [order[last]] else []
  }

  method IsBlocked(claimed: RegionSet, candidate: Candidate) returns (blocked: bool)
    requires claimed.Valid()
    ensures blocked <==> Blocked(claimed.regions, candidate)
  {
    for i := 0 to |candidate.extents|
      invariant forall k :: 0 <= k < i ==> !Intersects(claimed.regions, candidate.extents[k])
    {
      var overlaps := claimed.Overlaps(candidate.extents[i]);
      if overlaps {
        return true;
      }
    }
    blocked := false;
  }

  method ClaimEach(claimed: RegionSet, candidate: Candidate)
    requires claimed.Valid()
    modifies claimed
    ensures claimed.Valid() && claimed.regions == ClaimAll(old(claimed.regions), candidate.extents)
  {
    for i := 0 to |candidate.extents|
      invariant claimed.Valid()
      invariant ClaimAll(claimed.regions, candidate.extents[i..]) == ClaimAll(old(claimed.regions), candidate.extents)
    {
      assert candidate.extents[i..][1..] == candidate.extents[i + 1..];
      claimed.Add(candidate.extents[i]);
    }
  }

  method AcceptOrSuppress(result: Arbitration, claimed: RegionSet, candidate: Candidate) returns (next: Arbitration)
    requires claimed.Valid()
    modifies claimed
    ensures claimed.Valid()
    ensures if Accepted(old(claimed.regions), candidate)
            then && next == Arbitration(result.winners + [candidate], result.suppressed)
                 && claimed.regions == ClaimAll(old(claimed.regions), candidate.extents)
            else && next == Arbitration(result.winners, result.suppressed + 1)
                 && claimed.regions == old(claimed.regions)
  {
    var blocked := IsBlocked(claimed, candidate);
    if candidate.confidence == REJECTED || blocked {
      return result.(suppressed := result.suppressed + 1);
    }
    ClaimEach(claimed, candidate);
    next := result.(winners := result.winners + [candidate]);
  }

  // `order` is an order the candidates may be offered in, and `result` is what
  // offering them in it comes to, up to the order of winners that start together.
  ghost predicate Arbitrated(candidates: seq<Candidate>, order: seq<Candidate>, result: Arbitration) {
    && multiset(order) == multiset(candidates)
    && SortedBy(RankedFirst, order)
    && multiset(result.winners) == multiset(Winners(order))
    && SortedBy(StartsFirst, result.winners)
    && result.suppressed + |Winners(order)| == |order|
  }

  method Arbitrate(candidates: seq<Candidate>) returns (result: Arbitration)
    ensures exists order :: Arbitrated(candidates, order, result)
  {
    RankIsPreorder();
    StartIsPreorder();
    hide ClaimAll, Accepted, RankedFirst, StartsFirst;
    var order := Sort(RankedFirst, candidates);
    result := Arbitration([], 0);
    var claimed := new RegionSet();
    for i := 0 to |order|
      invariant claimed.Valid()
      invariant claimed.regions == Claimed(order[..i])
      invariant result.winners == Winners(order[..i]) && result.suppressed + |result.winners| == i
    {
      assert order[..i + 1][..i] == order[..i];
      result := AcceptOrSuppress(result, claimed, order[i]);
    }
    assert order[..|order|] == order;
    var winners := Sort(StartsFirst, result.winners);
    result := result.(winners := winners);
    assert Arbitrated(candidates, order, result);
  }

  // ---- What was claimed, and by whom ----

  ghost predicate Has(candidate: Candidate, at: int) {
    SomeExtentHas(candidate.extents, at)
  }

  ghost predicate ShareAByte(a: Candidate, b: Candidate) {
    exists at :: Has(a, at) && Has(b, at)
  }

  ghost predicate ClaimedByWinner(order: seq<Candidate>, at: int) {
    exists i: nat :: WinsAt(order, i) && Has(order[i], at)
  }

  lemma WinsInPrefix(order: seq<Candidate>, upTo: nat, i: nat)
    requires i < upTo <= |order|
    ensures WinsAt(order[..upTo], i) <==> WinsAt(order, i)
  {
    assert order[..upTo][..i] == order[..i];
  }

  // The claimed bytes are the winners' bytes.
  lemma {:induction false} ClaimedIsTheWinners(order: seq<Candidate>)
    ensures Fused(Claimed(order))
    ensures forall at :: Covers(Claimed(order), at) <==> ClaimedByWinner(order, at)
    decreases |order|
  {
    if order != [] {
      var last := |order| - 1;
      var front := order[..last];
      ClaimedIsTheWinners(front);
      ClaimAllIsUnion(Claimed(front), order[last].extents);
      hide WinsAt, Accepted, ClaimAll, Fused, Covers, SomeExtentHas;
      ClaimedStep(order);
      forall at
        ensures ClaimedByWinner(order, at) <==> ClaimedByWinner(front, at) || (WinsAt(order, last) && Has(order[last], at))
      {
        ClaimedByOneMore(order, at);
      }
      hide ClaimedByWinner, Claimed;
    } else {
      NothingClaimed();
    }
  }

  lemma NothingClaimed()
    ensures Claimed([]) == [] && Fused([]) && forall at :: !Covers([], at) && !ClaimedByWinner([], at)
  {
  }

  lemma ClaimedStep(order: seq<Candidate>)
    requires order != []
    ensures var last := |order| - 1;
            Claimed(order)
            == if WinsAt(order, last) then ClaimAll(Claimed(order[..last]), order[last].extents) else Claimed(order[..last])
  {
    hide Accepted, ClaimAll;
  }

  lemma ClaimedByOneMore(order: seq<Candidate>, at: int)
    requires order != []
    ensures var last := |order| - 1;
            ClaimedByWinner(order, at)
            <==> ClaimedByWinner(order[..last], at) || (WinsAt(order, last) && Has(order[last], at))
  {
    hide Accepted, Claimed, Has;
    var last := |order| - 1;
    if i: nat :| WinsAt(order, i) && Has(order[i], at) && i < last {
      WinsInPrefix(order, last, i);
      assert order[..last][i] == order[i];
    }
    if i: nat :| WinsAt(order[..last], i) && Has(order[..last][i], at) {
      WinsInPrefix(order, last, i);
      assert order[..last][i] == order[i];
    }
  }

  lemma BlockedIsSharing(spans: seq<Span>, candidate: Candidate)
    ensures Blocked(spans, candidate) <==> exists at :: Covers(spans, at) && Has(candidate, at)
  {
    hide Covers, ExtentHas;
    if Blocked(spans, candidate) {
      var i :| 0 <= i < |candidate.extents| && Intersects(spans, candidate.extents[i]);
      var at :| Covers(spans, at) && ExtentHas(candidate.extents[i], at);
      assert Has(candidate, at);
    }
    if at :| Covers(spans, at) && Has(candidate, at) {
      var i :| 0 <= i < |candidate.extents| && ExtentHas(candidate.extents[i], at);
      assert Intersects(spans, candidate.extents[i]);
    }
  }

  ghost predicate Contested(order: seq<Candidate>, i: nat)
    requires i < |order|
  {
    exists j: nat :: j < i && WinsAt(order, j) && ShareAByte(order[j], order[i])
  }

  // A candidate wins exactly when it is not rejected and shares no byte with a
  // winner offered before it.
  lemma WinsExactly(order: seq<Candidate>, i: nat)
    requires i < |order|
    ensures WinsAt(order, i) <==> order[i].confidence != REJECTED && !Contested(order, i)
  {
    var front := order[..i];
    ClaimedIsTheWinners(front);
    BlockedIsSharing(Claimed(front), order[i]);
    hide Claimed, Blocked, Has, Covers, Fused;
    if Contested(order, i) {
      var j: nat :| j < i && WinsAt(order, j) && ShareAByte(order[j], order[i]);
      var at :| Has(order[j], at) && Has(order[i], at);
      WinsInPrefix(order, i, j);
      assert ClaimedByWinner(front, at);
    }
    if Blocked(Claimed(front), order[i]) {
      var at :| Covers(Claimed(front), at) && Has(order[i], at);
      assert ClaimedByWinner(front, at);
      var j: nat :| WinsAt(front, j) && Has(front[j], at);
      WinsInPrefix(order, i, j);
      assert front[j] == order[j];
    }
  }

  // ---- The winners as a multiset ----

  lemma {:induction false} WinnersWin(order: seq<Candidate>, winner: Candidate) returns (i: nat)
    requires winner in Winners(order)
    ensures WinsAt(order, i) && order[i] == winner
  {
    hide Accepted, Claimed;
    var last := |order| - 1;
    if winner in Winners(order[..last]) {
      i := WinnersWin(order[..last], winner);
      WinsInPrefix(order, last, i);
      assert order[..last][i] == order[i];
    } else {
      i := last;
    }
  }

  lemma {:induction false} WinIsAWinner(order: seq<Candidate>, i: nat)
    requires WinsAt(order, i)
    ensures order[i] in Winners(order)
    decreases |order|
  {
    hide Accepted, Claimed;
    var last := |order| - 1;
    if i < last {
      WinsInPrefix(order, last, i);
      WinIsAWinner(order[..last], i);
    }
  }

  lemma {:induction false} WinnersAreCandidates(order: seq<Candidate>)
    ensures multiset(Winners(order)) <= multiset(order)
  {
    hide Accepted, Claimed;
    if order == [] {
    } else {
      var last := |order| - 1;
      assert order == order[..last] + [order[last]];
      WinnersAreCandidates(order[..last]);
    }
  }

  // A copy that did not win stood somewhere in the order.
  lemma {:induction false} LostCopy(order: seq<Candidate>, candidate: Candidate) returns (i: nat)
    requires multiset(order)[candidate] > multiset(Winners(order))[candidate]
    ensures i < |order| && order[i] == candidate && !WinsAt(order, i)
  {
    hide Accepted, Claimed;
    var last := |order| - 1;
    assert order == order[..last] + [order[last]];
    if order[last] == candidate && !WinsAt(order, last) {
      i := last;
    } else {
      i := LostCopy(order[..last], candidate);
      WinsInPrefix(order, last, i);
      assert order[..last][i] == order[i];
    }
  }

  // No byte belongs to two winners, nor to two copies of one.
  ghost predicate OneEach(winners: multiset<Candidate>) {
    forall a, b :: a in winners && b in winners && ShareAByte(a, b) ==> a == b && winners[a] == 1
  }

  lemma LastWinnerIsApart(order: seq<Candidate>, w: Candidate)
    requires order != [] && WinsAt(order, |order| - 1) && w in Winners(order[..|order| - 1])
    ensures !ShareAByte(w, order[|order| - 1]) && !ShareAByte(order[|order| - 1], w)
  {
    hide Winners, Accepted, Claimed, Has;
    var last := |order| - 1;
    var j := WinnersWin(order[..last], w);
    WinsInPrefix(order, last, j);
    assert order[..last][j] == order[j];
    WinsExactly(order, last);
  }

  lemma {:induction false} WinnersHaveOneEach(order: seq<Candidate>)
    ensures OneEach(multiset(Winners(order)))
  {
    hide Accepted, Claimed, Has;
    if order == [] {
    } else {
      var last := |order| - 1;
      var before := Winners(order[..last]);
      WinnersHaveOneEach(order[..last]);
      if WinsAt(order, last) {
        hide ShareAByte, WinsAt, Winners;
        forall w | w in before
          ensures !ShareAByte(w, order[last]) && !ShareAByte(order[last], w)
        {
          LastWinnerIsApart(order, w);
        }
        OneMoreWinner(before, order[last]);
      }
    }
  }

  lemma OneMoreWinner(before: seq<Candidate>, winner: Candidate)
    requires OneEach(multiset(before))
    requires forall w :: w in before ==> !ShareAByte(w, winner) && !ShareAByte(winner, w)
    ensures OneEach(multiset(before + [winner]))
  {
    hide ShareAByte;
    var winners := multiset(before + [winner]);
    forall a, b | a in winners && b in winners && ShareAByte(a, b)
      ensures a == b && winners[a] == 1
    {
      if a != winner {
        assert a in before;
        assert b != winner;
        assert b in before;
      }
    }
  }

  // ---- What arbitration promises ----

  lemma NothingIsLost(candidates: seq<Candidate>, order: seq<Candidate>, result: Arbitration)
    requires Arbitrated(candidates, order, result)
    ensures |result.winners| + result.suppressed == |candidates|
    ensures multiset(result.winners) <= multiset(candidates)
  {
    hide Winners, SortedBy;
    WinnersAreCandidates(order);
    assert |multiset(order)| == |order| && |multiset(candidates)| == |candidates|;
    assert |multiset(result.winners)| == |result.winners| && |multiset(Winners(order))| == |Winners(order)|;
  }

  lemma TwoCopies(candidates: seq<Candidate>, i: nat, j: nat)
    requires i < j < |candidates| && candidates[i] == candidates[j]
    ensures multiset(candidates)[candidates[i]] >= 2
  {
    assert candidates == candidates[..j] + [candidates[j]] + candidates[j + 1..];
    assert candidates[i] in candidates[..j];
  }

  // No device byte is claimed by two winners.
  lemma WinnersShareNoByte(candidates: seq<Candidate>, order: seq<Candidate>, result: Arbitration)
    requires Arbitrated(candidates, order, result)
    ensures forall i, j :: 0 <= i < j < |result.winners| ==> !ShareAByte(result.winners[i], result.winners[j])
  {
    hide Winners, SortedBy, ShareAByte;
    WinnersHaveOneEach(order);
    var winners := result.winners;
    forall i, j | 0 <= i < j < |winners|
      ensures !ShareAByte(winners[i], winners[j])
    {
      assert winners[i] in multiset(winners) && winners[j] in multiset(winners);
      if winners[i] == winners[j] {
        TwoCopies(winners, i, j);
      }
    }
  }

  // A candidate that lost was rejected, or shares a byte with a winner ranked no
  // lower: so nothing a filesystem names is ever displaced by a carve.
  lemma SuppressedForAReason(candidates: seq<Candidate>, order: seq<Candidate>, result: Arbitration, lost: Candidate)
      returns (winner: Candidate)
    requires Arbitrated(candidates, order, result)
    requires multiset(candidates)[lost] > multiset(result.winners)[lost] && lost.confidence != REJECTED
    ensures winner in result.winners && RankedFirst(winner, lost) && ShareAByte(winner, lost)
    ensures lost.source == FILESYSTEM ==> winner.source == FILESYSTEM
  {
    var i := LostCopy(order, lost);
    WinsExactly(order, i);
    hide Winners, WinsAt, ShareAByte;
    var j: nat :| j < i && WinsAt(order, j) && ShareAByte(order[j], order[i]);
    WinIsAWinner(order, j);
    winner := order[j];
    assert winner in multiset(result.winners);
  }

  // Winners come out by where their first extents begin.
  lemma WinnersAreByStart(candidates: seq<Candidate>, order: seq<Candidate>, result: Arbitration, i: nat, j: nat)
    requires Arbitrated(candidates, order, result) && i < j < |result.winners|
    ensures !StartsLower(result.winners[j], result.winners[i])
  {
    hide Winners;
    assert StartsFirst(result.winners[i], result.winners[j]);
  }

  lemma RejectedNeverWins(candidates: seq<Candidate>, order: seq<Candidate>, result: Arbitration, winner: Candidate)
    requires Arbitrated(candidates, order, result) && winner in result.winners
    ensures winner.confidence != REJECTED
  {
    hide Winners, SortedBy, Claimed, Blocked;
    assert winner in multiset(result.winners);
    var i := WinnersWin(order, winner);
  }

  // What holds no device byte is never displaced.
  lemma ResidentAlwaysWins(candidates: seq<Candidate>, order: seq<Candidate>, result: Arbitration, resident: Candidate)
    requires Arbitrated(candidates, order, result)
    requires resident.extents == [] && resident.confidence != REJECTED
    ensures multiset(result.winners)[resident] == multiset(candidates)[resident]
  {
    hide Arbitrated, SortedBy, RankedFirst;
    NothingIsLost(candidates, order, result);
    if multiset(candidates)[resident] > multiset(result.winners)[resident] {
      var winner := SuppressedForAReason(candidates, order, result, resident);
    }
  }
}
