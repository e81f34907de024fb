// How far arbitration depends on the order the candidates came in.
module ArbitrationOrder {
  import opened Bytes
  import opened Regions
  import opened Candidates
  import opened Arbitrating

  // Who wins is told here from ranks and bytes alone, without running anything;
  // that agrees with every run exactly when no two candidates that stand rival
  // each other.

  ghost function RankedBefore(candidates: multiset<Candidate>, candidate: Candidate): set<Candidate> {
    set w | w in candidates && Below(RankOf(w), RankOf(candidate))
  }

  // Not rejected, and sharing no byte with anything that stands and is ranked
  // strictly before it.
  ghost predicate Stands(candidates: multiset<Candidate>, candidate: Candidate)
    decreases RankedBefore(candidates, candidate)
  {
    && candidate.confidence != REJECTED
    && forall w | w in RankedBefore(candidates, candidate) && ShareAByte(w, candidate) ::
         BeforeIsSmaller(candidates, w, candidate);
         !Stands(candidates, w)
  }

  lemma BeforeIsSmaller(candidates: multiset<Candidate>, w: Candidate, candidate: Candidate)
    requires w in RankedBefore(candidates, candidate)
    ensures RankedBefore(candidates, w) < RankedBefore(candidates, candidate)
  {
    hide RankOf;
  }

  // Two candidates that both stand and tie over a byte.
  ghost predicate Rivals(candidates: multiset<Candidate>, a: Candidate, b: Candidate) {
    && a in candidates && b in candidates && a != b
    && RankOf(a) == RankOf(b) && ShareAByte(a, b)
    && Stands(candidates, a) && Stands(candidates, b)
  }

  ghost predicate NoRivals(candidates: multiset<Candidate>) {
    forall a, b :: !Rivals(candidates, a, b)
  }

  // How many copies of a candidate stand: copies that hold a byte exclude each
  // other.
  ghost function StandingCopies(candidates: multiset<Candidate>, candidate: Candidate): nat {
    if !Stands(candidates, candidate) then 0
    else if ShareAByte(candidate, candidate) then Min(1, candidates[candidate])
    else candidates[candidate]
  }

  // ---- Winners are what stands ----

  ghost predicate BlockedBelow(winners: multiset<Candidate>, candidate: Candidate) {
    exists w :: w in winners && Below(RankOf(w), RankOf(candidate)) && ShareAByte(w, candidate)
  }

  lemma RanksDecide(a: Candidate, b: Candidate)
    ensures RankedFirst(a, b) && !Below(RankOf(a), RankOf(b)) ==> RankOf(a) == RankOf(b)
    ensures Below(RankOf(a), RankOf(b)) ==> !RankedFirst(b, a)
    ensures RankOf(a) == RankOf(b) ==> RankedFirst(a, b)
  {
    hide RankOf;
  }

  lemma {:induction false} FirstCopy(order: seq<Candidate>, candidate: Candidate) returns (i: nat)
    requires candidate in order
    ensures i < |order| && order[i] == candidate && candidate !in order[..i]
  {
    i := 0;
    while order[i] != candidate
      invariant i < |order| && candidate !in order[..i] && candidate in order[i..]
      decreases |order| - i
    {
      i := i + 1;
    }
  }

  lemma WinsIsInside(order: seq<Candidate>, i: nat)
    requires WinsAt(order, i)
    ensures i < |order|
  {
  }

  lemma WinnerIsUnblocked(order: seq<Candidate>, winner: Candidate)
    requires SortedBy(RankedFirst, order) && winner in Winners(order)
    ensures winner.confidence != REJECTED && !BlockedBelow(multiset(Winners(order)), winner)
  {
    hide ShareAByte, WinsAt, Winners, RankOf, Below;
    var i := WinnersWin(order, winner);
    WinsIsInside(order, i);
    WinsExactly(order, i);
    if w :| w in multiset(Winners(order)) && Below(RankOf(w), RankOf(winner)) && ShareAByte(w, winner) {
      var j := WinnersWin(order, w);
      WinsIsInside(order, j);
      RanksDecide(w, winner);
      RanksDecide(winner, winner);
    }
  }

  // Below a rank, the winners are the candidates that stand.
  ghost predicate DecidedBelow(order: seq<Candidate>, rank: Rank) {
    forall w :: Below(RankOf(w), rank) && w in multiset(order) ==>
      (w in Winners(order) <==> Stands(multiset(order), w))
  }

  lemma StandsIsUnblocked(order: seq<Candidate>, candidate: Candidate)
    requires DecidedBelow(order, RankOf(candidate))
    ensures Stands(multiset(order), candidate)
            <==> candidate.confidence != REJECTED && !BlockedBelow(multiset(Winners(order)), candidate)
  {
    hide ShareAByte, Winners, RankOf, Below;
    WinnersAreCandidates(order);
    var candidates, winners := multiset(order), multiset(Winners(order));
    if w :| w in winners && Below(RankOf(w), RankOf(candidate)) && ShareAByte(w, candidate) {
      assert w in RankedBefore(candidates, candidate);
      assert Stands(candidates, w);
    }
    if candidate.confidence != REJECTED && !Stands(candidates, candidate) {
      var w :| w in RankedBefore(candidates, candidate) && ShareAByte(w, candidate) && Stands(candidates, w);
      assert w in winners;
    }
  }

  // A copy that stands wins where it is met, unless a winner it ties with, or an
  // earlier copy of itself, is met first.
  lemma StandingWins(order: seq<Candidate>, i: nat)
    requires SortedBy(RankedFirst, order) && i < |order| && DecidedBelow(order, RankOf(order[i]))
    requires Stands(multiset(order), order[i])
    requires forall b :: !Rivals(multiset(order), order[i], b)
    requires order[i] !in order[..i] || !ShareAByte(order[i], order[i])
    ensures WinsAt(order, i)
  {
    hide ShareAByte, WinsAt, Winners, RankOf, Below, Stands;
    var candidate := order[i];
    WinsExactly(order, i);
    StandsIsUnblocked(order, candidate);
    assert candidate in multiset(order);
    if Contested(order, i) {
      var j: nat :| j < i && WinsAt(order, j) && ShareAByte(order[j], order[i]);
      var tied := order[j];
      assert tied in order[..i] && tied in multiset(order) && !Rivals(multiset(order), candidate, tied);
      WinIsAWinner(order, j);
      RanksDecide(tied, candidate);
      WinnerIsUnblocked(order, tied);
      StandsIsUnblocked(order, tied);
      SharingIsMutual(tied, candidate);
    }
  }

  lemma SharingIsMutual(a: Candidate, b: Candidate)
    ensures ShareAByte(a, b) <==> ShareAByte(b, a)
  {
    hide Has;
  }

  lemma CopiesAreDecided(order: seq<Candidate>, candidate: Candidate)
    requires SortedBy(RankedFirst, order) && DecidedBelow(order, RankOf(candidate))
    requires forall b :: !Rivals(multiset(order), candidate, b)
    ensures multiset(Winners(order))[candidate] == StandingCopies(multiset(order), candidate)
  {
    hide ShareAByte, WinsAt, Winners, RankOf, SortedBy, Rivals, DecidedBelow, Stands;
    var candidates, winners := multiset(order), multiset(Winners(order));
    WinnersAreCandidates(order);
    StandsIsUnblocked(order, candidate);
    if !Stands(candidates, candidate) {
      if candidate in Winners(order) {
        WinnerIsUnblocked(order, candidate);
      }
    } else if candidate in order {
      var i := FirstCopy(order, candidate);
      StandingWins(order, i);
      WinIsAWinner(order, i);
      WinnersHaveOneEach(order);
      assert candidate in winners;
      if !ShareAByte(candidate, candidate) && candidates[candidate] > winners[candidate] {
        var k := LostCopy(order, candidate);
        StandingWins(order, k);
      }
    }
  }

  // No rival of a candidate offered before some place.
  ghost predicate NoRivalsUpTo(order: seq<Candidate>, upTo: nat) {
    forall i, b :: 0 <= i < upTo <= |order| ==> !Rivals(multiset(order), order[i], b)
  }

  lemma {:induction false} DecidedUpTo(order: seq<Candidate>, upTo: nat)
    requires SortedBy(RankedFirst, order) && upTo <= |order| && NoRivalsUpTo(order, upTo)
    ensures forall k :: 0 <= k < upTo ==>
              multiset(Winners(order))[order[k]] == StandingCopies(multiset(order), order[k])
    ensures upTo < |order| ==> DecidedBelow(order, RankOf(order[upTo]))
    decreases upTo
  {
    hide ShareAByte, Winners, RankOf, Below, Stands, Rivals;
    if upTo == 0 {
      NothingBelowTheFirst(order);
    } else {
      DecidedUpTo(order, upTo - 1);
      CopiesAreDecided(order, order[upTo - 1]);
      if upTo < |order| {
        forall w | Below(RankOf(w), RankOf(order[upTo])) && w in multiset(order)
          ensures w in Winners(order) <==> Stands(multiset(order), w)
        {
          var k := PlaceBelow(order, upTo, w);
          assert multiset(Winners(order))[w] == StandingCopies(multiset(order), w);
          assert w in Winners(order) <==> multiset(Winners(order))[w] > 0;
        }
      }
    }
  }

  lemma NothingBelowTheFirst(order: seq<Candidate>)
    requires SortedBy(RankedFirst, order)
    ensures order != [] ==> DecidedBelow(order, RankOf(order[0]))
  {
    hide ShareAByte, Winners, RankOf, Below, Stands;
    if order != [] {
      forall w | Below(RankOf(w), RankOf(order[0])) && w in multiset(order)
        ensures false
      {
        var k := PlaceBelow(order, 0, w);
      }
    }
  }

  lemma PlaceBelow(order: seq<Candidate>, upTo: nat, w: Candidate) returns (k: nat)
    requires SortedBy(RankedFirst, order) && upTo < |order|
    requires w in multiset(order) && Below(RankOf(w), RankOf(order[upTo]))
    ensures k < upTo && order[k] == w
  {
    hide RankOf, Below;
    k := FirstCopy(order, w);
    RanksDecide(w, order[upTo]);
    RanksDecide(w, w);
  }

  // Where nothing that stands is rivalled, a run's winners are what stands.
  lemma WinnersAreTheStanding(candidates: seq<Candidate>, order: seq<Candidate>, result: Arbitration, candidate: Candidate)
    requires Arbitrated(candidates, order, result) && NoRivals(multiset(candidates))
    ensures multiset(result.winners)[candidate] == StandingCopies(multiset(candidates), candidate)
  {
    hide ShareAByte, Winners, RankOf, Below, Stands, Rivals;
    WinnersAreCandidates(order);
    DecidedUpTo(order, |order|);
    if candidate in order {
      var k := FirstCopy(order, candidate);
    } else {
      assert candidate !in multiset(order);
    }
  }

  // ---- Rivals go either way ----

  ghost predicate Offered(candidates: multiset<Candidate>, order: seq<Candidate>) {
    multiset(order) == candidates && SortedBy(RankedFirst, order)
  }

  function MovedFirst(order: seq<Candidate>, from: nat, to: nat): (moved: seq<Candidate>)
    requires to <= from < |order|
    ensures |moved| == |order| && moved[to] == order[from]
    ensures forall k :: 0 <= k < to || from < k < |order| ==> moved[k] == order[k]
    ensures forall k :: to < k <= from ==> moved[k] == order[k - 1]
  {
    order[..to] + [order[from]] + order[to..from] + order[from + 1..]
  }

  lemma MovingKeepsAll(order: seq<Candidate>, from: nat, to: nat)
    requires to <= from < |order|
    ensures multiset(MovedFirst(order, from, to)) == multiset(order)
    ensures MovedFirst(order, from, to)[..to] == order[..to]
  {
    assert order == order[..to] + order[to..from] + [order[from]] + order[from + 1..];
  }

  // Any candidate may be offered first of its rank.
  lemma FirstOfItsRank(order: seq<Candidate>, from: nat) returns (moved: seq<Candidate>, to: nat)
    requires SortedBy(RankedFirst, order) && from < |order|
    ensures Offered(multiset(order), moved)
    ensures to <= from && |moved| == |order| && moved[to] == order[from]
    ensures moved[..to] == order[..to]
    ensures forall k :: 0 <= k < to ==> moved[k] == order[k] && Below(RankOf(order[k]), RankOf(order[from]))
  {
    hide RankOf, Below;
    to := from;
    RanksDecide(order[from], order[from]);
    while to > 0 && RankedFirst(order[from], order[to - 1])
      invariant to <= from
      invariant forall k :: to <= k <= from ==> RankedFirst(order[from], order[k])
    {
      to := to - 1;
    }
    moved := MovedFirst(order, from, to);
    MovingKeepsAll(order, from, to);
    forall k | 0 <= k < to
      ensures Below(RankOf(order[k]), RankOf(order[from]))
    {
      RankIsPreorder();
      assert k == to - 1 || RankedFirst(order[k], order[to - 1]);
    }
    hide MovedFirst;
    assert SortedBy(RankedFirst, moved);
  }

  // Whichever of two unblocked candidates that tie over a byte is met first
  // wins, and the other loses.
  lemma EitherMayWin(order: seq<Candidate>, a: Candidate, b: Candidate) returns (other: seq<Candidate>)
    requires SortedBy(RankedFirst, order) && a in order && b in order && a != b
    requires RankOf(a) == RankOf(b) && ShareAByte(a, b)
    requires a.confidence != REJECTED && !BlockedBelow(multiset(Winners(order)), a)
    ensures Offered(multiset(order), other) && a in Winners(other) && b !in Winners(other)
  {
    hide ShareAByte, WinsAt, Winners, RankOf, Below;
    var from := FirstCopy(order, a);
    var to;
    other, to := FirstOfItsRank(order, from);
    WinsExactly(other, to);
    if Contested(other, to) {
      var j: nat :| j < to && WinsAt(other, j) && ShareAByte(other[j], other[to]);
      WinsInPrefix(other, to, j);
      WinsInPrefix(order, to, j);
      WinIsAWinner(order, j);
    }
    WinIsAWinner(other, to);
    if b in Winners(other) {
      var i := WinnersWin(other, b);
      WinsIsInside(other, i);
      RanksDecide(b, b);
      RanksDecide(b, a);
      WinsExactly(other, i);
    }
  }

  // ---- Runs agree exactly when nothing that stands is rivalled ----

  ghost predicate PossibleOutcome(candidates: multiset<Candidate>, result: Arbitration) {
    exists input, order :: multiset(input) == candidates && Arbitrated(input, order, result)
  }

  // Whatever order they come in and however the sort breaks ties.
  ghost predicate OneOutcome(candidates: multiset<Candidate>) {
    forall x, y :: PossibleOutcome(candidates, x) && PossibleOutcome(candidates, y)
      ==> multiset(x.winners) == multiset(y.winners) && x.suppressed == y.suppressed
  }

  lemma {:induction false} SomeOrder(first: (Candidate, Candidate) -> bool, candidates: seq<Candidate>)
      returns (order: seq<Candidate>)
    requires Preorder(first)
    ensures SortedBy(first, order) && multiset(order) == multiset(candidates)
  {
    if candidates == [] {
      order := [];
    } else {
      hide SortedBy, Preorder, Inserted;
      var rest := SomeOrder(first, candidates[1..]);
      var at := 0;
      while at < |rest| && first(rest[at], candidates[0])
        invariant at <= |rest| && forall k :: 0 <= k < at ==> first(rest[k], candidates[0])
      {
        at := at + 1;
      }
      InsertedInOrder(first, rest, at, candidates[0]);
      InsertedOnce(rest, at, candidates[0]);
      order := Inserted(rest, at, candidates[0]);
      assert candidates == [candidates[0]] + candidates[1..];
    }
  }

  lemma OutcomeOf(order: seq<Candidate>) returns (result: Arbitration)
    requires SortedBy(RankedFirst, order)
    ensures PossibleOutcome(multiset(order), result) && multiset(result.winners) == multiset(Winners(order))
  {
    hide Winners, SortedBy;
    StartIsPreorder();
    var winners := SomeOrder(StartsFirst, Winners(order));
    WinnersAreCandidates(order);
    assert |multiset(Winners(order))| == |Winners(order)| && |multiset(order)| == |order|;
    FewerOf(multiset(Winners(order)), multiset(order));
    result := Arbitration(winners, |order| - |Winners(order)|);
    assert Arbitrated(order, order, result);
  }

  lemma FewerOf(a: multiset<Candidate>, b: multiset<Candidate>)
    requires a <= b
    ensures |a| <= |b|
  {
    assert b == a + (b - a);
  }

  // The least place of a rivalled candidate.
  lemma FirstRivalled(order: seq<Candidate>) returns (i: nat, b: Candidate)
    requires !NoRivals(multiset(order))
    ensures i < |order| && Rivals(multiset(order), order[i], b) && NoRivalsUpTo(order, i)
  {
    hide Rivals;
    var candidate, rival :| Rivals(multiset(order), candidate, rival);
    assert candidate in order by { RivalIsIn(multiset(order), candidate, rival); }
    i := 0;
    while forall b :: !Rivals(multiset(order), order[i], b)
      invariant i < |order| && NoRivalsUpTo(order, i) && candidate in order[i..]
      decreases |order| - i
    {
      i := i + 1;
    }
    b :| Rivals(multiset(order), order[i], b);
  }

  lemma RivalIsIn(candidates: multiset<Candidate>, candidate: Candidate, rival: Candidate)
    requires Rivals(candidates, candidate, rival)
    ensures candidate in candidates && rival in candidates
  {
  }

  // Two rivals with nothing rivalled before them each win one run and lose another.
  lemma RivalsMayGoEitherWay(order: seq<Candidate>, i: nat, b: Candidate) returns (x: Arbitration, y: Arbitration)
    requires SortedBy(RankedFirst, order) && i < |order| && NoRivalsUpTo(order, i)
    requires Rivals(multiset(order), order[i], b)
    ensures PossibleOutcome(multiset(order), x) && order[i] in x.winners && b !in x.winners
    ensures PossibleOutcome(multiset(order), y) && b in y.winners && order[i] !in y.winners
  {
    hide ShareAByte, Winners, RankOf, Below, Stands;
    var a := order[i];
    DecidedUpTo(order, i);
    StandsIsUnblocked(order, a);
    StandsIsUnblocked(order, b);
    SharingIsMutual(a, b);
    hide SortedBy, BlockedBelow, NoRivalsUpTo, PossibleOutcome;
    var first := EitherMayWin(order, a, b);
    var second := EitherMayWin(order, b, a);
    x := OutcomeOf(first);
    y := OutcomeOf(second);
    assert a in multiset(x.winners) && b !in multiset(x.winners);
    assert b in multiset(y.winners) && a !in multiset(y.winners);
  }

  // The winners, and how many lost, depend neither on the order the candidates
  // came in nor on how the sort breaks ties, if and only if no two candidates
  // that stand tie over a byte.
  lemma RunsAgreeExactly(candidates: seq<Candidate>)
    ensures OneOutcome(multiset(candidates)) <==> NoRivals(multiset(candidates))
  {
    hide Rivals, Stands, Winners, PossibleOutcome, SortedBy;
    if NoRivals(multiset(candidates)) {
      forall x, y | PossibleOutcome(multiset(candidates), x) && PossibleOutcome(multiset(candidates), y)
        ensures multiset(x.winners) == multiset(y.winners) && x.suppressed == y.suppressed
      {
        OutcomesAgree(multiset(candidates), x, y);
      }
    } else {
      RankIsPreorder();
      var order := SomeOrder(RankedFirst, candidates);
      var i, b := FirstRivalled(order);
      var x, y := RivalsMayGoEitherWay(order, i, b);
      assert order[i] in multiset(x.winners) && order[i] !in multiset(y.winners);
    }
  }

  lemma OutcomesAgree(candidates: multiset<Candidate>, x: Arbitration, y: Arbitration)
    requires NoRivals(candidates) && PossibleOutcome(candidates, x) && PossibleOutcome(candidates, y)
    ensures multiset(x.winners) == multiset(y.winners) && x.suppressed == y.suppressed
  {
    hide NoRivals, Arbitrated;
    var input, order :| multiset(input) == candidates && Arbitrated(input, order, x);
    var input', order' :| multiset(input') == candidates && Arbitrated(input', order', y);
    OrderDoesNotMatter(input, order, x, input', order', y);
  }

  // Two runs over the same candidates agree where nothing that stands is rivalled.
  lemma OrderDoesNotMatter(
      a: seq<Candidate>, orderOfA: seq<Candidate>, fromA: Arbitration,
      b: seq<Candidate>, orderOfB: seq<Candidate>, fromB: Arbitration)
    requires Arbitrated(a, orderOfA, fromA) && Arbitrated(b, orderOfB, fromB)
    requires multiset(a) == multiset(b) && NoRivals(multiset(a))
    ensures multiset(fromA.winners) == multiset(fromB.winners)
    ensures fromA.suppressed == fromB.suppressed
  {
    hide NoRivals, Arbitrated, StandingCopies;
    forall c
      ensures multiset(fromA.winners)[c] == multiset(fromB.winners)[c]
    {
      WinnersAreTheStanding(a, orderOfA, fromA, c);
      WinnersAreTheStanding(b, orderOfB, fromB, c);
    }
    NothingIsLost(a, orderOfA, fromA);
    NothingIsLost(b, orderOfB, fromB);
    SameCount(a, b);
    SameCount(fromA.winners, fromB.winners);
  }

  lemma SameCount(a: seq<Candidate>, b: seq<Candidate>)
    requires multiset(a) == multiset(b)
    ensures |a| == |b|
  {
    assert |multiset(a)| == |a| && |multiset(b)| == |b|;
  }

  // Candidates of pairwise different rank are a case of it.
  lemma DistinctRanksAgree(candidates: seq<Candidate>)
    requires forall a, b :: a in candidates && b in candidates && RankOf(a) == RankOf(b) ==> a == b
    ensures OneOutcome(multiset(candidates))
  {
    hide OneOutcome, RankOf, Stands, ShareAByte;
    RunsAgreeExactly(candidates);
  }

  // A carve of one byte, told from others of its rank by its name alone.
  function OneByteCarve(name: byte): Candidate {
    Candidate([name], [Extent(5, 1)], [], Timestamps(0, 0, 0), VALID, CARVE)
  }

  // Two such carves of one byte are rivals, and either may win.
  lemma ContestedTiesMayDiffer()
    ensures var a, b := OneByteCarve(0x61), OneByteCarve(0x62);
            && Arbitrated([a, b], [a, b], Arbitration([a], 1))
            && Arbitrated([a, b], [b, a], Arbitration([b], 1))
  {
    hide OneByteCarve, Arbitrated;
    var a, b := OneByteCarve(0x61), OneByteCarve(0x62);
    var ab: seq<Candidate>, ba: seq<Candidate> := [a, b], [b, a];
    assert multiset(ab) == multiset(ba);
    OneOfTwoWins(ab, 0x61, 0x62);
    OneOfTwoWins(ab, 0x62, 0x61);
  }

  lemma OneOfTwoWins(candidates: seq<Candidate>, first: byte, second: byte)
    requires multiset(candidates) == multiset([OneByteCarve(first), OneByteCarve(second)])
    ensures Arbitrated(candidates, [OneByteCarve(first), OneByteCarve(second)], Arbitration([OneByteCarve(first)], 1))
  {
    FirstOfTwo(OneByteCarve(first), OneByteCarve(second));
    hide Winners;
  }

  lemma FirstOfTwo(a: Candidate, b: Candidate)
    requires a.extents == b.extents == [Extent(5, 1)] && a.confidence == b.confidence == VALID
    ensures Winners([a, b]) == [a]
  {
    hide Claimed, Accepted;
    assert ExtentHas(a.extents[0], 5) && ExtentHas(b.extents[0], 5);
    assert Has(a, 5) && Has(b, 5);
    WinsExactly([a, b], 0);
    WinsExactly([a, b], 1);
    assert Contested([a, b], 1);
    assert [a, b][..1] == [a];
    WinsInPrefix([a, b], 1, 0);
    assert Winners([a]) == Winners([]) + [a] by { assert [a][..0] == []; }
  }
}
