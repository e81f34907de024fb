// Every signature hit in one window: the portable walk, the prefiltered walk,
// and the plain specification both agree with.
module WindowMatching {
  import opened Bytes
  import opened Signatures

  // A signature hit, in device coordinates.
  datatype Match = Match(offset: nat, carverIndex: nat)

  predicate MagicIsAt(tail: seq<byte>, magic: seq<byte>) {
    |magic| <= |tail| && tail[..|magic|] == magic
  }

  // A magic that lies before its in-file offset has no file to belong to.
  function Recorded(entry: SignatureEntry, absolute: nat): seq<Match> {
    if absolute < entry.inFileOffset then []
    else [Match(absolute - entry.inFileOffset, entry.carverIndex)]
  }

  // Every one of `entries`, compared in full at one position.
  function MatchesAt(entries: seq<SignatureEntry>, tail: seq<byte>, absolute: nat): seq<Match> {
    if entries == [] then []
    else
      (if MagicIsAt(tail, entries[0].magic) then Recorded(entries[0], absolute) else [])
      + MatchesAt(entries[1..], tail, absolute)
  }

  // Every signature at every one of the first `upTo` positions.
  function NaiveUpTo(entries: seq<SignatureEntry>, window: seq<byte>, windowOffset: nat, upTo: nat): seq<Match>
    requires upTo <= |window|
  {
    if upTo == 0 then []
    else
      NaiveUpTo(entries, window, windowOffset, upTo - 1)
      + MatchesAt(entries, window[upTo - 1..], windowOffset + (upTo - 1))
  }

  function Naive(entries: seq<SignatureEntry>, window: seq<byte>, windowOffset: nat): seq<Match> {
    NaiveUpTo(entries, window, windowOffset, |window|)
  }

  lemma OtherByteNoMagic(tail: seq<byte>, magic: seq<byte>)
    requires tail != [] && magic != [] && magic[0] != tail[0]
    ensures !MagicIsAt(tail, magic)
  {
    if |magic| <= |tail| {
      assert tail[..|magic|][0] == tail[0];
    }
  }

  // Only the group of the byte at a position can match there.
  lemma {:induction false} GroupDecides(entries: seq<SignatureEntry>, tail: seq<byte>, absolute: nat)
    requires AllMagical(entries) && tail != []
    ensures MatchesAt(Group(entries, tail[0]), tail, absolute) == MatchesAt(entries, tail, absolute)
  {
    if entries == [] {
    } else {
      GroupDecides(entries[1..], tail, absolute);
      if Key(entries[0]) == tail[0] {
        assert Group(entries, tail[0])[1..] == Group(entries[1..], tail[0]);
      } else {
        OtherByteNoMagic(tail, entries[0].magic);
        assert Group(entries, tail[0]) == Group(entries[1..], tail[0]);
      }
    }
  }

  // Grouping a sorted table decides the same matches as the registered list.
  lemma SortedGroupDecides(carvers: seq<Carver>, tail: seq<byte>, absolute: nat)
    requires AllMagical(Flatten(carvers)) && tail != []
    ensures MatchesAt(Group(StableSort(Flatten(carvers)), tail[0]), tail, absolute)
            == MatchesAt(Flatten(carvers), tail, absolute)
  {
    StableSortKeepsGroups(Flatten(carvers));
    GroupDecides(Flatten(carvers), tail, absolute);
  }

  // A position whose byte no signature starts with matches nothing.
  lemma NoGroupNoMatch(carvers: seq<Carver>, tail: seq<byte>, absolute: nat)
    requires AllMagical(Flatten(carvers)) && tail != []
    requires Group(StableSort(Flatten(carvers)), tail[0]) == []
    ensures MatchesAt(Flatten(carvers), tail, absolute) == []
  {
    SortedGroupDecides(carvers, tail, absolute);
  }

  // ---- The bits of a survivor mask ----

  predicate BitAt(mask: nat, at: nat) {
    if at == 0 then mask % 2 == 1 else BitAt(mask / 2, at - 1)
  }

  // The machine's `&`.
  function And(a: nat, b: nat): (r: nat)
    ensures r <= a
  {
    if a == 0 || b == 0 then 0 else 2 * And(a / 2, b / 2) + (a % 2) * (b % 2)
  }

  lemma {:induction false} NoBits(at: nat)
    ensures !BitAt(0, at)
  {
    if at == 0 {
    } else {
      NoBits(at - 1);
    }
  }

  lemma {:induction false} BitNeedsWidth(mask: nat, at: nat)
    requires BitAt(mask, at)
    ensures Pow2(at) <= mask
  {
    if at == 0 {
    } else {
      BitNeedsWidth(mask / 2, at - 1);
    }
  }

  lemma {:induction false} WiderPow2(n: nat, m: nat)
    requires n <= m
    ensures Pow2(n) <= Pow2(m)
  {
    if n < m {
      WiderPow2(n, m - 1);
    }
  }

  lemma BitsAreInRange(mask: u32, at: nat)
    requires BitAt(mask, at)
    ensures at < 32
  {
    assert Pow2(8) == 0x100 && Pow2(16) == 0x1_0000 && Pow2(24) == 0x100_0000 && Pow2(32) == U32_LIMIT;
    BitNeedsWidth(mask, at);
    if at >= 32 {
      WiderPow2(32, at);
    }
  }

  lemma {:induction false} AndWithSelf(mask: nat)
    ensures And(mask, mask) == mask
  {
    if mask == 0 {
    } else {
      AndWithSelf(mask / 2);
    }
  }

  lemma AndOfOdd(mask: nat)
    requires mask % 2 == 1
    ensures And(mask, mask - 1) == mask - 1
  {
    assert (mask - 1) / 2 == mask / 2;
    AndWithSelf(mask / 2);
  }

  lemma AndOfEven(mask: nat)
    requires mask > 0 && mask % 2 == 0
    ensures And(mask, mask - 1) == 2 * And(mask / 2, mask / 2 - 1)
  {
    assert (mask - 1) / 2 == mask / 2 - 1;
  }

  lemma BitsOfDouble(half: nat, at: nat)
    ensures BitAt(2 * half, at) <==> at > 0 && BitAt(half, at - 1)
  {
    assert (2 * half) / 2 == half;
  }

  // `surviving & (surviving - 1)` keeps every set bit but the lowest.
  lemma {:induction false} LowestCleared(mask: nat, lowest: nat, at: nat)
    requires mask > 0 && BitAt(mask, lowest) && forall i: nat :: i < lowest ==> !BitAt(mask, i)
    ensures BitAt(And(mask, mask - 1), at) <==> BitAt(mask, at) && at != lowest
    decreases lowest
  {
    hide And;
    if mask % 2 == 1 {
      assert lowest == 0 by {
        assert BitAt(mask, 0);
      }
      AndOfOdd(mask);
      BitsOfDouble(mask / 2, at);
    } else {
      assert !BitAt(mask, 0);
      AndOfEven(mask);
      BitsOfDouble(And(mask / 2, mask / 2 - 1), at);
      forall i: nat | i < lowest - 1
        ensures !BitAt(mask / 2, i)
      {
        assert !BitAt(mask, i + 1);
      }
      if at > 0 {
        LowestCleared(mask / 2, lowest - 1, at - 1);
      }
    }
  }

  lemma {:induction false} SomeBit(mask: nat) returns (at: nat)
    requires mask > 0
    ensures BitAt(mask, at)
  {
    if mask % 2 == 1 {
      at := 0;
    } else {
      at := SomeBit(mask / 2);
      at := at + 1;
    }
  }

  // `std::countr_zero` of a nonzero mask.
  method CountrZero(mask: u32) returns (at: nat)
    requires mask != 0
    ensures at < 32 && BitAt(mask, at)
    ensures forall i: nat :: i < at ==> !BitAt(mask, i)
  {
    at := 0;
    ghost var some := SomeBit(mask);
    BitsAreInRange(mask, some);
    while !BitAt(mask, at)
      invariant at <= some
      invariant forall i: nat :: i < at ==> !BitAt(mask, i)
      decreases some - at
    {
      at := at + 1;
    }
  }

  // ---- The walks ----

  // The table a registry's carvers were built into.
  ghost predicate TableOf(table: SignatureTable, carvers: seq<Carver>)
    reads table, table.groupBegin, table.anyStartsWith
  {
    && table.Usable() && AllMagical(Flatten(carvers))
    && table.entries == StableSort(Flatten(carvers))
  }

  method MatchAt(tail: seq<byte>, absolute: nat, table: SignatureTable, ghost carvers: seq<Carver>)
    returns (matches: seq<Match>)
    requires TableOf(table, carvers) && tail != []
    ensures matches == MatchesAt(Flatten(carvers), tail, absolute)
  {
    hide Flatten, StableSort, Group, SlicesGroups, MagicIsAt, Recorded;
    var group := table.StartingWith(tail[0]);
    matches := [];
    for i := 0 to |group|
      invariant matches + MatchesAt(group[i..], tail, absolute) == MatchesAt(group, tail, absolute)
    {
      assert group[i..][1..] == group[i + 1..];
      if MagicIsAt(tail, group[i].magic) {
        matches := matches + Recorded(group[i], absolute);
      }
    }
    SortedGroupDecides(carvers, tail, absolute);
  }

  // Every position from `at` on, one byte at a time.
  method MatchPortable(window: seq<byte>, windowOffset: nat, table: SignatureTable, at: nat,
                       before: seq<Match>, ghost carvers: seq<Carver>)
    returns (matches: seq<Match>)
    requires TableOf(table, carvers) && at <= |window|
    requires before == NaiveUpTo(Flatten(carvers), window, windowOffset, at)
    ensures matches == Naive(Flatten(carvers), window, windowOffset)
  {
    hide Flatten, StableSort, MatchesAt, Group, SlicesGroups, AllMagical;
    matches := before;
    for i := at to |window|
      invariant matches == NaiveUpTo(Flatten(carvers), window, windowOffset, i)
    {
      var none := table.None(window[i]);
      if !none {
        var here := MatchAt(window[i..], windowOffset + i, table, carvers);
        matches := matches + here;
      } else {
        NoGroupNoMatch(carvers, window[i..], windowOffset + i);
      }
    }
  }

  const VECTOR_BYTES := 32
  const VECTORS_PER_CALL := 4
  const CHUNK_BYTES := 128

  // What the prefilter promises of its masks: one bit a byte, lowest first, and
  // every byte the filter passes has its bit set. Extra bits are allowed.
  type Prefilter = (seq<byte>, NibbleFilter) -> seq<u32>

  ghost predicate NeverDrops(prefilter: Prefilter) {
    forall chunk: seq<byte>, filter: NibbleFilter ::
      |chunk| >= CHUNK_BYTES && FilterShape(filter) ==>
        && |prefilter(chunk, filter)| == VECTORS_PER_CALL
        && forall v, i :: 0 <= v < VECTORS_PER_CALL && 0 <= i < VECTOR_BYTES && Passes(filter, chunk[32 * v + i]) ==>
             BitAt(prefilter(chunk, filter)[v], i)
  }

  // A byte the filter stops starts no signature.
  lemma StoppedNoMatch(table: SignatureTable, carvers: seq<Carver>, tail: seq<byte>, absolute: nat)
    requires TableOf(table, carvers) && tail != [] && !Passes(table.filter, tail[0])
    ensures MatchesAt(Flatten(carvers), tail, absolute) == []
  {
    GroupOfOthers(table.entries, tail[0]);
    NoGroupNoMatch(carvers, tail, absolute);
  }

  // Positions from `from` to `upTo` whose bits are clear match nothing.
  lemma {:induction false} ClearBitsMatchNothing(
    table: SignatureTable, carvers: seq<Carver>, window: seq<byte>, windowOffset: nat, from: nat, upTo: nat)
    requires TableOf(table, carvers) && from <= upTo <= |window|
    requires forall i :: from <= i < upTo ==> !Passes(table.filter, window[i])
    ensures NaiveUpTo(Flatten(carvers), window, windowOffset, upTo)
            == NaiveUpTo(Flatten(carvers), window, windowOffset, from)
  {
    hide Flatten, StableSort;
    if from < upTo {
      ClearBitsMatchNothing(table, carvers, window, windowOffset, from, upTo - 1);
      StoppedNoMatch(table, carvers, window[upTo - 1..], windowOffset + (upTo - 1));
    }
  }

  lemma {:induction false} AndShrinks(mask: nat)
    requires mask > 0
    ensures And(mask, mask - 1) < mask
  {
    hide And;
    if mask % 2 == 0 {
      AndOfEven(mask);
      AndShrinks(mask / 2);
    } else {
      AndOfOdd(mask);
    }
  }

  // What is left of a mask once its first `done` bits were taken.
  ghost predicate Remaining(surviving: nat, mask: nat, done: nat) {
    && (forall i: nat :: i < done ==> !BitAt(surviving, i))
    && forall i: nat :: done <= i ==> BitAt(surviving, i) == BitAt(mask, i)
  }

  lemma TakesLowest(surviving: nat, mask: nat, done: nat, at: nat)
    requires surviving > 0 && Remaining(surviving, mask, done)
    requires BitAt(surviving, at) && forall i: nat :: i < at ==> !BitAt(surviving, i)
    ensures done <= at && forall i: nat :: done <= i < at ==> !BitAt(mask, i)
    ensures Remaining(And(surviving, surviving - 1), mask, at + 1)
    ensures And(surviving, surviving - 1) < surviving
  {
    hide BitAt, And;
    AndShrinks(surviving);
    assert done <= at by { assert BitAt(surviving, at); }
    var left := And(surviving, surviving - 1);
    forall i: nat
      ensures i < at + 1 ==> !BitAt(left, i)
      ensures at + 1 <= i ==> BitAt(left, i) == BitAt(mask, i)
    {
      LowestCleared(surviving, at, i);
      assert done <= i ==> BitAt(surviving, i) == BitAt(mask, i);
    }
    forall i: nat | done <= i < at
      ensures !BitAt(mask, i)
    {
      assert BitAt(surviving, i) == BitAt(mask, i);
    }
  }

  lemma NothingRemains(mask: nat, done: nat, i: nat)
    requires Remaining(0, mask, done) && done <= i
    ensures !BitAt(mask, i)
  {
    NoBits(i);
    hide BitAt;
    assert BitAt(0, i) == BitAt(mask, i);
  }

  // Every position whose byte the filter passes has its bit in the mask.
  ghost predicate KeepsPassing(filter: NibbleFilter, window: seq<byte>, from: nat, mask: nat)
    requires FilterShape(filter) && from + VECTOR_BYTES <= |window|
  {
    forall i :: from <= i < from + VECTOR_BYTES && Passes(filter, window[i]) ==> BitAt(mask, i - from)
  }

  // Positions whose bits the mask has clear match nothing.
  lemma UnkeptMatchNothing(
      table: SignatureTable, carvers: seq<Carver>, window: seq<byte>, windowOffset: nat, from: nat, mask: nat,
      done: nat, at: nat)
    requires TableOf(table, carvers) && from + VECTOR_BYTES <= |window| && done <= at <= VECTOR_BYTES
    requires KeepsPassing(table.filter, window, from, mask)
    requires forall i: nat :: done <= i < at ==> !BitAt(mask, i)
    ensures NaiveUpTo(Flatten(carvers), window, windowOffset, from + at)
            == NaiveUpTo(Flatten(carvers), window, windowOffset, from + done)
  {
    hide Flatten, StableSort, NaiveUpTo, BitAt, Passes, SlicesGroups, AllMagical;
    forall i | from + done <= i < from + at
      ensures !Passes(table.filter, window[i])
    {
      assert !BitAt(mask, i - from);
    }
    ClearBitsMatchNothing(table, carvers, window, windowOffset, from + done, from + at);
  }

  // The positions one vector's mask kept, lowest bit first, each asked the exact
  // question the portable walk asks. `from` is where the vector begins.
  method MatchSurvivors(window: seq<byte>, windowOffset: nat, from: nat, mask: u32, table: SignatureTable,
                        before: seq<Match>, ghost carvers: seq<Carver>)
    returns (matches: seq<Match>)
    requires TableOf(table, carvers) && from + VECTOR_BYTES <= |window|
    requires KeepsPassing(table.filter, window, from, mask)
    requires before == NaiveUpTo(Flatten(carvers), window, windowOffset, from)
    ensures matches == NaiveUpTo(Flatten(carvers), window, windowOffset, from + VECTOR_BYTES)
  {
    hide Flatten, StableSort, MatchesAt, Group, SlicesGroups, AllMagical, BitAt, And, Passes, KeepsPassing, Remaining;
    matches := before;
    var surviving: u32 := mask;
    ghost var done: nat := 0;
    AllRemain(mask);
    while surviving != 0
      invariant done <= VECTOR_BYTES
      invariant matches == NaiveUpTo(Flatten(carvers), window, windowOffset, from + done)
      invariant Remaining(surviving, mask, done)
      decreases surviving
    {
      var at := CountrZero(surviving);
      TakesLowest(surviving, mask, done, at);
      UnkeptMatchNothing(table, carvers, window, windowOffset, from, mask, done, at);
      var here := MatchAt(window[from + at..], windowOffset + (from + at), table, carvers);
      matches := matches + here;
      surviving := And(surviving, surviving - 1);
      done := at + 1;
    }
    forall i: nat | done <= i < VECTOR_BYTES
      ensures !BitAt(mask, i)
    {
      NothingRemains(mask, done, i);
    }
    UnkeptMatchNothing(table, carvers, window, windowOffset, from, mask, done, VECTOR_BYTES);
  }

  lemma AllRemain(mask: nat)
    ensures Remaining(mask, mask, 0)
  {
  }

  // Four vectors to a prefilter call; what is left over is walked byte by byte.
  method MatchWithFastPath(window: seq<byte>, windowOffset: nat, table: SignatureTable, prefilter: Prefilter,
                           ghost carvers: seq<Carver>)
    returns (matches: seq<Match>)
    requires TableOf(table, carvers) && NeverDrops(prefilter)
    ensures matches == Naive(Flatten(carvers), window, windowOffset)
  {
    hide Flatten, StableSort, MatchesAt, Group, SlicesGroups, AllMagical, BitAt, Passes;
    matches := [];
    var at := 0;
    while |window| - at >= CHUNK_BYTES
      invariant 0 <= at <= |window|
      invariant matches == NaiveUpTo(Flatten(carvers), window, windowOffset, at)
    {
      var chunk := window[at..];
      var masks := prefilter(chunk, table.filter);
      for vector := 0 to VECTORS_PER_CALL
        invariant matches == NaiveUpTo(Flatten(carvers), window, windowOffset, at + 32 * vector)
      {
        var from := at + 32 * vector;
        forall i | from <= i < from + VECTOR_BYTES && Passes(table.filter, window[i])
          ensures BitAt(masks[vector], i - from)
        {
          assert chunk[32 * vector + (i - from)] == window[i];
        }
        matches := MatchSurvivors(window, windowOffset, from, masks[vector], table, matches, carvers);
      }
      at := at + CHUNK_BYTES;
    }
    matches := MatchPortable(window, windowOffset, table, at, matches, carvers);
  }

  // ---- Canonical order ----

  predicate Before(a: Match, b: Match) {
    a.offset < b.offset || (a.offset == b.offset && a.carverIndex <= b.carverIndex)
  }

  ghost predicate InOrder(matches: seq<Match>) {
    forall i, j :: 0 <= i < j < |matches| ==> Before(matches[i], matches[j])
  }

  function InsertInOrder(m: Match, sorted: seq<Match>): seq<Match> {
    if sorted == [] || Before(m, sorted[0]) then [m] + sorted
    else [sorted[0]] + InsertInOrder(m, sorted[1..])
  }

  // Sorted by where the file would start; carvers registered first go first.
  function Canonical(matches: seq<Match>): seq<Match> {
    if matches == [] then [] else InsertInOrder(matches[0], Canonical(matches[1..]))
  }

  lemma {:induction false} InsertAdds(m: Match, sorted: seq<Match>)
    ensures multiset(InsertInOrder(m, sorted)) == multiset{m} + multiset(sorted)
  {
    if sorted != [] && !Before(m, sorted[0]) {
      InsertAdds(m, sorted[1..]);
      assert sorted == [sorted[0]] + sorted[1..];
    }
  }

  lemma {:induction false} InsertIsInOrder(m: Match, sorted: seq<Match>)
    requires InOrder(sorted)
    ensures InOrder(InsertInOrder(m, sorted))
  {
    if sorted != [] && !Before(m, sorted[0]) {
      var rest := InsertInOrder(m, sorted[1..]);
      InsertIsInOrder(m, sorted[1..]);
      InsertAdds(m, sorted[1..]);
      forall i | 0 <= i < |rest|
        ensures Before(sorted[0], rest[i])
      {
        assert rest[i] in multiset(rest);
        assert rest[i] == m || rest[i] in sorted[1..];
      }
    }
  }

  // Sorting orders the matches and neither loses nor repeats one.
  lemma {:induction false} CanonicalIsSorted(matches: seq<Match>)
    ensures InOrder(Canonical(matches))
    ensures multiset(Canonical(matches)) == multiset(matches)
  {
    if matches == [] {
    } else {
      CanonicalIsSorted(matches[1..]);
      InsertIsInOrder(matches[0], Canonical(matches[1..]));
      InsertAdds(matches[0], Canonical(matches[1..]));
      hide InsertInOrder, InOrder;
      assert matches == [matches[0]] + matches[1..];
    }
  }

  lemma {:induction false} InOrderIsUnique(a: seq<Match>, b: seq<Match>)
    requires InOrder(a) && InOrder(b) && multiset(a) == multiset(b)
    ensures a == b
  {
    if a == [] {
      assert |multiset(b)| == 0;
    } else {
      assert |multiset(b)| == |multiset(a)| > 0;
      FirstIsBefore(a, b[0]);
      FirstIsBefore(b, a[0]);
      RestOfMatches(a);
      RestOfMatches(b);
      InOrderIsUnique(a[1..], b[1..]);
    }
  }

  lemma FirstIsBefore(sorted: seq<Match>, m: Match)
    requires InOrder(sorted) && m in multiset(sorted)
    ensures Before(sorted[0], m)
  {
    var i :| 0 <= i < |sorted| && sorted[i] == m;
  }

  lemma RestOfMatches(matches: seq<Match>)
    requires matches != []
    ensures multiset(matches[1..]) == multiset(matches) - multiset{matches[0]}
    ensures matches[0] in multiset(matches) && matches == [matches[0]] + matches[1..]
  {
    assert matches == [matches[0]] + matches[1..];
  }

  // Equal keys are equal matches, so whatever sort puts the matches in order
  // gives this list.
  lemma AnySortIsCanonical(matches: seq<Match>, sorted: seq<Match>)
    requires InOrder(sorted) && multiset(sorted) == multiset(matches)
    ensures sorted == Canonical(matches)
  {
    CanonicalIsSorted(matches);
    InOrderIsUnique(sorted, Canonical(matches));
  }

  // Whichever way the positions were walked, the window's matches are those of
  // every signature at every position, in canonical order.
  method MatchWindow(window: seq<byte>, windowOffset: nat, table: SignatureTable, prefilter: Prefilter,
                     ghost carvers: seq<Carver>)
    returns (matches: seq<Match>)
    requires TableOf(table, carvers) && NeverDrops(prefilter)
    ensures matches == Canonical(Naive(Flatten(carvers), window, windowOffset))
  {
    if table.usesFastPath {
      matches := MatchWithFastPath(window, windowOffset, table, prefilter, carvers);
    } else {
      matches := MatchPortable(window, windowOffset, table, 0, [], carvers);
    }
    matches := Canonical(matches);
  }
}
