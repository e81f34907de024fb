// The JPEG marker walk: from just past SOI, over fill bytes, length-prefixed
// segments and stuffed entropy data, to EOI; and the byte grammar it accepts.
module Jpeg {
  import opened Bytes
  import opened Outcomes
  import opened Candidates

  const MARKER_PREFIX: byte := 0xFF
  const MARKER_EOI: byte := 0xD9
  const MARKER_SOS: byte := 0xDA
  const MARKER_TEM: byte := 0x01
  const STUFFED_ZERO: byte := 0x00
  const SOI_SIGNATURE: seq<byte> := [0xFF, 0xD8, 0xFF]

  predicate IsRestart(code: byte) {
    0xD0 <= code <= 0xD7
  }

  predicate IsStandalone(code: byte) {
    code == MARKER_TEM || IsRestart(code)
  }

  // ---- The walk, as functions of the bytes ----

  datatype WalkState = WalkState(pos: nat, sawSos: bool)

  datatype WalkOutcome = WalkOutcome(end: nat, sawSos: bool, reachedEoi: bool)

  datatype EntropyOutcome = EntropyOutcome(pos: nat, foundTerminator: bool)

  // Entropy data ends at an 0xFF whose next byte is neither stuffing nor a
  // restart marker, or where the bytes run out.
  function EntropyEnd(data: seq<byte>, pos: nat): EntropyOutcome
    decreases |data| - pos
  {
    if pos >= |data| then EntropyOutcome(pos, false)
    else if data[pos] != MARKER_PREFIX then EntropyEnd(data, pos + 1)
    else if pos + 1 >= |data| then EntropyOutcome(pos, false)
    else if data[pos + 1] != STUFFED_ZERO && !IsRestart(data[pos + 1]) then EntropyOutcome(pos, true)
    else EntropyEnd(data, pos + 2)
  }

  // The position of the last prefix byte before the marker code.
  function LastFill(data: seq<byte>, pos: nat): (last: nat)
    ensures pos <= last && (pos < |data| ==> last < |data|)
    decreases |data| - pos
  {
    if pos + 1 < |data| && data[pos + 1] == MARKER_PREFIX then LastFill(data, pos + 1) else pos
  }

  function MarkerCode(data: seq<byte>, pos: nat): Option<byte> {
    if pos >= |data| || data[pos] != MARKER_PREFIX then None
    else if LastFill(data, pos) + 1 >= |data| then None
    else Some(data[LastFill(data, pos) + 1])
  }

  // The length counts the two bytes it is stored in, and what it spans must be
  // there.
  function SegmentEnd(data: seq<byte>, pos: nat): Option<nat> {
    if pos + 2 > |data| then None
    else
      var length := FromBigEndian(data[pos..pos + 2]);
      if length < 2 || pos + length > |data| then None else Some(pos + length)
  }

  datatype Step = Broken(at: WalkState) | Finished(at: WalkState) | Onward(at: WalkState)

  function StepFrom(data: seq<byte>, w: WalkState): Step {
    match MarkerCode(data, w.pos)
    case None => Broken(w)
    case Some(code) =>
      var past := w.(pos := LastFill(data, w.pos) + 2);
      if code == MARKER_EOI then Finished(past)
      else if IsStandalone(code) then Onward(past)
      else
        match SegmentEnd(data, past.pos)
        case None => Broken(past)
        case Some(end) =>
          if code != MARKER_SOS then Onward(past.(pos := end))
          else
            var entropy := EntropyEnd(data, end);
            if entropy.foundTerminator then Onward(WalkState(entropy.pos, true))
            else Broken(WalkState(entropy.pos, true))
  }

  lemma {:induction false} EntropyAdvances(data: seq<byte>, pos: nat)
    ensures pos <= EntropyEnd(data, pos).pos
    ensures pos <= |data| ==> EntropyEnd(data, pos).pos <= |data|
    decreases |data| - pos
  {
    if pos < |data| && (data[pos] != MARKER_PREFIX) {
      EntropyAdvances(data, pos + 1);
    } else if pos + 1 < |data| && (data[pos + 1] == STUFFED_ZERO || IsRestart(data[pos + 1])) {
      EntropyAdvances(data, pos + 2);
    }
  }

  // Every step that goes on moves the walk forward, and none leaves the data.
  lemma StepAdvances(data: seq<byte>, w: WalkState)
    requires w.pos <= |data|
    ensures w.pos <= StepFrom(data, w).at.pos <= |data|
    ensures !StepFrom(data, w).Broken? ==> w.pos + 2 <= StepFrom(data, w).at.pos
  {
    var past := LastFill(data, w.pos) + 2;
    if MarkerCode(data, w.pos).Some? && SegmentEnd(data, past).Some? {
      EntropyAdvances(data, SegmentEnd(data, past).value);
    }
  }

  function WalkFrom(data: seq<byte>, w: WalkState): WalkOutcome
    requires w.pos <= |data|
    decreases |data| - w.pos
  {
    StepAdvances(data, w);
    match StepFrom(data, w)
    case Broken(at) => WalkOutcome(at.pos, at.sawSos, false)
    case Finished(at) => WalkOutcome(at.pos, at.sawSos, true)
    case Onward(at) => WalkFrom(data, at)
  }

  // ---- The walk as it runs ----

  class Walk {
    var pos: nat
    var sawSos: bool

    function State(): WalkState reads this { WalkState(pos, sawSos) }

    constructor ()
      ensures State() == WalkState(2, false)
    {
      pos, sawSos := 2, false;
    }
  }

  method ScanEntropyData(data: seq<byte>, pos: nat) returns (outcome: EntropyOutcome)
    ensures outcome == EntropyEnd(data, pos)
  {
    var at := pos;
    while true
      invariant EntropyEnd(data, at) == EntropyEnd(data, pos)
      decreases |data| - at
    {
      if at >= |data| {
        return EntropyOutcome(at, false);
      }
      if data[at] != MARKER_PREFIX {
        at := at + 1;
      } else {
        if at + 1 >= |data| {
          return EntropyOutcome(at, false);
        }
        if data[at + 1] != STUFFED_ZERO && !IsRestart(data[at + 1]) {
          return EntropyOutcome(at, true);
        }
        at := at + 2;
      }
    }
  }

  method SkipFillBytes(data: seq<byte>, pos: nat) returns (last: nat)
    ensures last == LastFill(data, pos)
  {
    last := pos;
    while last + 1 < |data| && data[last + 1] == MARKER_PREFIX
      invariant LastFill(data, last) == LastFill(data, pos)
      decreases |data| - last
    {
      last := last + 1;
    }
  }

  // Reads the marker code at the walk's position and moves past the marker.
  method ReadMarkerCode(data: seq<byte>, walk: Walk) returns (code: Option<byte>)
    modifies walk
    ensures code == MarkerCode(data, old(walk.pos))
    ensures walk.sawSos == old(walk.sawSos)
    ensures walk.pos == if code.Some? then LastFill(data, old(walk.pos)) + 2 else old(walk.pos)
  {
    if walk.pos >= |data| || data[walk.pos] != MARKER_PREFIX {
      return None;
    }
    var prefixEnd := SkipFillBytes(data, walk.pos);
    if prefixEnd + 1 >= |data| {
      return None;
    }
    walk.pos := prefixEnd + 2;
    code := Some(data[prefixEnd + 1]);
  }

  // Applies one marker: true once EOI is reached, nothing when the walk breaks.
  method ApplyMarker(data: seq<byte>, walk: Walk, code: byte) returns (finished: Option<bool>)
    modifies walk
    ensures code == MARKER_EOI ==> finished == Some(true) && walk.State() == old(walk.State())
    ensures code != MARKER_EOI && IsStandalone(code) ==> finished == Some(false) && walk.State() == old(walk.State())
    ensures code != MARKER_EOI && !IsStandalone(code) ==>
              var end := SegmentEnd(data, old(walk.pos));
              if end.None? then finished == None && walk.State() == old(walk.State())
              else if code != MARKER_SOS then finished == Some(false) && walk.State() == WalkState(end.value, old(walk.sawSos))
              else
                var entropy := EntropyEnd(data, end.value);
                && finished == (if entropy.foundTerminator then Some(false) else None)
                && walk.State() == WalkState(entropy.pos, true)
  {
    if code == MARKER_EOI {
      return Some(true);
    }
    if IsStandalone(code) {
      return Some(false);
    }
    var end := SegmentEnd(data, walk.pos);
    if end.None? {
      return None;
    }
    walk.pos := end.value;
    if code != MARKER_SOS {
      return Some(false);
    }
    walk.sawSos := true;
    var entropy := ScanEntropyData(data, walk.pos);
    walk.pos := entropy.pos;
    finished := if entropy.foundTerminator then Some(false) else None;
  }

  method WalkMarkers(data: seq<byte>) returns (outcome: WalkOutcome)
    requires |data| >= 2
    ensures outcome == WalkFrom(data, WalkState(2, false))
  {
    hide EntropyEnd, LastFill, SegmentEnd, IsStandalone;
    var walk := new Walk();
    while true
      invariant walk.pos <= |data|
      invariant WalkFrom(data, walk.State()) == WalkFrom(data, WalkState(2, false))
      decreases |data| - walk.pos
    {
      ghost var before := walk.State();
      StepAdvances(data, before);
      var code := ReadMarkerCode(data, walk);
      if code.None? {
        return WalkOutcome(walk.pos, walk.sawSos, false);
      }
      var finished := ApplyMarker(data, walk, code.value);
      if finished.None? {
        return WalkOutcome(walk.pos, walk.sawSos, false);
      }
      if finished.value {
        return WalkOutcome(walk.pos, walk.sawSos, true);
      }
      assert StepFrom(data, before) == Onward(walk.State());
    }
  }

  // ---- The carver ----

  function VerdictFor(outcome: WalkOutcome): Verdict {
    if outcome.reachedEoi && outcome.sawSos then Verdict(outcome.end, VALID)
    else if outcome.sawSos then Verdict(outcome.end, UNCERTAIN)
    else Verdict(0, REJECTED)
  }

  predicate HeadMatches(data: seq<byte>) {
    |data| >= 3 && data[..3] == SOI_SIGNATURE
  }

  function Carved(data: seq<byte>): Verdict {
    if !HeadMatches(data) then VerdictFor(WalkOutcome(0, false, false))
    else VerdictFor(WalkFrom(data, WalkState(2, false)))
  }

  method Carve(data: seq<byte>) returns (verdict: Verdict)
    ensures verdict == Carved(data)
  {
    if !HeadMatches(data) {
      return VerdictFor(WalkOutcome(0, false, false));
    }
    var outcome := WalkMarkers(data);
    verdict := VerdictFor(outcome);
  }

  lemma {:induction false} WalkEndsInside(data: seq<byte>, w: WalkState)
    requires w.pos <= |data|
    ensures w.pos <= WalkFrom(data, w).end <= |data|
    decreases |data| - w.pos
  {
    StepAdvances(data, w);
    if StepFrom(data, w).Onward? {
      WalkEndsInside(data, StepFrom(data, w).at);
    }
  }

  // Whatever the bytes, the carver claims no more of them than there are.
  lemma CarveStaysInside(data: seq<byte>)
    ensures Carved(data).length <= |data|
    ensures Carved(data).confidence != REJECTED ==> Carved(data).length > 2
    ensures Carved(data).confidence == REJECTED ==> Carved(data).length == 0
  {
    if HeadMatches(data) {
      var w := WalkState(2, false);
      WalkEndsInside(data, w);
      StepAdvances(data, w);
      if StepFrom(data, w).Onward? {
        WalkEndsInside(data, StepFrom(data, w).at);
      }
      BrokenAtOnceSawNothing(data);
    }
  }

  lemma BrokenAtOnceSawNothing(data: seq<byte>)
    requires |data| >= 2
    ensures StepFrom(data, WalkState(2, false)).Broken? && StepFrom(data, WalkState(2, false)).at.pos == 2 ==>
              !StepFrom(data, WalkState(2, false)).at.sawSos
  {
    var past := LastFill(data, 2) + 2;
    if SegmentEnd(data, past).Some? {
      EntropyAdvances(data, SegmentEnd(data, past).value);
    }
  }
}
