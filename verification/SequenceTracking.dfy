/** The 16-bit sequence tracker of the host, the board's comparison, and the unbounded tracking they stand for. */
module SequenceTracking {
  import opened Bytes

  datatype Relation = First | Expected | Gap | Duplicate | Old

  /** Tracker contents; the machine keeps `last` as sixteen bits, the reference keeps the true number. */
  datatype Tracking = Tracking(initialized: bool, last: int, missing: nat, duplicates: nat, outdated: nat)

  const UNTRACKED := Tracking(false, 0, 0, 0, 0)

  predicate IsAccepted(r: Relation) { r.First? || r.Expected? || r.Gap? }

  function Wrap(n: int): Word16 { n % 0x1_0000 }

  /** One step of the 16-bit tracker. */
  function Track(t: Tracking, sequence: Word16): (Tracking, Relation) {
    var delta := Wrap(sequence - t.last);
    if !t.initialized then (t.(initialized := true, last := sequence), First)
    else if delta == 0 then (t.(duplicates := t.duplicates + 1), Duplicate)
    else if delta > 0x7fff then (t.(outdated := t.outdated + 1), Old)
    else if delta == 1 then (t.(last := sequence), Expected)
    else (t.(last := sequence, missing := t.missing + (delta - 1)), Gap)
  }

  /** The same step on true sequence numbers, by integer comparison. */
  function TrackTrue(t: Tracking, n: int): (Tracking, Relation) {
    if !t.initialized then (t.(initialized := true, last := n), First)
    else if n == t.last then (t.(duplicates := t.duplicates + 1), Duplicate)
    else if n < t.last then (t.(outdated := t.outdated + 1), Old)
    else if n == t.last + 1 then (t.(last := n), Expected)
    else (t.(last := n, missing := t.missing + (n - t.last - 1)), Gap)
  }

  /** The board's test for a read acknowledgement that makes progress. */
  function IsNewerSequence(sequence: Word16, previous: Word16): (newer: bool)
    ensures newer <==> IsAccepted(Track(Tracking(true, previous, 0, 0, 0), sequence).1)
  {
    var distance := Wrap(sequence - previous);
    distance != 0 && distance < 0x8000
  }

  /** What sixteen bits keep of a tracking. */
  function Narrow(t: Tracking): Tracking { t.(last := Wrap(t.last)) }

  /** A true distance sixteen bits classify correctly: the half range, or any older number whose wrap still looks old. */
  predicate Unambiguous(distance: int) {
    -0x8000 <= distance < 0x8000 || (distance < 0 && Wrap(distance) >= 0x8000)
  }

  /** A step on the low sixteen bits is the step on true numbers exactly at unambiguous distances. */
  lemma StepRefines(t: Tracking, n: int)
    requires t.initialized
    ensures var (wide, relation) := TrackTrue(t, n);
      Track(Narrow(t), Wrap(n)) == (Narrow(wide), relation) <==> Unambiguous(n - t.last)
  {
    assert Wrap(Wrap(n) - Wrap(t.last)) == Wrap(n - t.last);
  }

  function Run(t: Tracking, arrivals: seq<Word16>): (Tracking, seq<Relation>)
    decreases |arrivals|
  {
    if arrivals == [] then (t, [])
    else
      var (next, relation) := Track(t, arrivals[0]);
      var (end, relations) := Run(next, arrivals[1..]);
      (end, [relation] + relations)
  }

  function RunTrue(t: Tracking, arrivals: seq<int>): (Tracking, seq<Relation>)
    decreases |arrivals|
  {
    if arrivals == [] then (t, [])
    else
      var (next, relation) := TrackTrue(t, arrivals[0]);
      var (end, relations) := RunTrue(next, arrivals[1..]);
      (end, [relation] + relations)
  }

  /** Every arrival lies within half the sequence space of the last accepted number. */
  predicate InHalfRange(t: Tracking, arrivals: seq<int>)
    decreases |arrivals|
  {
    arrivals == [] ||
    ((t.initialized ==> -0x8000 <= arrivals[0] - t.last < 0x8000) && InHalfRange(TrackTrue(t, arrivals[0]).0, arrivals[1..]))
  }

  function WrapAll(arrivals: seq<int>): (wrapped: seq<Word16>)
    ensures |wrapped| == |arrivals|
  {
    if arrivals == [] then [] else [Wrap(arrivals[0])] + WrapAll(arrivals[1..])
  }

  /** Over a whole run in the half range, wrap-around is invisible: same relations, same counters, same last number. */
  lemma {:induction false} RunRefines(t: Tracking, arrivals: seq<int>)
    requires InHalfRange(t, arrivals)
    ensures var (end, relations) := RunTrue(t, arrivals);
      Run(Narrow(t), WrapAll(arrivals)) == (Narrow(end), relations)
    decreases |arrivals|
  {
    if arrivals != [] {
      var n := arrivals[0];
      var next := TrackTrue(t, n).0;
      if t.initialized {
        StepRefines(t, n);
      }
      assert Track(Narrow(t), Wrap(n)) == (Narrow(next), TrackTrue(t, n).1);
      assert WrapAll(arrivals)[1..] == WrapAll(arrivals[1..]);
      RunRefines(next, arrivals[1..]);
    }
  }

  function AcceptedNumbers(arrivals: seq<int>, relations: seq<Relation>): seq<int>
    requires |arrivals| == |relations|
  {
    if arrivals == [] then []
    else (if IsAccepted(relations[0]) then [arrivals[0]] else []) + AcceptedNumbers(arrivals[1..], relations[1..])
  }

  lemma {:induction false} RunLength(t: Tracking, arrivals: seq<int>)
    ensures |RunTrue(t, arrivals).1| == |arrivals|
    decreases |arrivals|
  {
    if arrivals != [] {
      RunLength(TrackTrue(t, arrivals[0]).0, arrivals[1..]);
    }
  }

  predicate Increasing(s: seq<int>) { forall i, j :: 0 <= i < j < |s| ==> s[i] < s[j] }

  lemma IncreasingCons(head: int, tail: seq<int>)
    requires tail != [] && head < tail[0] && Increasing(tail)
    ensures Increasing([head] + tail)
  {
    var s := [head] + tail;
    forall i, j | 0 <= i < j < |s|
      ensures s[i] < s[j]
    {
      assert s[j] == tail[j - 1];
      assert tail[0] <= tail[j - 1];
      assert i > 0 ==> s[i] == tail[i - 1];
    }
  }

  /** The last accepted number, followed by the numbers the run accepts. */
  function Accepted(t: Tracking, arrivals: seq<int>): (s: seq<int>)
    requires |RunTrue(t, arrivals).1| == |arrivals|
    ensures s != []
  {
    [t.last] + AcceptedNumbers(arrivals, RunTrue(t, arrivals).1)
  }

  lemma {:induction false} RunAccounts(t: Tracking, arrivals: seq<int>)
    requires t.initialized && |RunTrue(t, arrivals).1| == |arrivals|
    ensures var end, accepted := RunTrue(t, arrivals).0, Accepted(t, arrivals);
      && Increasing(accepted)
      && end.last == accepted[|accepted| - 1]
      && end.missing - t.missing == end.last - t.last + 1 - |accepted|
    decreases |arrivals|
  {
    if arrivals != [] {
      var (next, relation) := TrackTrue(t, arrivals[0]);
      RunLength(next, arrivals[1..]);
      RunAccounts(next, arrivals[1..]);
      assert RunTrue(t, arrivals).1[1..] == RunTrue(next, arrivals[1..]).1;
      if IsAccepted(relation) {
        var tail := Accepted(next, arrivals[1..]);
        IncreasingCons(t.last, tail);
        assert Accepted(t, arrivals) == [t.last] + tail;
      } else {
        assert Accepted(t, arrivals) == Accepted(next, arrivals[1..]);
      }
    }
  }

  /** The 16-bit tracker, on a run in the half range from a fresh start: accepted true numbers strictly increase and the missing count is exactly the numbers skipped. */
  lemma TrackerCountsMissing(arrivals: seq<int>)
    requires arrivals != [] && InHalfRange(UNTRACKED, arrivals)
    ensures var (end, relations) := Run(UNTRACKED, WrapAll(arrivals));
      && |relations| == |arrivals|
      && var accepted := AcceptedNumbers(arrivals, relations);
      && accepted != [] && accepted[0] == arrivals[0]
      && Increasing(accepted)
      && end.last == Wrap(accepted[|accepted| - 1])
      && end.missing == accepted[|accepted| - 1] - accepted[0] + 1 - |accepted|
  {
    RunRefines(UNTRACKED, arrivals);
    assert Narrow(UNTRACKED) == UNTRACKED;
    var next := TrackTrue(UNTRACKED, arrivals[0]).0;
    RunLength(next, arrivals[1..]);
    RunAccounts(next, arrivals[1..]);
    var (end, relations) := RunTrue(UNTRACKED, arrivals);
    assert relations[1..] == RunTrue(next, arrivals[1..]).1;
    assert AcceptedNumbers(arrivals, relations) == [next.last] + AcceptedNumbers(arrivals[1..], relations[1..]);
  }

  // ---- The board's read acknowledgements ----

  /** The latest acknowledgement that made progress. */
  function Acknowledge(seen: Option<Word16>, sequence: Word16): Option<Word16> {
    if seen.None? || IsNewerSequence(sequence, seen.value) then Some(sequence) else seen
  }

  function AcknowledgeAll(seen: Option<Word16>, arrivals: seq<Word16>): Option<Word16>
    decreases |arrivals|
  {
    if arrivals == [] then seen else AcknowledgeAll(Acknowledge(seen, arrivals[0]), arrivals[1..])
  }

  function LastTracked(t: Tracking): Option<Word16> { if t.initialized then Some(Wrap(t.last)) else None }

  lemma AcknowledgeTracks(t: Tracking, sequence: Word16)
    requires 0 <= t.last < 0x1_0000
    ensures var next := Track(t, sequence).0;
      Acknowledge(LastTracked(t), sequence) == LastTracked(next) && 0 <= next.last < 0x1_0000
  {
    hide Wrap;
    WordWraps(t.last);
    WordWraps(sequence);
  }

  lemma WordWraps(w: Word16)
    ensures Wrap(w) == w
  {
  }

  /** The board's acknowledgement and the host's tracker, fed the same numbers, always hold the same last one. */
  lemma {:induction false} AcknowledgementFollowsTracker(t: Tracking, arrivals: seq<Word16>)
    requires 0 <= t.last < 0x1_0000
    ensures AcknowledgeAll(LastTracked(t), arrivals) == LastTracked(Run(t, arrivals).0)
    decreases |arrivals|
  {
    hide Track, Acknowledge, LastTracked;
    if arrivals != [] {
      AcknowledgeTracks(t, arrivals[0]);
      AcknowledgementFollowsTracker(Track(t, arrivals[0]).0, arrivals[1..]);
    }
  }

  class Tracker {
    var initialized: bool
    var lastSequence: Word16
    var missingFrames: nat
    var duplicateFrames: nat
    var oldFrames: nat

    constructor ()
      ensures Abstract() == UNTRACKED
    {
      initialized, lastSequence := false, 0;
      missingFrames, duplicateFrames, oldFrames := 0, 0, 0;
    }

    ghost function Abstract(): Tracking
      reads this
    {
      Tracking(initialized, lastSequence, missingFrames, duplicateFrames, oldFrames)
    }

    method Update(sequence: Word16) returns (relation: Relation)
      modifies this
      ensures (Abstract(), relation) == Track(old(Abstract()), sequence)
    {
      if !initialized {
        initialized := true;
        lastSequence := sequence;
        return First;
      }
      var delta := Wrap(sequence - lastSequence);
      if delta == 0 {
        duplicateFrames := duplicateFrames + 1;
        return Duplicate;
      }
      if delta > 0x7fff {
        oldFrames := oldFrames + 1;
        return Old;
      }
      lastSequence := sequence;
      if delta == 1 {
        return Expected;
      }
      missingFrames := missingFrames + (delta - 1);
      return Gap;
    }
  }
}
