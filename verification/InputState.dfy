/**
 * The input snapshot of each simulation step: every channel keeps its last valid value, and a channel that stays
 * invalid for too many steps trips the protection. State is related to the whole history of publications and steps.
 */
module InputState {
  import opened Bytes
  import LogFormat
  import LogRecord

  const MAX_CHANNELS := 64
  const INVALID_STEP_LIMIT := 100

  /** `initial` is the reference value, if there is one. Values are the bits of their union. */
  datatype Descriptor = Descriptor(named: bool, kind: nat, initial: Option<Word64>)

  predicate IsValueValid(kind: nat, bits: Word64, transportValid: bool) {
    transportValid && LogFormat.ValidKind(kind) && LogRecord.Representable(kind, bits)
  }

  predicate IsReference(d: Descriptor) { d.named && d.initial.Some? && IsValueValid(d.kind, d.initial.value, true) }

  datatype Channel = Channel(
    descriptor: Descriptor, candidate: Word64, valid: bool, generation: nat,
    lastValid: Option<Word64>, consumed: nat, invalidSteps: nat)

  datatype Status = Ok | InvalidArgument | NoReference | ProtectionTripped

  datatype StepInputs = StepInputs(values: seq<Word64>, limited: seq<nat>, tripped: bool)

  // ---- Histories ----

  datatype Event =
    | Published(channel: nat, bits: Word64, transportValid: bool)
    | Prepared

  function Front(es: seq<Event>): seq<Event>
    requires es != []
  {
    es[..|es| - 1]
  }

  function Last(es: seq<Event>): Event
    requires es != []
  {
    es[|es| - 1]
  }

  /** How often channel `i` has been published. */
  function Publications(es: seq<Event>, i: nat): nat {
    if es == [] then 0
    else Publications(Front(es), i) + if Last(es).Published? && Last(es).channel == i then 1 else 0
  }

  /** The latest publication of channel `i` since the last step boundary. */
  function Fresh(es: seq<Event>, i: nat): Option<Event> {
    if es == [] || Last(es).Prepared? then None
    else if Last(es).channel == i then Some(Last(es))
    else Fresh(Front(es), i)
  }

  function FreshValid(es: seq<Event>, i: nat, kind: nat): bool {
    var f := Fresh(es, i);
    f.Some? && f.value.Published? && IsValueValid(kind, f.value.bits, f.value.transportValid)
  }

  /** The last candidate that was fresh and valid at a step boundary. */
  function Accepted(es: seq<Event>, i: nat, kind: nat): Option<Word64> {
    if es == [] then None
    else if Last(es).Prepared? && FreshValid(Front(es), i, kind) then Some(Fresh(Front(es), i).value.bits)
    else Accepted(Front(es), i, kind)
  }

  /** The steps with a fresh invalid candidate since the last step with a fresh valid one. */
  function InvalidSteps(es: seq<Event>, i: nat, kind: nat): nat {
    if es == [] then 0
    else
      var before := InvalidSteps(Front(es), i, kind);
      if Last(es).Published? || Fresh(Front(es), i).None? then before
      else if FreshValid(Front(es), i, kind) then 0
      else before + 1
  }

  /** What a snapshot taken now shows for a channel. */
  function Value(es: seq<Event>, i: nat, d: Descriptor): Word64
    requires d.initial.Some?
  {
    var accepted := Accepted(es, i, d.kind);
    if accepted.Some? then accepted.value else d.initial.value
  }

  /** A step boundary after history `es` lists channel `i`. */
  predicate Lists(es: seq<Event>, i: nat, kind: nat, stop: bool) {
    stop && Fresh(es, i).Some? && !FreshValid(es, i, kind) && InvalidSteps(es, i, kind) + 1 >= INVALID_STEP_LIMIT
  }

  // ---- The same histories, by position ----

  /** Event `k` is the latest publication of channel `i`, and no step boundary came after it. */
  predicate IsLatest(es: seq<Event>, i: nat, k: nat) {
    && k < |es| && es[k].Published? && es[k].channel == i
    && forall j :: k < j < |es| ==> es[j].Published? && es[j].channel != i
  }

  lemma {:induction false} FreshIsLatest(es: seq<Event>, i: nat)
    ensures Fresh(es, i).Some? <==> exists k :: 0 <= k < |es| && IsLatest(es, i, k)
    ensures forall k :: 0 <= k < |es| && IsLatest(es, i, k) ==> Fresh(es, i) == Some(es[k])
  {
    if es != [] {
      var n := |es| - 1;
      FreshIsLatest(Front(es), i);
      if es[n].Published? && es[n].channel != i {
        forall k | 0 <= k < n
          ensures IsLatest(es, i, k) <==> IsLatest(Front(es), i, k)
        {
          assert forall j :: 0 <= j < n ==> Front(es)[j] == es[j];
        }
      } else if es[n].Published? {
        assert IsLatest(es, i, n);
      }
    }
  }

  /** Boundary `k` found a fresh valid candidate, or a fresh one that is not. */
  predicate Succeeds(es: seq<Event>, i: nat, kind: nat, k: nat)
    requires k < |es|
  {
    es[k].Prepared? && FreshValid(es[..k], i, kind)
  }

  predicate Fails(es: seq<Event>, i: nat, kind: nat, k: nat)
    requires k < |es|
  {
    es[k].Prepared? && Fresh(es[..k], i).Some? && !FreshValid(es[..k], i, kind)
  }

  lemma BoundaryBefore(es: seq<Event>, i: nat, kind: nat, k: nat)
    requires k < |es| - 1
    ensures Succeeds(Front(es), i, kind, k) == Succeeds(es, i, kind, k) && Fails(Front(es), i, kind, k) == Fails(es, i, kind, k)
  {
    assert Front(es)[..k] == es[..k];
  }

  /** The accepted value is that of the last boundary with a fresh valid candidate; before the first there is none. */
  lemma {:induction false} AcceptedIsLatest(es: seq<Event>, i: nat, kind: nat, k: nat)
    requires k < |es| && Succeeds(es, i, kind, k) && forall j :: k < j < |es| ==> !Succeeds(es, i, kind, j)
    ensures Accepted(es, i, kind) == Some(Fresh(es[..k], i).value.bits)
  {
    hide Fresh, FreshValid;
    var n := |es| - 1;
    assert Front(es) == es[..n];
    if k < n {
      BoundaryBefore(es, i, kind, k);
      assert Front(es)[..k] == es[..k];
      forall j | k < j < n
        ensures !Succeeds(Front(es), i, kind, j)
      {
        BoundaryBefore(es, i, kind, j);
      }
      AcceptedIsLatest(Front(es), i, kind, k);
      assert !Succeeds(es, i, kind, n);
    }
  }

  lemma {:induction false} NothingAccepted(es: seq<Event>, i: nat, kind: nat)
    requires forall k :: 0 <= k < |es| ==> !Succeeds(es, i, kind, k)
    ensures Accepted(es, i, kind) == None
  {
    hide Fresh, FreshValid;
    if es != [] {
      forall k | 0 <= k < |es| - 1
        ensures !Succeeds(Front(es), i, kind, k)
      {
        BoundaryBefore(es, i, kind, k);
      }
      NothingAccepted(Front(es), i, kind);
      assert Front(es) == es[..|es| - 1] && !Succeeds(es, i, kind, |es| - 1);
    }
  }

  /** The failed boundaries since the last one that succeeded. */
  ghost function FailedSince(es: seq<Event>, i: nat, kind: nat): set<nat> {
    set k: nat | k < |es| && Fails(es, i, kind, k) && forall j :: k < j < |es| ==> !Succeeds(es, i, kind, j)
  }

  /** The invalid count is their number. */
  lemma {:induction false} InvalidStepsAreFailed(es: seq<Event>, i: nat, kind: nat)
    ensures InvalidSteps(es, i, kind) == |FailedSince(es, i, kind)|
  {
    hide Fresh, IsValueValid, FailedSince;
    if es == [] {
      NothingFailed(i, kind);
    } else {
      var n := |es| - 1;
      assert Front(es) == es[..n] && Last(es) == es[n];
      InvalidStepsAreFailed(Front(es), i, kind);
      FailedNext(es, i, kind);
    }
  }

  lemma NothingFailed(i: nat, kind: nat)
    ensures FailedSince([], i, kind) == {}
  {
  }

  lemma FailedNext(es: seq<Event>, i: nat, kind: nat)
    requires es != []
    ensures var n := |es| - 1; var before := FailedSince(Front(es), i, kind);
      && n !in before
      && FailedSince(es, i, kind) == if Succeeds(es, i, kind, n) then {} else if Fails(es, i, kind, n) then before + {n} else before
  {
    hide Succeeds, Fails;
    var n := |es| - 1;
    NotBoth(es, i, kind, n);
    forall k | 0 <= k < n
      ensures Succeeds(Front(es), i, kind, k) == Succeeds(es, i, kind, k) && Fails(Front(es), i, kind, k) == Fails(es, i, kind, k)
    {
      BoundaryBefore(es, i, kind, k);
    }
  }

  lemma NotBoth(es: seq<Event>, i: nat, kind: nat, k: nat)
    requires k < |es|
    ensures !(Succeeds(es, i, kind, k) && Fails(es, i, kind, k))
  {
  }

  /** Every value a snapshot shows suits the channel's type. */
  lemma {:induction false} ValuesSuitTypes(es: seq<Event>, i: nat, d: Descriptor)
    requires IsReference(d)
    ensures LogRecord.Representable(d.kind, Value(es, i, d))
  {
    if es != [] {
      ValuesSuitTypes(Front(es), i, d);
    }
  }

  /** Publications between steps that never reach a boundary leave no trace, and absent data changes nothing. */
  lemma AbsentDataChangesNothing(es: seq<Event>, i: nat, kind: nat)
    requires Fresh(es, i).None?
    ensures Accepted(es + [Prepared], i, kind) == Accepted(es, i, kind)
    ensures InvalidSteps(es + [Prepared], i, kind) == InvalidSteps(es, i, kind)
  {
    assert Front(es + [Prepared]) == es;
  }

  /** The trip lists a channel exactly when its count is at the limit, protection is on, and the channel got data since the last step. */
  lemma ListedIffAtLimit(es: seq<Event>, i: nat, kind: nat, stop: bool)
    ensures Lists(es, i, kind, stop) <==>
      stop && Fresh(es, i).Some? && InvalidSteps(es + [Prepared], i, kind) >= INVALID_STEP_LIMIT
  {
    assert Front(es + [Prepared]) == es;
  }

  /** `n` steps, each with one invalid publication of channel `i` before it. */
  function Failing(i: nat, n: nat): seq<Event> {
    if n == 0 then [] else Failing(i, n - 1) + [Published(i, 0, false)] + [Prepared]
  }

  lemma {:induction false} FailingCounts(i: nat, n: nat, kind: nat)
    ensures InvalidSteps(Failing(i, n), i, kind) == n
  {
    if n > 0 {
      FailingCounts(i, n - 1, kind);
      var before := Failing(i, n - 1);
      var published := before + [Published(i, 0, false)];
      assert Front(Failing(i, n)) == published && Front(published) == before;
    }
  }

  /** A channel can stand at the limit and not be listed: after the step that tripped, silence. */
  lemma AtLimitButNotListed(i: nat, kind: nat)
    ensures var es := Failing(i, INVALID_STEP_LIMIT);
      InvalidSteps(es + [Prepared], i, kind) >= INVALID_STEP_LIMIT && !Lists(es, i, kind, true)
  {
    var es := Failing(i, INVALID_STEP_LIMIT);
    FailingCounts(i, INVALID_STEP_LIMIT, kind);
    AbsentDataChangesNothing(es, i, kind);
  }

  /** No step boundary of the history listed channel `i`. */
  ghost predicate NeverListed(es: seq<Event>, i: nat, kind: nat) {
    forall k :: 0 <= k < |es| && es[k].Prepared? ==> !Lists(es[..k], i, kind, true)
  }

  lemma {:induction false} BelowLimit(es: seq<Event>, i: nat, kind: nat)
    requires NeverListed(es, i, kind)
    ensures InvalidSteps(es, i, kind) < INVALID_STEP_LIMIT
  {
    if es != [] {
      var n := |es| - 1;
      forall k | 0 <= k < n && es[..n][k].Prepared?
        ensures !Lists(es[..n][..k], i, kind, true)
      {
        assert es[..n][..k] == es[..k];
      }
      BelowLimit(es[..n], i, kind);
      assert Front(es) == es[..n];
    }
  }

  /** The first trip, the only one a run lives to see, lists exactly the channels at the limit, each with a count of exactly the limit. */
  lemma FirstTripIsExact(es: seq<Event>, i: nat, kind: nat)
    requires NeverListed(es, i, kind)
    ensures Lists(es, i, kind, true) <==> InvalidSteps(es + [Prepared], i, kind) >= INVALID_STEP_LIMIT
    ensures InvalidSteps(es + [Prepared], i, kind) <= INVALID_STEP_LIMIT
  {
    BelowLimit(es, i, kind);
    assert Front(es + [Prepared]) == es;
  }

  // ---- Channels ----

  /** The channel's fields say what the history says. */
  ghost predicate Tracks(c: Channel, es: seq<Event>, i: nat) {
    var f := Fresh(es, i);
    var kind := c.descriptor.kind;
    && IsReference(c.descriptor)
    && c.generation == Publications(es, i) && c.consumed <= c.generation
    && (c.consumed != c.generation <==> f.Some?)
    && (f.Some? ==> f.value.Published? && c.candidate == f.value.bits && c.valid == FreshValid(es, i, kind))
    && c.lastValid == Accepted(es, i, kind) && c.invalidSteps == InvalidSteps(es, i, kind)
  }

  function Receive(c: Channel, bits: Word64, transportValid: bool): Channel {
    c.(candidate := bits, valid := IsValueValid(c.descriptor.kind, bits, transportValid), generation := c.generation + 1)
  }

  function Consume(c: Channel): Channel {
    if c.generation == c.consumed then c
    else if c.valid then c.(consumed := c.generation, lastValid := Some(c.candidate), invalidSteps := 0)
    else c.(consumed := c.generation, invalidSteps := c.invalidSteps + 1)
  }

  lemma ReceiveTracks(c: Channel, es: seq<Event>, i: nat, e: Event)
    requires Tracks(c, es, i) && e.Published?
    ensures Tracks(if e.channel == i then Receive(c, e.bits, e.transportValid) else c, es + [e], i)
  {
    assert Front(es + [e]) == es;
  }

  lemma ConsumeTracks(c: Channel, es: seq<Event>, i: nat)
    requires Tracks(c, es, i)
    ensures Tracks(Consume(c), es + [Prepared], i)
  {
    assert Front(es + [Prepared]) == es;
  }

  lemma TracksGeneration(c: Channel, es: seq<Event>, i: nat)
    requires Tracks(c, es, i)
    ensures c.generation == Publications(es, i)
  {
  }

  lemma NothingTracks(d: Descriptor, i: nat)
    requires IsReference(d)
    ensures Tracks(Channel(d, 0, false, 0, None, 0, 0), [], i)
  {
  }

  ghost predicate IsIncreasing(s: seq<nat>) { forall i, j :: 0 <= i < j < |s| ==> s[i] < s[j] }

  lemma NothingIncreases()
    ensures IsIncreasing([])
  {
  }

  lemma AppendIncreases(s: seq<nat>, x: nat)
    requires IsIncreasing(s) && forall y :: y in s ==> y < x
    ensures IsIncreasing(s + [x])
  {
    assert forall i :: 0 <= i < |s| ==> s[i] in s;
  }

  class Inputs {
    var initialized: bool
    var channels: array<Channel>
    var count: nat
    var stop: bool
    /** Every publication and step since initialization. */
    ghost var events: seq<Event>

    constructor ()
      ensures Valid() && !initialized && fresh(channels)
    {
      initialized, count, stop, events := false, 0, false, [];
      channels := new Channel[MAX_CHANNELS](_ => Channel(Descriptor(false, 0, None), 0, false, 0, None, 0, 0));
    }

    ghost predicate Valid()
      reads this, channels
    {
      && channels.Length == MAX_CHANNELS && count <= MAX_CHANNELS
      && forall i :: 0 <= i < count ==> Tracks(channels[i], events, i)
    }

    method Init(descriptors: seq<Descriptor>, stopOnLimit: bool) returns (status: Status)
      requires Valid()
      modifies this, channels
      ensures Valid() && channels == old(channels)
      ensures status == InvalidArgument <==> |descriptors| > MAX_CHANNELS
      ensures status == InvalidArgument ==> unchanged(this) && unchanged(channels)
      ensures status == Ok <==> |descriptors| <= MAX_CHANNELS && forall i :: 0 <= i < |descriptors| ==> IsReference(descriptors[i])
      ensures status == NoReference ==> !initialized && count == 0
      ensures status == Ok ==>
        && initialized && count == |descriptors| && stop == stopOnLimit && events == []
        && forall i :: 0 <= i < count ==> channels[i].descriptor == descriptors[i]
      ensures status == Ok || status == InvalidArgument || status == NoReference
    {
      if |descriptors| > MAX_CHANNELS {
        return InvalidArgument;
      }
      hide Tracks, IsReference;
      initialized, count, stop, events := false, 0, false, [];
      for index := 0 to |descriptors|
        invariant !initialized && count == 0 && events == [] && channels == old(channels)
        invariant forall i :: 0 <= i < index ==> IsReference(descriptors[i]) && channels[i].descriptor == descriptors[i] && Tracks(channels[i], [], i)
      {
        if !IsReference(descriptors[index]) {
          return NoReference;
        }
        channels[index] := Channel(descriptors[index], 0, false, 0, None, 0, 0);
        NothingTracks(descriptors[index], index);
      }
      count, stop, initialized := |descriptors|, stopOnLimit, true;
      status := Ok;
    }

    method Publish(channel: nat, bits: Word64, transportValid: bool) returns (status: Status)
      requires Valid()
      modifies this`events, channels
      ensures Valid()
      ensures status == if initialized && channel < count then Ok else InvalidArgument
      ensures events == old(events) + if status == Ok then [Published(channel, bits, transportValid)] else []
      ensures channel < count <= MAX_CHANNELS == channels.Length && status == Ok ==>
        channels[channel] == Receive(old(channels[channel]), bits, transportValid)
      ensures forall i :: 0 <= i < MAX_CHANNELS && (i != channel || status != Ok) ==> channels[i] == old(channels[i])
      ensures forall i :: 0 <= i < MAX_CHANNELS ==> channels[i].descriptor == old(channels[i].descriptor)
    {
      if !initialized || channel >= count {
        return InvalidArgument;
      }
      hide Tracks, IsValueValid;
      ghost var e := Published(channel, bits, transportValid);
      forall i | 0 <= i < count
        ensures Tracks(if i == channel then Receive(channels[i], bits, transportValid) else channels[i], events + [e], i)
      {
        ReceiveTracks(channels[i], events, i, e);
      }
      var c := channels[channel];
      channels[channel] := c.(candidate := bits, valid := IsValueValid(c.descriptor.kind, bits, transportValid), generation := c.generation + 1);
      events := events + [e];
      status := Ok;
    }

    /** The channel's part of a step; `listed` says whether it is at the limit and just failed again. */
    method PrepareChannel(index: nat) returns (listed: bool)
      requires index < channels.Length == MAX_CHANNELS
      modifies channels
      ensures channels[index] == Consume(old(channels[index]))
      ensures forall i :: 0 <= i < MAX_CHANNELS && i != index ==> channels[i] == old(channels[i])
      ensures listed <==> old(var c := channels[index];
        c.generation != c.consumed && !c.valid && stop && c.invalidSteps + 1 >= INVALID_STEP_LIMIT)
    {
      var c := channels[index];
      listed := false;
      if c.generation != c.consumed {
        c := c.(consumed := c.generation);
        if c.valid {
          c := c.(lastValid := Some(c.candidate), invalidSteps := 0);
        } else {
          c := c.(invalidSteps := c.invalidSteps + 1);
          listed := stop && c.invalidSteps >= INVALID_STEP_LIMIT;
        }
      }
      channels[index] := c;
    }

    /** A step boundary. The branch without any reference value cannot be taken once the state is initialized. */
    method PrepareStep() returns (status: Status, step: StepInputs)
      requires Valid()
      modifies this`events, channels
      ensures Valid() && status != NoReference
      ensures status == InvalidArgument <==> !initialized
      ensures !initialized ==> unchanged(this) && unchanged(channels)
      ensures initialized ==>
        && events == old(events) + [Prepared]
        && (forall i :: 0 <= i < count ==> channels[i].descriptor == old(channels[i].descriptor))
        && |step.values| == count
        && (forall i :: 0 <= i < count ==> channels[i].descriptor.initial.Some? && step.values[i] == Value(events, i, channels[i].descriptor))
        && IsIncreasing(step.limited)
        && (forall i :: i in step.limited ==> i < count)
        && (forall i :: 0 <= i < count ==> (i in step.limited <==> Lists(old(events), i, channels[i].descriptor.kind, stop)))
        && (status == ProtectionTripped <==> step.limited != [])
        && (step.tripped <==> step.limited != [])
    {
      step := StepInputs([], [], false);
      if !initialized {
        return InvalidArgument, step;
      }
      hide Tracks, IsIncreasing, Lists, Value;
      ghost var before := events;
      NothingIncreases();
      var values: seq<Word64>, limited: seq<nat> := [], [];
      for index := 0 to count
        invariant |values| == index && events == before
        invariant forall i :: 0 <= i < index ==> Stepped(channels[i], old(channels[i]), before, i, values[i])
        invariant forall i :: index <= i < MAX_CHANNELS ==> channels[i] == old(channels[i])
        invariant IsIncreasing(limited) && forall i :: i in limited ==> i < index
        invariant forall i :: 0 <= i < index ==> (i in limited <==> Lists(before, i, old(channels[i]).descriptor.kind, stop))
      {
        ghost var c := channels[index];
        SteppedFrom(c, before, index, stop);
        var listed := PrepareChannel(index);
        AppendIncreases(limited, index);
        if listed {
          limited := limited + [index];
        }
        if channels[index].lastValid.Some? {
          values := values + [channels[index].lastValid.value];
        } else if channels[index].descriptor.initial.Some? {
          values := values + [channels[index].descriptor.initial.value];
        } else {
          status := NoReference;
          return;
        }
      }
      events := before + [Prepared];
      step := StepInputs(values, limited, limited != []);
      status := if limited != [] then ProtectionTripped else Ok;
      forall i | 0 <= i < count
        ensures Tracks(channels[i], events, i)
      {
        assert Stepped(channels[i], old(channels[i]), before, i, values[i]);
      }
    }
  }

  /** The channel has gone through a step boundary and shows `value`. */
  ghost predicate Stepped(c: Channel, old_: Channel, es: seq<Event>, i: nat, value: Word64) {
    && Tracks(c, es + [Prepared], i) && c.descriptor == old_.descriptor
    && c.descriptor.initial.Some? && value == Value(es + [Prepared], i, c.descriptor)
  }

  lemma SteppedFrom(c: Channel, es: seq<Event>, i: nat, stop: bool)
    requires Tracks(c, es, i)
    ensures var next := Consume(c);
      && c.descriptor.initial.Some?
      && Stepped(next, c, es, i, if next.lastValid.Some? then next.lastValid.value else c.descriptor.initial.value)
    ensures Lists(es, i, c.descriptor.kind, stop) <==>
      c.generation != c.consumed && !c.valid && stop && c.invalidSteps + 1 >= INVALID_STEP_LIMIT
  {
    ConsumeTracks(c, es, i);
  }
}
