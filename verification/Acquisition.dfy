/** From an acquisition payload to the input state: each accepted frame publishes every mapped channel exactly once. */
module Acquisition {
  import opened Bytes
  import opened Numbers
  import opened DaqSchema
  import LogFormat
  import LogRecord
  import LogLayout
  import I = InputState

  datatype Status = Applied | InvalidArgument | Incompatible | WrongSize | InputFailure

  // ---- What a frame publishes ----

  /** The field as an event of the input state. */
  function FieldEvent(m: Machine, f: Field, payload: seq<Byte>): I.Event {
    var input := DecodeInput(m, f, payload);
    if input.Some? then I.Published(f.fmuIndex, input.value.bits, input.value.valid) else I.Published(f.fmuIndex, 0, false)
  }

  function FrameEvents(m: Machine, fields: seq<Field>, payload: seq<Byte>): (es: seq<I.Event>)
    ensures |es| == |fields| && forall k :: 0 <= k < |es| ==> es[k] == FieldEvent(m, fields[k], payload)
  {
    seq(|fields|, k requires 0 <= k < |fields| => FieldEvent(m, fields[k], payload))
  }

  /** The values of a frame that cannot be used. */
  function Unusable(es: seq<I.Event>): nat {
    if es == [] then 0
    else Unusable(I.Front(es)) + if I.Last(es).Published? && !I.Last(es).transportValid then 1 else 0
  }

  predicate IsMapped(fields: seq<Field>, i: nat) { exists k :: 0 <= k < |fields| && fields[k].fmuIndex == i }

  lemma {:induction false} NoPublication(m: Machine, es: seq<I.Event>, fields: seq<Field>, payload: seq<Byte>, i: nat)
    requires !IsMapped(fields, i)
    ensures I.Publications(es + FrameEvents(m, fields, payload), i) == I.Publications(es, i)
    ensures I.Fresh(es + FrameEvents(m, fields, payload), i) == I.Fresh(es, i)
    decreases |fields|
  {
    if fields != [] {
      var n := |fields| - 1;
      assert fields[n].fmuIndex != i;
      FrameFront(m, es, fields, payload);
      NoPublication(m, es, fields[..n], payload, i);
    } else {
      assert es + FrameEvents(m, fields, payload) == es;
    }
  }

  lemma FrameFront(m: Machine, es: seq<I.Event>, fields: seq<Field>, payload: seq<Byte>)
    requires fields != []
    ensures var n := |fields| - 1; var all := es + FrameEvents(m, fields, payload);
      && all != [] && I.Last(all) == FieldEvent(m, fields[n], payload)
      && I.Front(all) == es + FrameEvents(m, fields[..n], payload)
  {
    hide FieldEvent;
  }

  /** A frame publishes each mapped channel exactly once, and afterwards that value is the fresh one. */
  lemma {:induction false} OnePublication(m: Machine, es: seq<I.Event>, fields: seq<Field>, payload: seq<Byte>, k: nat)
    requires k < |fields| && Unique(fields)
    ensures var i := fields[k].fmuIndex; var after := es + FrameEvents(m, fields, payload);
      && I.Publications(after, i) == I.Publications(es, i) + 1
      && I.Fresh(after, i) == Some(FieldEvent(m, fields[k], payload))
    decreases |fields|
  {
    var n := |fields| - 1;
    FrameFront(m, es, fields, payload);
    if k == n {
      NoPublication(m, es, fields[..n], payload, fields[k].fmuIndex);
    } else {
      assert fields[k].fmuIndex != fields[n].fmuIndex;
      OnePublication(m, es, fields[..n], payload, k);
    }
  }

  /** The input state believes exactly the values the frame could use; it never rejects what the schema decoded. */
  lemma BelievedIffUsable(m: Machine, es: seq<I.Event>, fields: seq<Field>, payload: seq<Byte>, k: nat)
    requires Canonical(fields, |payload|) && k < |fields| && IsInput(fields[k].function_)
    ensures DecodeInput(m, fields[k], payload).Some?
    ensures I.FreshValid(es + FrameEvents(m, fields, payload), fields[k].fmuIndex, fields[k].kind) <==>
      DecodeInput(m, fields[k], payload).value.valid
  {
    OnePublication(m, es, fields, payload, k);
    DecodedSuitsType(m, fields[k], payload);
    SoundKind(fields[k]);
    hide LogRecord.Representable, DecodeInput, Canonical, IsSound;
  }

  /** Publications alone change neither what a snapshot shows nor the count; only step boundaries do. */
  lemma {:induction false} FrameWaits(m: Machine, es: seq<I.Event>, fields: seq<Field>, payload: seq<Byte>, i: nat, kind: nat)
    ensures var after := es + FrameEvents(m, fields, payload);
      I.Accepted(after, i, kind) == I.Accepted(es, i, kind) && I.InvalidSteps(after, i, kind) == I.InvalidSteps(es, i, kind)
    decreases |fields|
  {
    if fields == [] {
      assert es + FrameEvents(m, fields, payload) == es;
    } else {
      FrameFront(m, es, fields, payload);
      FrameWaits(m, es, fields[..|fields| - 1], payload, i, kind);
    }
  }

  /** The step after a frame shows the frame's usable values, and counts one more invalid step where there is none. */
  lemma FrameReachesStep(m: Machine, es: seq<I.Event>, fields: seq<Field>, payload: seq<Byte>, k: nat)
    requires Canonical(fields, |payload|) && k < |fields| && IsInput(fields[k].function_)
    ensures DecodeInput(m, fields[k], payload).Some?
    ensures var f := fields[k]; var i := f.fmuIndex; var input := DecodeInput(m, f, payload).value;
      var after := es + FrameEvents(m, fields, payload) + [I.Prepared];
      && I.Accepted(after, i, f.kind) == (if input.valid then Some(input.bits) else I.Accepted(es, i, f.kind))
      && I.InvalidSteps(after, i, f.kind) == (if input.valid then 0 else I.InvalidSteps(es, i, f.kind) + 1)
  {
    BelievedIffUsable(m, es, fields, payload, k);
    OnePublication(m, es, fields, payload, k);
    FrameWaits(m, es, fields, payload, fields[k].fmuIndex, fields[k].kind);
    hide Canonical, DecodeInput, I.FreshValid;
    var published := es + FrameEvents(m, fields, payload);
    assert I.Front(published + [I.Prepared]) == published;
  }

  /** The same from the payload's own bytes: what the next snapshot shows of a digital, an analog and an integer input. */
  lemma PayloadReachesStep(m: Machine, es: seq<I.Event>, fields: seq<Field>, payload: seq<Byte>, k: nat, n: int)
    requires Canonical(fields, |payload|) && k < |fields| && IsInput(fields[k].function_)
    ensures var f := fields[k];
      var before, shown := I.Accepted(es, f.fmuIndex, f.kind), I.Accepted(es + FrameEvents(m, fields, payload) + [I.Prepared], f.fmuIndex, f.kind);
      && f.offset + WireWidth(f.wire) <= |payload| && 0 < WireWidth(f.wire)
      && (f.wire == BOOL ==> shown == if payload[f.offset] == 0 || payload[f.offset] == 1 then Some(payload[f.offset]) else before)
      && (f.wire == FLOAT32 ==>
            var scaled := m.scaledSingle(FieldWord(f, payload), f.scale, f.shift);
            shown == if LogFormat.IsFinite(scaled) then Some(scaled) else before)
      && (f.wire == INT32 && IsSigned(FieldWord(f, payload), n) ==>
            var scaled := m.scaledInteger(n, f.scale, f.shift);
            if exists v: int :: IsInteger(scaled, v) then shown.Some? && IsInteger(scaled, LogRecord.Discrete(shown.value)) else shown == before)
  {
    FrameReachesStep(m, es, fields, payload, k);
    DecodedMeans(m, fields[k], payload, n);
    hide DecodeInput, I.Accepted, FieldWord, IsSigned, IsInteger, FrameEvents, Disjoint, Unique;
  }

  /** A candidate is valid when the transport says so, its type is one of the four, and it is a finite double, zero or one, or a number of 32 signed bits. */
  lemma ValidIsCarried(kind: nat, bits: Word64, transportValid: bool)
    ensures I.IsValueValid(kind, bits, transportValid) <==> transportValid && kind <= 3 && LogLayout.CanCarry(kind, bits)
  {
    if kind <= 3 {
      LogLayout.NormalIsSame(kind, bits, false);
    }
  }

  lemma SoundKind(f: Field)
    requires IsSound(f)
    ensures LogFormat.ValidKind(f.kind)
  {
  }

  lemma FrameNext(m: Machine, fields: seq<Field>, payload: seq<Byte>, n: nat)
    requires n < |fields|
    ensures var es := FrameEvents(m, fields[..n], payload); var e := FieldEvent(m, fields[n], payload);
      && FrameEvents(m, fields[..n + 1], payload) == es + [e]
      && Unusable(es + [e]) == Unusable(es) + if e.Published? && !e.transportValid then 1 else 0
  {
    hide FieldEvent;
    var es := FrameEvents(m, fields[..n], payload);
    var e := FieldEvent(m, fields[n], payload);
    assert I.Front(es + [e]) == es;
  }

  lemma NoEvents(m: Machine, fields: seq<Field>, payload: seq<Byte>)
    ensures fields == [] ==> FrameEvents(m, fields, payload) == [] && Unusable(FrameEvents(m, fields, payload)) == 0
  {
  }

  lemma Decodes(m: Machine, f: Field, payload: seq<Byte>)
    requires IsSound(f) && IsInput(f.function_) && f.offset + f.width <= |payload|
    ensures var input := DecodeInput(m, f, payload);
      input.Some? && FieldEvent(m, f, payload) == I.Published(f.fmuIndex, input.value.bits, input.value.valid)
  {
    DecodedSuitsType(m, f, payload);
    hide DecodeInput, IsSound;
  }

  lemma CountsOnce(m: Machine, es: seq<I.Event>, fields: seq<Field>, payload: seq<Byte>, i: nat)
    requires Unique(fields)
    ensures I.Publications(es + FrameEvents(m, fields, payload), i) == I.Publications(es, i) + if IsMapped(fields, i) then 1 else 0
  {
    if IsMapped(fields, i) {
      var k :| 0 <= k < |fields| && fields[k].fmuIndex == i;
      OnePublication(m, es, fields, payload, k);
    } else {
      NoPublication(m, es, fields, payload, i);
    }
  }

  // ---- The bridge ----

  /** The field is an input, and the input state has a channel of its type at its index. */
  predicate Suits(f: Field, state: I.Inputs)
    reads state, state.channels
  {
    IsInput(f.function_) && f.fmuIndex < state.count && f.fmuIndex < state.channels.Length && state.channels[f.fmuIndex].descriptor.kind == f.kind
  }

  class Acquisition {
    var initialized: bool
    var schema: Schema
    var inputs: I.Inputs
    var acceptedFrames: nat
    var invalidValues: nat

    constructor (state: I.Inputs)
      ensures !initialized && inputs == state
    {
      initialized, schema, inputs, acceptedFrames, invalidValues := false, Schema([], 0), state, 0, 0;
    }

    ghost predicate Valid()
      reads this, inputs, inputs.channels
    {
      && inputs.Valid()
      && (initialized ==>
            && inputs.initialized && Canonical(schema.fields, schema.payloadSize)
            && forall k :: 0 <= k < |schema.fields| ==> Suits(schema.fields[k], inputs))
    }

    /** Any schema whose fields suit the inputs is taken; one that a build has produced makes the bridge valid. */
    method Init(s: Schema, state: I.Inputs) returns (status: Status)
      requires state.Valid()
      modifies this
      ensures status == InvalidArgument <==> !state.initialized
      ensures status == Applied || status == InvalidArgument || status == Incompatible
      ensures status != Applied ==> unchanged(this)
      ensures status == Applied ==>
        && initialized && schema == s && inputs == state && acceptedFrames == 0 && invalidValues == 0
        && (forall k :: 0 <= k < |s.fields| ==> Suits(s.fields[k], state))
        && (Canonical(s.fields, s.payloadSize) ==> Valid())
      ensures status == Incompatible ==> exists k :: 0 <= k < |s.fields| && !Suits(s.fields[k], state)
    {
      if !state.initialized {
        return InvalidArgument;
      }
      hide Canonical;
      for index := 0 to |s.fields|
        invariant unchanged(this)
        invariant forall k :: 0 <= k < index ==> Suits(s.fields[k], state)
      {
        if !Suits(s.fields[index], state) {
          return Incompatible;
        }
      }
      initialized, schema, inputs, acceptedFrames, invalidValues := true, s, state, 0, 0;
      status := Applied;
    }

    method ApplyField(m: Machine, payload: seq<Byte>, index: nat) returns (status: Status)
      requires Valid() && initialized && |payload| == schema.payloadSize && index < |schema.fields|
      modifies this`invalidValues, inputs`events, inputs.channels
      ensures Valid() && status == Applied
      ensures var e := FieldEvent(m, schema.fields[index], payload);
        && inputs.events == old(inputs.events) + [e]
        && invalidValues == old(invalidValues) + if e.Published? && !e.transportValid then 1 else 0
    {
      var f := schema.fields[index];
      Decodes(m, f, payload);
      hide Canonical, DecodeInput, FieldEvent, I.Tracks;
      var input := DecodeInput(m, f, payload);
      status := if input.Some? then Applied else InputFailure;
      if input.Some? {
        status := PublishInput(f, input.value);
      }
    }

    method PublishInput(f: Field, input: Input) returns (status: Status)
      requires Valid() && initialized && Suits(f, inputs)
      modifies this`invalidValues, inputs`events, inputs.channels
      ensures Valid() && status == Applied
      ensures inputs.events == old(inputs.events) + [I.Published(f.fmuIndex, input.bits, input.valid)]
      ensures invalidValues == old(invalidValues) + if input.valid then 0 else 1
    {
      hide Canonical, IsInput, I.Tracks, I.Receive;
      var published := inputs.Publish(f.fmuIndex, input.bits, input.valid);
      status := if published == I.Ok then Applied else InputFailure;
      if !input.valid {
        invalidValues := invalidValues + 1;
      }
    }

    method ApplyFields(m: Machine, payload: seq<Byte>) returns (status: Status)
      requires Valid() && initialized && |payload| == schema.payloadSize
      modifies this`invalidValues, inputs`events, inputs.channels
      ensures Valid() && status == Applied
      ensures inputs.events == old(inputs.events) + FrameEvents(m, schema.fields, payload)
      ensures invalidValues == old(invalidValues) + Unusable(FrameEvents(m, schema.fields, payload))
    {
      hide Suits, Canonical, I.Tracks, FieldEvent, Unusable;
      status := Applied;
      NoEvents(m, schema.fields[..0], payload);
      for index := 0 to |schema.fields|
        invariant Valid() && status == Applied
        invariant inputs.events == old(inputs.events) + FrameEvents(m, schema.fields[..index], payload)
        invariant invalidValues == old(invalidValues) + Unusable(FrameEvents(m, schema.fields[..index], payload))
      {
        status := ApplyField(m, payload, index);
        if status != Applied {
          return;
        }
        FrameNext(m, schema.fields, payload, index);
      }
      assert schema.fields[..|schema.fields|] == schema.fields;
    }

    /** Every frame of the right size is taken; publishing it cannot fail. */
    method Apply(m: Machine, payload: seq<Byte>) returns (status: Status)
      requires Valid()
      modifies this, inputs, inputs.channels
      ensures Valid() && inputs == old(inputs) && schema == old(schema)
      ensures status == (if !initialized then InvalidArgument else if |payload| != schema.payloadSize then WrongSize else Applied)
      ensures status != Applied ==> unchanged(this) && unchanged(inputs) && unchanged(inputs.channels)
      ensures status == Applied ==>
        && inputs.events == old(inputs.events) + FrameEvents(m, schema.fields, payload)
        && acceptedFrames == old(acceptedFrames) + 1
        && invalidValues == old(invalidValues) + Unusable(FrameEvents(m, schema.fields, payload))
      ensures status == Applied ==> forall i :: 0 <= i < inputs.count ==>
        inputs.channels[i].generation == old(inputs.channels[i].generation) + if IsMapped(schema.fields, i) then 1 else 0
    {
      assert initialized ==> Unique(schema.fields);
      hide Canonical, Suits, Unusable, FrameEvents, IsMapped, Unique, I.Publications, I.Tracks;
      if !initialized {
        return InvalidArgument;
      }
      if |payload| != schema.payloadSize {
        return WrongSize;
      }
      forall i | 0 <= i < inputs.count
        ensures I.Publications(inputs.events + FrameEvents(m, schema.fields, payload), i) ==
          inputs.channels[i].generation + if IsMapped(schema.fields, i) then 1 else 0
      {
        I.TracksGeneration(inputs.channels[i], inputs.events, i);
        CountsOnce(m, inputs.events, schema.fields, payload, i);
      }
      status := ApplyFields(m, payload);
      forall i | 0 <= i < inputs.count
        ensures inputs.channels[i].generation == I.Publications(inputs.events, i)
      {
        I.TracksGeneration(inputs.channels[i], inputs.events, i);
      }
      if status == Applied {
        acceptedFrames := acceptedFrames + 1;
      }
    }
  }
}
