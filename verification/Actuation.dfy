/** From FMU outputs to the actuation payload: a value that cannot be sent leaves its field at the last one that could. */
module Actuation {
  import opened Bytes
  import opened Numbers
  import opened DaqSchema
  import LogFormat
  import LogRecord

  datatype Output = Output(fmuIndex: Word16, valueReference: Word32, kind: nat)

  /** The outputs of one step, with their values as patterns. */
  datatype Round = Round(outputs: seq<Output>, values: seq<Word64>)

  datatype Status = Accepted | InvalidArgument | Incompatible | OutputInvalid | OutputRange

  // ---- One field ----

  predicate IsActuation(function_: nat) { function_ == AO || function_ == DO || function_ == PWM }

  predicate IsPhysicalRangeValid(function_: nat, raw: real) {
    (function_ == AO ==> 0.0 <= raw <= AO_MAX_VOLTS) && (function_ == PWM ==> 0.0 <= raw <= PWM_MAX_DUTY)
  }

  datatype Encoding = Encoded(bytes: seq<Byte>) | Refused(status: Status)

  predicate IsSendable(f: Field, raw: Number) {
    raw.Finite? && -SingleMax() <= raw.value <= SingleMax() && IsPhysicalRangeValid(f.function_, raw.value)
  }

  function EncodeField(m: Machine, f: Field, v: Word64): (e: Encoding)
    ensures WireWidth(f.wire) == f.width && e.Encoded? ==> |e.bytes| == f.width
    ensures e.Refused? ==> e.status == OutputInvalid || e.status == OutputRange
  {
    if f.wire == BOOL then
      if LogRecord.Boolean(v) > 1 then Refused(OutputInvalid) else Encoded([LogRecord.Boolean(v)])
    else if f.wire != FLOAT32 || !LogFormat.IsFinite(v) then Refused(OutputInvalid)
    else
      var raw := m.quotient(v, f.shift, f.scale);
      if IsSendable(f, raw) then Encoded(ToLe(m.single(raw.value), 4)) else Refused(OutputRange)
  }

  /** A quotient the field can carry: within single precision, and within 0 to 3.3 V or 0 to 1 of duty where that applies. */
  predicate IsCarried(f: Field, q: Number) {
    match q
    case Finite(x) =>
      && -SingleMax() <= x <= SingleMax()
      && (f.function_ == AO ==> 0.0 <= x && x <= 3.3)
      && (f.function_ == PWM ==> 0.0 <= x && x <= 1.0)
    case _ => false
  }

  /** The output values a field can send. */
  predicate CanSend(m: Machine, f: Field, v: Word64) {
    if f.wire == BOOL then v % 0x100 == 0 || v % 0x100 == 1
    else f.wire == FLOAT32 && LogFormat.IsFinite(v) && IsCarried(f, m.quotient(v, f.shift, f.scale))
  }

  /** The bytes carry the value: its low byte, or the single its quotient becomes. */
  predicate Carries(m: Machine, f: Field, v: Word64, bytes: seq<Byte>) {
    if f.wire == BOOL then bytes == [v % 0x100]
    else
      var q := m.quotient(v, f.shift, f.scale);
      |bytes| == 4 && q.Finite? && LittleEndian(bytes[0], bytes[1], bytes[2], bytes[3]) == m.single(q.value)
  }

  /** What a field's encoding means: it exists exactly for the values the field can send, and carries the value. */
  lemma EncodedMeans(m: Machine, f: Field, v: Word64)
    requires IsSound(f)
    ensures var e := EncodeField(m, f, v);
      && (e.Encoded? <==> CanSend(m, f, v))
      && (e.Encoded? ==> Carries(m, f, v, e.bytes))
      && (e.Refused? ==> e.status == if f.wire == FLOAT32 && LogFormat.IsFinite(v) then OutputRange else OutputInvalid)
  {
    hide SingleMax;
    var e := EncodeField(m, f, v);
    if f.wire == FLOAT32 && e.Encoded? {
      var word := m.single(m.quotient(v, f.shift, f.scale).value);
      Pow256Values();
      DecodeEncodeLe(word, 4);
      FourBytes(e.bytes);
    }
  }

  predicate Feeds(f: Field, o: Output) {
    o.fmuIndex == f.fmuIndex && o.valueReference == f.valueReference && o.kind == f.kind
  }

  /** The first output that feeds the field. */
  function Find(f: Field, outputs: seq<Output>): (i: nat)
    ensures i <= |outputs| && (i < |outputs| ==> Feeds(f, outputs[i]))
    ensures forall j :: 0 <= j < i ==> !Feeds(f, outputs[j])
  {
    if outputs == [] then 0 else if Feeds(f, outputs[0]) then 0 else 1 + Find(f, outputs[1..])
  }

  method FindOutputValue(f: Field, r: Round) returns (i: nat)
    ensures i == Find(f, r.outputs)
  {
    i := 0;
    while i < |r.outputs| && !Feeds(f, r.outputs[i])
      invariant 0 <= i <= |r.outputs|
      invariant Find(f, r.outputs) == i + Find(f, r.outputs[i..])
    {
      assert r.outputs[i..][1..] == r.outputs[i + 1..];
      i := i + 1;
    }
  }

  // ---- Rounds ----

  /** What each field holds: the bytes of a value, or nothing yet. */
  type Held = seq<Option<seq<Byte>>>

  predicate IsRound(r: Round) { |r.outputs| == |r.values| }

  /** What round `r` offers field `f`. */
  function Offer(m: Machine, f: Field, r: Round): Encoding
    requires IsRound(r)
  {
    var i := Find(f, r.outputs);
    if i == |r.outputs| then Refused(InvalidArgument) else EncodeField(m, f, r.values[i])
  }

  /** A field stops a round when it has no output, or has nothing to send and nothing held. */
  predicate Stops(m: Machine, f: Field, held: Option<seq<Byte>>, r: Round)
    requires IsRound(r)
  {
    var e := Offer(m, f, r);
    e.Refused? && (e.status == InvalidArgument || held == None)
  }

  function Keep(m: Machine, f: Field, held: Option<seq<Byte>>, r: Round): Option<seq<Byte>>
    requires IsRound(r)
  {
    var e := Offer(m, f, r);
    if e.Encoded? then Some(e.bytes) else held
  }

  /** The first field that stops the round. */
  function FirstStop(m: Machine, fields: seq<Field>, held: Held, r: Round): (i: nat)
    requires IsRound(r) && |held| == |fields|
    ensures i <= |fields| && (i < |fields| ==> Stops(m, fields[i], held[i], r))
    ensures forall j :: 0 <= j < i ==> !Stops(m, fields[j], held[j], r)
    decreases |fields|
  {
    if fields == [] then 0
    else if Stops(m, fields[0], held[0], r) then 0
    else 1 + FirstStop(m, fields[1..], held[1..], r)
  }

  function StatusOf(m: Machine, fields: seq<Field>, held: Held, r: Round): Status
    requires IsRound(r) && |held| == |fields|
  {
    var i := FirstStop(m, fields, held, r);
    if i == |fields| then Accepted else Offer(m, fields[i], r).status
  }

  function After(m: Machine, fields: seq<Field>, held: Held, r: Round): (next: Held)
    requires IsRound(r) && |held| == |fields|
    ensures |next| == |fields|
  {
    if StatusOf(m, fields, held, r) != Accepted then held
    else seq(|fields|, i requires 0 <= i < |fields| => Keep(m, fields[i], held[i], r))
  }

  function Nothing(n: nat): (held: Held)
    ensures |held| == n && forall i :: 0 <= i < n ==> held[i] == None
  {
    seq(n, i => None)
  }

  // ---- Runs ----

  predicate AreRounds(rs: seq<Round>) { forall i :: 0 <= i < |rs| ==> IsRound(rs[i]) }

  function Run(m: Machine, fields: seq<Field>, rs: seq<Round>): (held: Held)
    requires AreRounds(rs)
    ensures |held| == |fields|
  {
    if rs == [] then Nothing(|fields|)
    else After(m, fields, Run(m, fields, rs[..|rs| - 1]), rs[|rs| - 1])
  }

  /** Round `j` of the run is accepted. */
  predicate AcceptedAt(m: Machine, fields: seq<Field>, rs: seq<Round>, j: nat)
    requires AreRounds(rs) && j < |rs|
  {
    StatusOf(m, fields, Run(m, fields, rs[..j]), rs[j]) == Accepted
  }

  lemma AcceptedBefore(m: Machine, fields: seq<Field>, rs: seq<Round>, j: nat)
    requires AreRounds(rs) && j < |rs| - 1
    ensures AcceptedAt(m, fields, rs[..|rs| - 1], j) <==> AcceptedAt(m, fields, rs, j)
  {
    hide StatusOf, Run;
    assert rs[..|rs| - 1][..j] == rs[..j];
  }

  lemma RoundFills(m: Machine, fields: seq<Field>, held: Held, r: Round, i: nat)
    requires IsRound(r) && |held| == |fields| && i < |fields|
    ensures After(m, fields, held, r)[i].Some? <==> held[i].Some? || StatusOf(m, fields, held, r) == Accepted
  {
    hide Offer;
    if StatusOf(m, fields, held, r) == Accepted {
      NoStop(m, fields, held, r, i);
    }
  }

  lemma NoStop(m: Machine, fields: seq<Field>, held: Held, r: Round, i: nat)
    requires IsRound(r) && |held| == |fields| && i < |fields| && StatusOf(m, fields, held, r) == Accepted
    ensures !Stops(m, fields[i], held[i], r)
  {
  }

  /** Nothing is held until a round is accepted; from then on every field holds something. */
  lemma {:induction false} AllOrNothing(m: Machine, fields: seq<Field>, rs: seq<Round>, i: nat)
    requires AreRounds(rs) && i < |fields|
    ensures Run(m, fields, rs)[i].Some? <==> exists j :: 0 <= j < |rs| && AcceptedAt(m, fields, rs, j)
  {
    hide StatusOf, After;
    if rs != [] {
      var n := |rs| - 1;
      var front := rs[..n];
      AllOrNothing(m, fields, front, i);
      RoundFills(m, fields, Run(m, fields, front), rs[n], i);
      assert AcceptedAt(m, fields, rs, n) <==> StatusOf(m, fields, Run(m, fields, front), rs[n]) == Accepted;
      hide Run, AcceptedAt;
      forall j | 0 <= j < n
        ensures AcceptedAt(m, fields, rs, j) <==> AcceptedAt(m, fields, front, j)
      {
        AcceptedBefore(m, fields, rs, j);
      }
    }
  }

  /** Once a round has been accepted, a later one is accepted exactly when every field has an output; no value can stop it. */
  lemma NoValueStopsLater(m: Machine, fields: seq<Field>, rs: seq<Round>, r: Round, j: nat)
    requires AreRounds(rs) && IsRound(r) && j < |rs| && AcceptedAt(m, fields, rs, j)
    ensures var status := StatusOf(m, fields, Run(m, fields, rs), r);
      && (status == Accepted || status == InvalidArgument)
      && (status == Accepted <==> forall i :: 0 <= i < |fields| ==> Find(fields[i], r.outputs) < |r.outputs|)
  {
    hide Run, AcceptedAt, EncodeField, Find;
    var held := Run(m, fields, rs);
    forall i | 0 <= i < |fields|
      ensures held[i].Some?
    {
      AllOrNothing(m, fields, rs, i);
    }
    forall i | 0 <= i < |fields|
      ensures Stops(m, fields[i], held[i], r) <==> Find(fields[i], r.outputs) == |r.outputs|
    {
      StopsOnlyWithoutOutput(m, fields[i], held[i], r);
    }
    hide Stops, Offer;
    var stop := FirstStop(m, fields, held, r);
    if stop < |fields| {
      StopsOnlyWithoutOutput(m, fields[stop], held[stop], r);
    }
  }

  lemma StopsOnlyWithoutOutput(m: Machine, f: Field, held: Option<seq<Byte>>, r: Round)
    requires IsRound(r) && held.Some?
    ensures Stops(m, f, held, r) <==> Find(f, r.outputs) == |r.outputs|
    ensures Find(f, r.outputs) == |r.outputs| ==> Offer(m, f, r) == Refused(InvalidArgument)
  {
  }

  /** Round `j` is the last accepted one to offer field `i` a value that could be sent. */
  ghost predicate LastOffer(m: Machine, fields: seq<Field>, rs: seq<Round>, i: nat, j: nat)
    requires AreRounds(rs) && i < |fields|
  {
    && j < |rs| && AcceptedAt(m, fields, rs, j) && Offer(m, fields[i], rs[j]).Encoded?
    && forall k :: j < k < |rs| && AcceptedAt(m, fields, rs, k) ==> Offer(m, fields[i], rs[k]).Refused?
  }

  lemma HeldNext(m: Machine, fields: seq<Field>, rs: seq<Round>, i: nat)
    requires AreRounds(rs) && rs != [] && i < |fields|
    ensures var n := |rs| - 1;
      Run(m, fields, rs)[i] == if AcceptedAt(m, fields, rs, n) && Offer(m, fields[i], rs[n]).Encoded?
        then Some(Offer(m, fields[i], rs[n]).bytes) else Run(m, fields, rs[..n])[i]
  {
    hide StatusOf, Offer;
  }

  lemma LastOfferStays(m: Machine, fields: seq<Field>, rs: seq<Round>, i: nat, j: nat)
    requires AreRounds(rs) && rs != [] && i < |fields| && LastOffer(m, fields, rs[..|rs| - 1], i, j)
    requires AcceptedAt(m, fields, rs, |rs| - 1) ==> Offer(m, fields[i], rs[|rs| - 1]).Refused?
    ensures LastOffer(m, fields, rs, i, j)
  {
    hide AcceptedAt, Offer, Run;
    AcceptedBefore(m, fields, rs, j);
    forall k | j < k < |rs| && AcceptedAt(m, fields, rs, k)
      ensures Offer(m, fields[i], rs[k]).Refused?
    {
      if k < |rs| - 1 {
        AcceptedBefore(m, fields, rs, k);
        assert rs[..|rs| - 1][k] == rs[k];
      }
    }
  }

  /** Each field holds the encoding of its most recent accepted value. */
  lemma {:induction false} HoldsMostRecent(m: Machine, fields: seq<Field>, rs: seq<Round>, i: nat) returns (j: nat)
    requires AreRounds(rs) && i < |fields| && Run(m, fields, rs)[i].Some?
    ensures LastOffer(m, fields, rs, i, j)
    ensures Run(m, fields, rs)[i] == Some(Offer(m, fields[i], rs[j]).bytes)
  {
    hide AcceptedAt, Offer, StatusOf, After;
    var n := |rs| - 1;
    HeldNext(m, fields, rs, i);
    if AcceptedAt(m, fields, rs, n) && Offer(m, fields[i], rs[n]).Encoded? {
      j := n;
    } else {
      hide LastOffer;
      j := HoldsMostRecent(m, fields, rs[..n], i);
      LastOfferStays(m, fields, rs, i, j);
      LastOfferIndex(m, fields, rs[..n], i, j);
    }
  }

  lemma LastOfferIndex(m: Machine, fields: seq<Field>, rs: seq<Round>, i: nat, j: nat)
    requires AreRounds(rs) && i < |fields| && LastOffer(m, fields, rs, i, j)
    ensures j < |rs| && Offer(m, fields[i], rs[j]).Encoded?
  {
  }

  /** The first round is accepted exactly when every field has an output, with a value the field can send. */
  lemma FirstRoundNeedsAll(m: Machine, fields: seq<Field>, r: Round)
    requires IsRound(r) && forall i :: 0 <= i < |fields| ==> IsSound(fields[i])
    ensures StatusOf(m, fields, Nothing(|fields|), r) == Accepted <==>
      forall i :: 0 <= i < |fields| ==> var k := Find(fields[i], r.outputs); k < |r.outputs| && CanSend(m, fields[i], r.values[k])
  {
    hide Find, EncodeField, CanSend, IsSound;
    var held := Nothing(|fields|);
    forall i | 0 <= i < |fields|
      ensures var k := Find(fields[i], r.outputs);
        Stops(m, fields[i], held[i], r) <==> !(k < |r.outputs| && CanSend(m, fields[i], r.values[k]))
    {
      var k := Find(fields[i], r.outputs);
      if k < |r.outputs| {
        EncodedMeans(m, fields[i], r.values[k]);
      }
    }
    StopIsFirst(m, fields, held, r);
  }

  lemma StopIsFirst(m: Machine, fields: seq<Field>, held: Held, r: Round)
    requires IsRound(r) && |held| == |fields|
    ensures StatusOf(m, fields, held, r) == Accepted <==> forall i :: 0 <= i < |fields| ==> !Stops(m, fields[i], held[i], r)
  {
    hide Stops;
    var first := FirstStop(m, fields, held, r);
    if first < |fields| {
      RefusalStops(m, fields[first], held[first], r);
    }
  }

  lemma RefusalStops(m: Machine, f: Field, held: Option<seq<Byte>>, r: Round)
    requires IsRound(r) && Stops(m, f, held, r)
    ensures Offer(m, f, r).Refused? && Offer(m, f, r).status != Accepted
  {
  }

  // ---- Payloads ----

  predicate Covers(f: Field, k: nat) { f.offset <= k < f.offset + f.width }

  function Slice(payload: seq<Byte>, f: Field): seq<Byte>
    requires f.offset + f.width <= |payload|
  {
    payload[f.offset..f.offset + f.width]
  }

  /** The payload shows what is held, in each field's place, and zeros everywhere else. */
  ghost predicate Shows(schema: Schema, held: Held, payload: seq<Byte>) {
    && |held| == |schema.fields| && |payload| == schema.payloadSize
    && (forall i :: 0 <= i < |held| ==> schema.fields[i].offset + schema.fields[i].width <= |payload|)
    && (forall i :: 0 <= i < |held| && held[i].Some? ==> Slice(payload, schema.fields[i]) == held[i].value)
    && (forall k :: 0 <= k < |payload| && payload[k] != 0 ==> exists i :: 0 <= i < |held| && held[i].Some? && Covers(schema.fields[i], k))
  }

  /** There is one payload that shows what is held. */
  lemma ShownIsUnique(schema: Schema, held: Held, p: seq<Byte>, q: seq<Byte>)
    requires Shows(schema, held, p) && Shows(schema, held, q)
    ensures p == q
  {
    forall k | 0 <= k < |p|
      ensures p[k] == q[k]
    {
      if p[k] != 0 || q[k] != 0 {
        var i :| 0 <= i < |held| && held[i].Some? && Covers(schema.fields[i], k);
        var f := schema.fields[i];
        assert Slice(p, f)[k - f.offset] == Slice(q, f)[k - f.offset];
      }
    }
  }

  /**
   * Each field of a payload packed from a run of rounds carries the value that the last accepted round to offer it a value it
   * can send had for it.
   */
  lemma PayloadCarries(m: Machine, schema: Schema, rs: seq<Round>, payload: seq<Byte>, i: nat) returns (j: nat, k: nat)
    requires Canonical(schema.fields, schema.payloadSize) && AreRounds(rs) && i < |schema.fields|
    requires Shows(schema, Run(m, schema.fields, rs), payload) && exists j :: 0 <= j < |rs| && AcceptedAt(m, schema.fields, rs, j)
    ensures var f := schema.fields[i];
      && j < |rs| && AcceptedAt(m, schema.fields, rs, j)
      && k == Find(f, rs[j].outputs) < |rs[j].outputs| && k < |rs[j].values| && CanSend(m, f, rs[j].values[k])
      && f.offset + f.width <= |payload| && Carries(m, f, rs[j].values[k], Slice(payload, f))
      && forall l :: j < l < |rs| && AcceptedAt(m, schema.fields, rs, l) ==>
           var n := Find(f, rs[l].outputs); n < |rs[l].outputs| && n < |rs[l].values| && !CanSend(m, f, rs[l].values[n])
  {
    hide Canonical, Carries, CanSend, AcceptedAt, Run, EncodeField, Find;
    var fields, f := schema.fields, schema.fields[i];
    AllOrNothing(m, fields, rs, i);
    j := HoldsMostRecent(m, fields, rs, i);
    k := Find(f, rs[j].outputs);
    FieldIsSound(schema, i);
    EncodedMeans(m, f, rs[j].values[k]);
    forall l | j < l < |rs| && AcceptedAt(m, fields, rs, l)
      ensures var n := Find(f, rs[l].outputs); n < |rs[l].outputs| && n < |rs[l].values| && !CanSend(m, f, rs[l].values[n])
    {
      AcceptedHasOutput(m, fields, rs, l, i);
      EncodedMeans(m, f, rs[l].values[Find(f, rs[l].outputs)]);
    }
  }

  lemma AcceptedHasOutput(m: Machine, fields: seq<Field>, rs: seq<Round>, l: nat, i: nat)
    requires AreRounds(rs) && l < |rs| && i < |fields| && AcceptedAt(m, fields, rs, l)
    ensures Find(fields[i], rs[l].outputs) < |rs[l].outputs|
  {
    hide EncodeField, Find, Run;
    NoStop(m, fields, Run(m, fields, rs[..l]), rs[l], i);
  }

  function Patched(payload: seq<Byte>, offset: nat, bytes: seq<Byte>): (r: seq<Byte>)
    requires offset + |bytes| <= |payload|
    ensures |r| == |payload|
  {
    payload[..offset] + bytes + payload[offset + |bytes|..]
  }

  /** Writing one field's bytes changes what that field shows and nothing else. */
  lemma WriteField(schema: Schema, held: Held, payload: seq<Byte>, i: nat, bytes: seq<Byte>)
    requires Shows(schema, held, payload) && Canonical(schema.fields, schema.payloadSize)
    requires i < |held| && |bytes| == schema.fields[i].width
    ensures Shows(schema, held[i := Some(bytes)], Patched(payload, schema.fields[i].offset, bytes))
  {
    var f := schema.fields[i];
    var next, after := held[i := Some(bytes)], Patched(payload, f.offset, bytes);
    assert forall k :: 0 <= k < |payload| && !Covers(f, k) ==> after[k] == payload[k];
    assert Disjoint(schema.fields);
    hide Canonical;
    forall j | 0 <= j < |next| && next[j].Some?
      ensures Slice(after, schema.fields[j]) == next[j].value
    {
      if j != i {
        var g := schema.fields[j];
        assert forall k :: g.offset <= k < g.offset + g.width ==> !Covers(f, k);
        assert Slice(after, g) == Slice(payload, g);
      }
    }
    forall k | 0 <= k < |after| && after[k] != 0
      ensures exists j :: 0 <= j < |next| && next[j].Some? && Covers(schema.fields[j], k)
    {
      if Covers(f, k) {
        assert next[i].Some?;
      } else {
        var j :| 0 <= j < |held| && held[j].Some? && Covers(schema.fields[j], k);
        assert next[j].Some?;
      }
    }
  }

  lemma NothingShowsZeros(schema: Schema, payload: seq<Byte>)
    requires Canonical(schema.fields, schema.payloadSize) && |payload| == schema.payloadSize
    requires forall k :: 0 <= k < |payload| ==> payload[k] == 0
    ensures Shows(schema, Nothing(|schema.fields|), payload)
  {
    hide IsSound;
  }

  lemma StatusByStop(m: Machine, fields: seq<Field>, held: Held, r: Round, i: nat)
    requires IsRound(r) && |held| == |fields| && i <= |fields|
    requires forall j :: 0 <= j < i ==> !Stops(m, fields[j], held[j], r)
    requires i < |fields| ==> Stops(m, fields[i], held[i], r)
    ensures StatusOf(m, fields, held, r) == if i == |fields| then Accepted else Offer(m, fields[i], r).status
  {
    var first := FirstStop(m, fields, held, r);
    assert first == i;
  }

  lemma RefusalIsNotAcceptance(m: Machine, f: Field, r: Round)
    requires IsRound(r)
    ensures Offer(m, f, r).Refused? ==> Offer(m, f, r).status != Accepted
  {
  }

  // ---- The packer ----

  /** `mid` is what is held while a round is under way: the first `n` fields have had their offers, the rest not yet. */
  ghost predicate Midway(m: Machine, fields: seq<Field>, held: Held, r: Round, n: nat, mid: Held)
    requires IsRound(r)
  {
    && |mid| == |held| == |fields| && n <= |fields|
    && (forall j :: 0 <= j < n ==> !Stops(m, fields[j], held[j], r) && mid[j] == Keep(m, fields[j], held[j], r))
    && (forall j :: n <= j < |fields| ==> mid[j] == held[j])
  }

  lemma MidwayNext(m: Machine, fields: seq<Field>, held: Held, r: Round, n: nat, mid: Held)
    requires IsRound(r) && Midway(m, fields, held, r, n, mid) && n < |fields| && !Stops(m, fields[n], held[n], r)
    ensures Midway(m, fields, held, r, n + 1, mid[n := Keep(m, fields[n], held[n], r)])
  {
    hide Stops, Keep;
  }

  lemma MidwayStops(m: Machine, fields: seq<Field>, held: Held, r: Round, n: nat, mid: Held)
    requires IsRound(r) && Midway(m, fields, held, r, n, mid) && n < |fields| && Stops(m, fields[n], held[n], r)
    ensures StatusOf(m, fields, held, r) == Offer(m, fields[n], r).status != Accepted
  {
    RefusalIsNotAcceptance(m, fields[n], r);
    hide Stops, Keep, StatusOf;
    StatusByStop(m, fields, held, r, n);
  }

  lemma MidwayEnds(m: Machine, fields: seq<Field>, held: Held, r: Round, mid: Held)
    requires IsRound(r) && Midway(m, fields, held, r, |fields|, mid)
    ensures StatusOf(m, fields, held, r) == Accepted && After(m, fields, held, r) == mid
  {
    hide Stops, Keep, StatusOf;
    StatusByStop(m, fields, held, r, |fields|);
  }

  class Actuation {
    var machine: Machine
    var initialized: bool
    var schema: Schema
    var lastPayload: array<Byte>
    var hasLast: seq<bool>
    /** Every round since initialization, and what each field holds after them. */
    ghost var rounds: seq<Round>
    ghost var held: Held

    constructor (m: Machine)
      ensures Valid() && !initialized && machine == m && fresh(lastPayload)
    {
      machine, initialized, schema, rounds, held := m, false, Schema([], 0), [], [];
      lastPayload := new Byte[MAX_PAYLOAD](_ => 0);
      hasLast := seq(MAX_FIELDS, _ => false);
    }

    ghost predicate Valid()
      reads this, lastPayload
    {
      && schema.payloadSize <= MAX_PAYLOAD == lastPayload.Length && |hasLast| == MAX_FIELDS
      && Canonical(schema.fields, schema.payloadSize)
      && AreRounds(rounds) && held == Run(machine, schema.fields, rounds)
      && Shows(schema, held, lastPayload[..schema.payloadSize])
      && (forall i :: 0 <= i < |held| && i < MAX_FIELDS ==> (hasLast[i] <==> held[i].Some?))
    }

    /** Any schema of actuation channels is taken; one that a build has produced makes the memory valid. */
    method Init(s: Schema) returns (status: Status)
      modifies this
      ensures status == InvalidArgument <==> s.payloadSize > MAX_PAYLOAD
      ensures status == Incompatible <==>
        s.payloadSize <= MAX_PAYLOAD && exists i :: 0 <= i < |s.fields| && !IsActuation(s.fields[i].function_)
      ensures status != Accepted ==> unchanged(this)
      ensures status == Accepted ==>
        && initialized && schema == s && machine == old(machine) && rounds == [] && held == Nothing(|s.fields|) && fresh(lastPayload)
        && (Canonical(s.fields, s.payloadSize) ==> Valid())
      ensures status == Accepted || status == InvalidArgument || status == Incompatible
    {
      if s.payloadSize > MAX_PAYLOAD {
        return InvalidArgument;
      }
      for index := 0 to |s.fields|
        invariant forall i :: 0 <= i < index ==> IsActuation(s.fields[i].function_)
      {
        if !IsActuation(s.fields[index].function_) {
          return Incompatible;
        }
      }
      hide Canonical, Shows;
      initialized, schema, rounds, held := true, s, [], Nothing(|s.fields|);
      lastPayload := new Byte[MAX_PAYLOAD](_ => 0);
      hasLast := seq(MAX_FIELDS, _ => false);
      if Canonical(s.fields, s.payloadSize) {
        NothingShowsZeros(s, lastPayload[..s.payloadSize]);
      }
      status := Accepted;
    }

    /** A round goes out whole or not at all; `payload` and the memory then show what is held. */
    method Pack(r: Round, payload: array<Byte>) returns (status: Status)
      requires Valid() && IsRound(r) && payload != lastPayload
      modifies this`rounds, this`held, this`hasLast, lastPayload, payload
      ensures Valid()
      ensures !initialized || payload.Length < schema.payloadSize ==> status == InvalidArgument && rounds == old(rounds)
      ensures initialized && payload.Length >= schema.payloadSize ==>
        status == StatusOf(machine, schema.fields, old(held), r) && rounds == old(rounds) + [r]
      ensures status != Accepted ==> held == old(held) && hasLast == old(hasLast) && unchanged(lastPayload) && unchanged(payload)
      ensures status == Accepted ==>
        && held == After(machine, schema.fields, old(held), r)
        && Shows(schema, held, payload[..schema.payloadSize])
        && payload[..] == lastPayload[..schema.payloadSize] + old(payload[schema.payloadSize..])
    {
      hide Canonical, Shows, StatusOf, IsRound, Run, AreRounds, After;
      if !initialized || payload.Length < schema.payloadSize {
        return InvalidArgument;
      }
      status := TakeRound(r);
      if status == Accepted {
        StoreAtStart(payload, lastPayload[..schema.payloadSize]);
        assert payload[..schema.payloadSize] == lastPayload[..schema.payloadSize];
      }
    }

    /** The memory's part of a round. */
    method TakeRound(r: Round) returns (status: Status)
      requires Valid() && IsRound(r)
      modifies this`rounds, this`held, this`hasLast, lastPayload
      ensures Valid() && rounds == old(rounds) + [r]
      ensures |old(held)| == |schema.fields| && status == StatusOf(machine, schema.fields, old(held), r)
      ensures held == After(machine, schema.fields, old(held), r)
      ensures status != Accepted ==> held == old(held) && hasLast == old(hasLast) && unchanged(lastPayload)
    {
      CanonicalCount(schema);
      ShownLength(schema, held, lastPayload[..schema.payloadSize]);
      hide Canonical, Shows, StatusOf, IsRound, Run, AreRounds, After;
      OneMoreRound(machine, schema.fields, rounds, r);
      ghost var after;
      var next, nextHas;
      status, next, nextHas, after := PackFields(machine, schema, r, lastPayload, hasLast, held);
      if status == Accepted {
        Commit(r, next[..schema.payloadSize], nextHas, after);
      } else {
        rounds := rounds + [r];
      }
    }

    method Commit(r: Round, bytes: seq<Byte>, nextHas: seq<bool>, ghost after: Held)
      requires Valid() && |bytes| == schema.payloadSize && |nextHas| == MAX_FIELDS
      requires AreRounds(rounds + [r]) && after == Run(machine, schema.fields, rounds + [r])
      requires Shows(schema, after, bytes)
      requires forall i :: 0 <= i < |after| && i < MAX_FIELDS ==> (nextHas[i] <==> after[i].Some?)
      modifies this`rounds, this`held, this`hasLast, lastPayload
      ensures Valid() && held == after && rounds == old(rounds) + [r]
    {
      hide Canonical, Shows, Run, AreRounds;
      StoreAtStart(lastPayload, bytes);
      assert lastPayload[..schema.payloadSize] == bytes;
      rounds, hasLast, held := rounds + [r], nextHas, after;
    }

    /** The payload of a stop: all zeros, and nothing remembered. */
    method Zero(payload: array<Byte>)
      requires Valid()
      modifies payload
      ensures payload[..] ==
        if !initialized || payload.Length < schema.payloadSize then old(payload[..])
        else Zeros(schema.payloadSize) + old(payload[schema.payloadSize..])
    {
      if initialized && payload.Length >= schema.payloadSize {
        StoreAtStart(payload, Zeros(schema.payloadSize));
      }
    }
  }

  method StoreAtStart(payload: array<Byte>, bytes: seq<Byte>)
    requires |bytes| <= payload.Length
    modifies payload
    ensures payload[..] == bytes + old(payload[|bytes|..])
  {
    Store(payload, 0, bytes);
    assert old(payload[..0]) + bytes == bytes;
  }

  function Zeros(n: nat): (s: seq<Byte>)
    ensures |s| == n && forall i :: 0 <= i < n ==> s[i] == 0
  {
    seq(n, i => 0)
  }

  lemma OneMoreRound(m: Machine, fields: seq<Field>, rs: seq<Round>, r: Round)
    requires AreRounds(rs) && IsRound(r)
    ensures AreRounds(rs + [r]) && Run(m, fields, rs + [r]) == After(m, fields, Run(m, fields, rs), r)
    ensures StatusOf(m, fields, Run(m, fields, rs), r) != Accepted ==> Run(m, fields, rs + [r]) == Run(m, fields, rs)
  {
    assert (rs + [r])[..|rs|] == rs;
  }

  lemma CanonicalCount(schema: Schema)
    requires Canonical(schema.fields, schema.payloadSize)
    ensures |schema.fields| <= MAX_FIELDS
  {
  }

  lemma ShownLength(schema: Schema, held: Held, payload: seq<Byte>)
    requires Shows(schema, held, payload)
    ensures |held| == |schema.fields| && |payload| == schema.payloadSize
  {
  }

  lemma MidwayStart(m: Machine, fields: seq<Field>, held: Held, r: Round)
    requires IsRound(r) && |held| == |fields|
    ensures Midway(m, fields, held, r, 0, held)
  {
  }

  /** Puts a field's bytes in their place. */
  method PutField(schema: Schema, index: nat, bytes: seq<Byte>, next: array<Byte>, ghost mid: Held)
    requires Canonical(schema.fields, schema.payloadSize) && schema.payloadSize <= next.Length
    requires Shows(schema, mid, next[..schema.payloadSize]) && index < |mid| == |schema.fields| && |bytes| == schema.fields[index].width
    modifies next
    ensures Shows(schema, mid[index := Some(bytes)], next[..schema.payloadSize])
  {
    var f := schema.fields[index];
    assert f.offset + f.width <= schema.payloadSize;
    hide Canonical, Shows;
    WriteField(schema, mid, next[..schema.payloadSize], index, bytes);
    StoreWithin(next, schema.payloadSize, f.offset, bytes);
  }

  method StoreWithin(next: array<Byte>, size: nat, offset: nat, bytes: seq<Byte>)
    requires offset + |bytes| <= size <= next.Length
    modifies next
    ensures next[..size] == Patched(old(next[..size]), offset, bytes)
  {
    Store(next, offset, bytes);
  }

  lemma HeldBytes(schema: Schema, held: Held, payload: seq<Byte>, i: nat)
    requires schema.payloadSize <= |payload| && Shows(schema, held, payload[..schema.payloadSize]) && i < |held|
    ensures var f := schema.fields[i];
      && f.offset + f.width <= |payload|
      && (held[i].Some? ==> Slice(payload, f) == held[i].value)
  {
    var f := schema.fields[i];
    assert Slice(payload[..schema.payloadSize], f) == Slice(payload, f);
  }

  lemma FieldIsSound(schema: Schema, i: nat)
    requires Canonical(schema.fields, schema.payloadSize) && i < |schema.fields|
    ensures IsSound(schema.fields[i])
  {
  }

  /** One field of a round: encode into the scratch payload, or put back what the last payload had. */
  method PackField(m: Machine, schema: Schema, r: Round, index: nat, last: array<Byte>, next: array<Byte>, has: seq<bool>,
                   ghost held: Held, ghost mid: Held)
    returns (status: Status, nextHas: seq<bool>, ghost after: Held)
    requires Canonical(schema.fields, schema.payloadSize) && IsRound(r) && index < |schema.fields| == |held|
    requires schema.payloadSize <= last.Length && schema.payloadSize <= next.Length && |schema.fields| <= |has| && next != last
    requires Shows(schema, held, last[..schema.payloadSize])
    requires Midway(m, schema.fields, held, r, index, mid) && Shows(schema, mid, next[..schema.payloadSize])
    requires |mid| == |held| && forall i :: 0 <= i < |held| ==> (has[i] <==> mid[i].Some?)
    modifies next
    ensures |nextHas| == |has|
    ensures status != Accepted ==> status == StatusOf(m, schema.fields, held, r)
    ensures status == Accepted ==>
      && |after| == |held| && Midway(m, schema.fields, held, r, index + 1, after) && Shows(schema, after, next[..schema.payloadSize])
      && (forall i :: 0 <= i < |held| ==> (nextHas[i] <==> after[i].Some?))
  {
    hide Canonical, Shows, Midway, EncodeField, StatusOf, Find;
    var f := schema.fields[index];
    nextHas, after := has, mid;
    FieldIsSound(schema, index);
    MidwayUntouched(m, schema.fields, held, r, index, mid);
    HeldBytes(schema, held, last[..], index);
    var i := FindOutputValue(f, r);
    if i == |r.outputs| {
      MidwayStops(m, schema.fields, held, r, index, mid);
      return InvalidArgument, has, mid;
    }
    var e := EncodeField(m, f, r.values[i]);
    if e.Refused? && !has[index] {
      MidwayStops(m, schema.fields, held, r, index, mid);
      return e.status, has, mid;
    }
    MidwayNext(m, schema.fields, held, r, index, mid);
    var bytes := if e.Encoded? then e.bytes else last[f.offset..f.offset + f.width];
    assert Keep(m, f, held[index], r) == Some(bytes);
    PutField(schema, index, bytes, next, mid);
    after := mid[index := Some(bytes)];
    if e.Encoded? {
      nextHas := has[index := true];
    }
    status := Accepted;
  }

  /** A round on scratch copies of the memory. */
  method PackFields(m: Machine, schema: Schema, r: Round, last: array<Byte>, has: seq<bool>, ghost held: Held)
    returns (status: Status, next: array<Byte>, nextHas: seq<bool>, ghost after: Held)
    requires Canonical(schema.fields, schema.payloadSize) && IsRound(r)
    requires schema.payloadSize <= last.Length == MAX_PAYLOAD && |has| == MAX_FIELDS
    requires Shows(schema, held, last[..schema.payloadSize]) && |held| == |schema.fields| <= MAX_FIELDS
    requires forall i :: 0 <= i < |held| ==> (has[i] <==> held[i].Some?)
    ensures status == StatusOf(m, schema.fields, held, r)
    ensures fresh(next) && next.Length == MAX_PAYLOAD && |nextHas| == MAX_FIELDS
    ensures status == Accepted ==>
      && |after| == |held| && after == After(m, schema.fields, held, r) && Shows(schema, after, next[..schema.payloadSize])
      && (forall i :: 0 <= i < |held| ==> (nextHas[i] <==> after[i].Some?))
  {
    hide Canonical, Shows, Midway, StatusOf, After;
    status, after := Accepted, held;
    nextHas := has;
    next := new Byte[MAX_PAYLOAD](_ => 0);
    Store(next, 0, last[..schema.payloadSize]);
    assert next[..schema.payloadSize] == last[..schema.payloadSize];
    MidwayStart(m, schema.fields, held, r);
    for index := 0 to |schema.fields|
      invariant status == Accepted && |after| == |held| && |nextHas| == MAX_FIELDS
      invariant Midway(m, schema.fields, held, r, index, after)
      invariant Shows(schema, after, next[..schema.payloadSize])
      invariant forall i :: 0 <= i < |held| ==> (nextHas[i] <==> after[i].Some?)
    {
      status, nextHas, after := PackField(m, schema, r, index, last, next, nextHas, held, after);
      if status != Accepted {
        return;
      }
    }
    MidwayEnds(m, schema.fields, held, r, after);
  }

  lemma MidwayUntouched(m: Machine, fields: seq<Field>, held: Held, r: Round, n: nat, mid: Held)
    requires IsRound(r) && Midway(m, fields, held, r, n, mid) && n < |fields|
    ensures mid[n] == held[n]
  {
  }
}
