/** The board's checks on an actuation payload, and why no payload the host builds on the ESP32 schema can fail them. */
module BoardProfile {
  import opened Bytes
  import opened Numbers
  import opened DaqSchema
  import opened Profile
  import Actuation

  // ---- The board's checks ----

  predicate IsWithin(m: Machine, bits: Word32, limit: real) {
    var v, top := SingleValue(bits), SingleValue(m.single(limit));
    v.Finite? && top.Finite? && 0.0 <= v.value <= top.value
  }

  /** What the board asks of a payload before it touches an output; its limits are single-precision constants. */
  predicate PassesChecks(m: Machine, payload: seq<Byte>) {
    && |payload| == ACTUATION_SIZE
    && payload[0] <= 1 && payload[1] <= 1 && payload[10] <= 1 && payload[11] <= 1 && payload[12] <= 1
    && IsWithin(m, Word32At(payload, 2), PWM_MAX_DUTY) && IsWithin(m, Word32At(payload, 6), PWM_MAX_DUTY)
    && IsWithin(m, Word32At(payload, 13), AO_MAX_VOLTS) && IsWithin(m, Word32At(payload, 17), AO_MAX_VOLTS)
  }

  // ---- One channel ----

  /** Bytes the board takes for a channel of this function. */
  predicate IsTaken(m: Machine, function_: nat, bytes: seq<Byte>) {
    if function_ == DO then |bytes| == 1 && bytes[0] <= 1
    else |bytes| == 4 && IsWithin(m, Word32At(bytes, 0), if function_ == PWM then PWM_MAX_DUTY else AO_MAX_VOLTS)
  }

  lemma {:induction false} PowerGrows(n: nat, k: nat)
    ensures 1.0 <= Power(n) <= Power(n + k)
  {
    if k > 0 {
      PowerGrows(n, k - 1);
    } else if n > 0 {
      PowerGrows(n - 1, 0);
    }
  }

  /** Single precision reaches well past the physical ranges. */
  lemma LimitsAreSmall()
    ensures SingleMax() >= 4.0
  {
    PowerGrows(104, 23);
    PowerGrows(0, 125);
    assert Power(128) == 2.0 * Power(127) && Power(127) == 2.0 * Power(126) && Power(126) == 2.0 * Power(125);
  }

  lemma RoundedIsWithin(m: Machine, raw: real, limit: real)
    requires m.Rounds() && 0.0 <= raw <= limit <= AO_MAX_VOLTS
    ensures IsWithin(m, m.single(raw), limit)
  {
    LimitsAreSmall();
  }

  lemma SingleReadsBack(bits: Word32)
    ensures Word32At(ToLe(bits, 4), 0) == bits
  {
    Pow256Values();
    DecodeEncodeLe(bits, 4);
    assert ToLe(bits, 4)[0..4] == ToLe(bits, 4);
  }

  lemma EncodingIsTaken(m: Machine, f: Field, v: Word64)
    requires m.Rounds() && Actuation.EncodeField(m, f, v).Encoded?
    requires f.function_ == DO ==> f.wire == BOOL
    requires f.function_ != DO ==> (f.function_ == PWM || f.function_ == AO) && f.wire == FLOAT32
    ensures IsTaken(m, f.function_, Actuation.EncodeField(m, f, v).bytes)
  {
    if f.wire == FLOAT32 {
      var raw := m.quotient(v, f.shift, f.scale);
      hide Machine.Rounds, SingleMax;
      SingleReadsBack(m.single(raw.value));
      RoundedIsWithin(m, raw.value, if f.function_ == PWM then PWM_MAX_DUTY else AO_MAX_VOLTS);
    }
  }

  lemma {:induction false} ZeroBytes(bytes: seq<Byte>)
    requires forall k :: 0 <= k < |bytes| ==> bytes[k] == 0
    ensures FromLe(bytes) == 0
  {
    if bytes != [] {
      ZeroBytes(bytes[1..]);
    }
  }

  lemma ZerosAreTaken(m: Machine, function_: nat, bytes: seq<Byte>)
    requires m.Rounds() && (function_ == DO || function_ == PWM || function_ == AO)
    requires |bytes| == (if function_ == DO then 1 else 4) && forall k :: 0 <= k < |bytes| ==> bytes[k] == 0
    ensures IsTaken(m, function_, bytes)
  {
    if function_ != DO {
      hide Machine.Rounds, FromLe;
      ZeroBytes(bytes[0..4]);
      ZeroIsZero();
      hide SingleValue;
      var limit := if function_ == PWM then PWM_MAX_DUTY else AO_MAX_VOLTS;
      ZeroIsBelow(m, limit);
    }
  }

  lemma ZeroIsBelow(m: Machine, limit: real)
    requires m.Rounds() && 0.0 <= limit <= AO_MAX_VOLTS
    ensures SingleValue(m.single(limit)).Finite? && SingleValue(m.single(limit)).value >= 0.0
  {
    RoundedIsWithin(m, 0.0, limit);
  }

  // ---- A whole payload ----

  /** Every actuation channel is a digital output of one byte, or a duty cycle or voltage of four. */
  predicate IsDriven(c: Channel) {
    if c.function_ == DO then c.wire == BOOL && c.width == 1
    else (c.function_ == PWM || c.function_ == AO) && c.wire == FLOAT32 && c.width == 4
  }

  lemma ChannelIsDriven(k: nat)
    requires k < |ACTUATION|
    ensures IsDriven(ACTUATION[k]) && IsRow(ACTUATION[k], ACTUATION_SIZE)
  {
    ActuationIsTable();
  }

  ghost predicate HoldsEncodings(m: Machine, fields: seq<Field>, held: Actuation.Held) {
    && |held| == |fields|
    && forall i :: 0 <= i < |held| && held[i].Some? ==>
         exists v: Word64 :: Actuation.EncodeField(m, fields[i], v) == Actuation.Encoded(held[i].value)
  }

  lemma RunHoldsEncodings(m: Machine, fields: seq<Field>, rs: seq<Actuation.Round>)
    requires Actuation.AreRounds(rs)
    ensures HoldsEncodings(m, fields, Actuation.Run(m, fields, rs))
  {
    hide Actuation.Run, Actuation.AcceptedAt, Actuation.EncodeField;
    var held := Actuation.Run(m, fields, rs);
    forall i | 0 <= i < |held| && held[i].Some?
      ensures exists v: Word64 :: Actuation.EncodeField(m, fields[i], v) == Actuation.Encoded(held[i].value)
    {
      var j := Actuation.HoldsMostRecent(m, fields, rs, i);
      var v := rs[j].values[Actuation.Find(fields[i], rs[j].outputs)];
      assert Actuation.EncodeField(m, fields[i], v) == Actuation.Encoded(held[i].value);
    }
  }

  /** The schema's fields are channels of the actuation table, as the profile builds them. */
  ghost predicate IsEsp32(schema: Schema, ms: seq<Mapping>) {
    BuildsTo(ACTUATION, ACTUATION_SIZE, ms, Some(schema))
  }

  lemma FieldIsChannel(schema: Schema, ms: seq<Mapping>, i: nat) returns (k: nat)
    requires IsEsp32(schema, ms) && i < |schema.fields|
    ensures var f := schema.fields[i];
      && k < |ACTUATION| && f.offset == ACTUATION[k].offset && f.width == ACTUATION[k].width
      && f.function_ == ACTUATION[k].function_ && f.wire == ACTUATION[k].wire
  {
    var fields := Fields(ACTUATION, ms);
    SameElements(schema.fields, fields);
    var j :| 0 <= j < |fields| && fields[j] == schema.fields[i];
    k := Profile.Find(ACTUATION, ms[j].channel);
  }

  /** A channel whose field holds a value shows that value. */
  lemma HeldIsTaken(m: Machine, schema: Schema, c: Channel, held: Actuation.Held, payload: seq<Byte>, i: nat)
    requires m.Rounds() && HoldsEncodings(m, schema.fields, held) && Actuation.Shows(schema, held, payload) && IsDriven(c)
    requires i < |held| && held[i].Some?
    requires var f := schema.fields[i]; f.offset == c.offset && f.width == c.width && f.function_ == c.function_ && f.wire == c.wire
    ensures c.offset + c.width <= |payload| && IsTaken(m, c.function_, payload[c.offset..c.offset + c.width])
  {
    hide Machine.Rounds, IsTaken, Actuation.EncodeField;
    var v: Word64 :| Actuation.EncodeField(m, schema.fields[i], v) == Actuation.Encoded(held[i].value);
    EncodingIsTaken(m, schema.fields[i], v);
  }

  /** A channel no held field covers shows zeros. */
  lemma UnheldIsTaken(m: Machine, schema: Schema, c: Channel, held: Actuation.Held, payload: seq<Byte>)
    requires m.Rounds() && Actuation.Shows(schema, held, payload) && IsDriven(c) && c.offset + c.width <= |payload|
    requires forall i, at :: 0 <= i < |held| && held[i].Some? && c.offset <= at < c.offset + c.width ==> !Actuation.Covers(schema.fields[i], at)
    ensures IsTaken(m, c.function_, payload[c.offset..c.offset + c.width])
  {
    hide Machine.Rounds, IsTaken, Actuation.Covers;
    ZerosAreTaken(m, c.function_, payload[c.offset..c.offset + c.width]);
  }

  lemma ChannelIsTaken(m: Machine, schema: Schema, ms: seq<Mapping>, held: Actuation.Held, payload: seq<Byte>, k: nat)
    requires m.Rounds() && IsEsp32(schema, ms) && HoldsEncodings(m, schema.fields, held) && Actuation.Shows(schema, held, payload)
    requires k < |ACTUATION|
    ensures var c := ACTUATION[k];
      c.offset + c.width <= |payload| && IsTaken(m, c.function_, payload[c.offset..c.offset + c.width])
  {
    assert |payload| == ACTUATION_SIZE && |held| == |schema.fields|;
    ChannelIsDriven(k);
    hide Machine.Rounds, IsTaken, IsEsp32, HoldsEncodings, Actuation.Shows, IsDriven;
    var c := ACTUATION[k];
    if i :| 0 <= i < |held| && held[i].Some? && schema.fields[i].offset == c.offset {
      SameChannel(schema, ms, i, k);
      HeldIsTaken(m, schema, c, held, payload, i);
    } else {
      forall i, at | 0 <= i < |held| && held[i].Some? && c.offset <= at < c.offset + c.width
        ensures !Actuation.Covers(schema.fields[i], at)
      {
        if Actuation.Covers(schema.fields[i], at) {
          CoveringChannel(schema, ms, i, k, at);
        }
      }
      UnheldIsTaken(m, schema, c, held, payload);
    }
  }

  lemma CoveringChannel(schema: Schema, ms: seq<Mapping>, i: nat, k: nat, at: nat)
    requires IsEsp32(schema, ms) && i < |schema.fields| && k < |ACTUATION|
    requires Actuation.Covers(schema.fields[i], at) && ACTUATION[k].offset <= at < ACTUATION[k].offset + ACTUATION[k].width
    ensures schema.fields[i].offset == ACTUATION[k].offset
  {
    ActuationIsTable();
    var l := FieldIsChannel(schema, ms, i);
    if k < l {
      ChannelsApart(ACTUATION, ACTUATION_SIZE, k, l);
    } else if l < k {
      ChannelsApart(ACTUATION, ACTUATION_SIZE, l, k);
    }
  }

  lemma SameChannel(schema: Schema, ms: seq<Mapping>, i: nat, k: nat)
    requires IsEsp32(schema, ms) && i < |schema.fields| && k < |ACTUATION| && schema.fields[i].offset == ACTUATION[k].offset
    ensures var f := schema.fields[i]; var c := ACTUATION[k];
      f.width == c.width && f.function_ == c.function_ && f.wire == c.wire
  {
    ActuationIsTable();
    var l := FieldIsChannel(schema, ms, i);
    if k < l {
      ChannelsApart(ACTUATION, ACTUATION_SIZE, k, l);
    } else if l < k {
      ChannelsApart(ACTUATION, ACTUATION_SIZE, l, k);
    }
  }

  /** Whatever rounds were packed, and whatever mappings the profile has, the board takes the payload. */
  lemma BoardTakesPayload(m: Machine, schema: Schema, ms: seq<Mapping>, rs: seq<Actuation.Round>, payload: seq<Byte>)
    requires m.Rounds() && IsEsp32(schema, ms) && Actuation.AreRounds(rs)
    requires Actuation.Shows(schema, Actuation.Run(m, schema.fields, rs), payload)
    ensures PassesChecks(m, payload)
  {
    var held := Actuation.Run(m, schema.fields, rs);
    RunHoldsEncodings(m, schema.fields, rs);
    forall k | 0 <= k < |ACTUATION|
      ensures TakesChannel(m, ACTUATION[k], payload)
    {
      ChannelIsTaken(m, schema, ms, held, payload, k);
    }
    ChecksAreByChannel(m, payload);
  }

  /** So does what the packer remembers, after any calls, and with it every payload it hands out. */
  lemma BoardTakesMemory(a: Actuation.Actuation, ms: seq<Mapping>)
    requires a.Valid() && a.machine.Rounds() && IsEsp32(a.schema, ms)
    ensures PassesChecks(a.machine, a.lastPayload[..a.schema.payloadSize])
  {
    hide Machine.Rounds, PassesChecks, Actuation.Shows, Actuation.Run, Actuation.AreRounds, IsEsp32, Canonical;
    BoardTakesPayload(a.machine, a.schema, ms, a.rounds, a.lastPayload[..a.schema.payloadSize]);
  }

  /** The board's checks are one check for each actuation channel, no more and no less. */
  lemma ChecksAreByChannel(m: Machine, payload: seq<Byte>)
    ensures PassesChecks(m, payload) <==> |payload| == ACTUATION_SIZE && forall k :: 0 <= k < |ACTUATION| ==> TakesChannel(m, ACTUATION[k], payload)
  {
    if |payload| == ACTUATION_SIZE {
      ChannelChecks(m, payload);
      hide IsTaken, IsWithin;
    }
  }

  predicate TakesChannel(m: Machine, c: Channel, payload: seq<Byte>) {
    c.offset + c.width <= |payload| && IsTaken(m, c.function_, payload[c.offset..c.offset + c.width])
  }

  lemma ChannelChecks(m: Machine, payload: seq<Byte>)
    requires |payload| == ACTUATION_SIZE
    ensures TakesChannel(m, ACTUATION[0], payload) <==> payload[0] <= 1
    ensures TakesChannel(m, ACTUATION[1], payload) <==> payload[1] <= 1
    ensures TakesChannel(m, ACTUATION[2], payload) <==> IsWithin(m, Word32At(payload, 2), PWM_MAX_DUTY)
    ensures TakesChannel(m, ACTUATION[3], payload) <==> IsWithin(m, Word32At(payload, 6), PWM_MAX_DUTY)
    ensures TakesChannel(m, ACTUATION[4], payload) <==> payload[10] <= 1
    ensures TakesChannel(m, ACTUATION[5], payload) <==> payload[11] <= 1
    ensures TakesChannel(m, ACTUATION[6], payload) <==> payload[12] <= 1
    ensures TakesChannel(m, ACTUATION[7], payload) <==> IsWithin(m, Word32At(payload, 13), AO_MAX_VOLTS)
    ensures TakesChannel(m, ACTUATION[8], payload) <==> IsWithin(m, Word32At(payload, 17), AO_MAX_VOLTS)
  {
    hide IsWithin;
    WordInPlace(payload, 2);
    WordInPlace(payload, 6);
    WordInPlace(payload, 13);
    WordInPlace(payload, 17);
    hide Word32At;
  }

  lemma WordInPlace(payload: seq<Byte>, offset: nat)
    requires offset + 4 <= |payload|
    ensures Word32At(payload[offset..offset + 4], 0) == Word32At(payload, offset)
  {
    assert payload[offset..offset + 4][0..4] == payload[offset..offset + 4];
  }
}
