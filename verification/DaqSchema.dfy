/** The layout of a data payload: which channel sits at which offset. */
module DaqSchema {
  import opened Bytes
  import opened Numbers
  import LogFormat
  import LogRecord

  // Channel functions and wire types as the enumerations number them; anything above is invalid.
  const AI := 0
  const DI := 1
  const AO := 2
  const DO := 3
  const PWM := 4
  const FLOAT32 := 0
  const INT32 := 1
  const BOOL := 2

  const MAX_FIELDS := 64
  const MAX_PAYLOAD := 256

  datatype Field = Field(
    gpio: Byte, function_: nat, wire: nat, kind: nat, offset: Word16, width: Word16,
    scale: Number, shift: Number, valueReference: Word32, fmuIndex: Word16)

  datatype Schema = Schema(fields: seq<Field>, payloadSize: nat)

  datatype Status =
    | Ok | TooManyFields | InvalidFunction | InvalidWireType | InvalidFmuType | InvalidScale | InvalidOffset
    | DuplicateGpio | DuplicateFmuIndex | PayloadTooLarge

  function WireWidth(wire: nat): nat {
    if wire == FLOAT32 || wire == INT32 then 4 else if wire == BOOL then 1 else 0
  }

  predicate IsInput(function_: nat) { function_ == AI || function_ == DI }

  predicate IsTypeCompatible(wire: nat, kind: nat) {
    if wire == FLOAT32 then kind == LogFormat.REAL
    else if wire == INT32 then kind == LogFormat.INTEGER || kind == LogFormat.ENUMERATION
    else wire == BOOL && kind == LogFormat.BOOLEAN
  }

  predicate IsScale(f: Field) {
    && f.scale.Finite? && f.shift.Finite? && f.scale.value != 0.0
    && (f.wire == BOOL ==> f.scale.value == 1.0 && f.shift.value == 0.0)
  }

  /** What is asked of a field on its own. */
  predicate IsSound(f: Field) {
    && f.function_ <= PWM && WireWidth(f.wire) > 0 && IsTypeCompatible(f.wire, f.kind) && IsScale(f)
    && f.width == WireWidth(f.wire)
  }

  /** Sound fields, kind by kind: single floats for reals, 32-bit words for integers and enumerations, plain bytes for Booleans. */
  lemma SoundMeans(f: Field)
    ensures IsSound(f) <==>
      && f.function_ <= 4 && f.scale.Finite? && f.scale.value != 0.0 && f.shift.Finite?
      && ((f.wire == 0 && f.kind == 0 && f.width == 4)
          || (f.wire == 1 && (f.kind == 1 || f.kind == 3) && f.width == 4)
          || (f.wire == 2 && f.kind == 2 && f.width == 1 && f.scale.value == 1.0 && f.shift.value == 0.0))
  {
  }

  // ---- Layouts ----

  ghost predicate Disjoint(fields: seq<Field>) {
    forall i, j :: 0 <= i < j < |fields| ==> fields[i].offset + fields[i].width <= fields[j].offset
  }

  ghost predicate Unique(fields: seq<Field>) {
    forall i, j :: 0 <= i < j < |fields| ==> fields[i].gpio != fields[j].gpio && fields[i].fmuIndex != fields[j].fmuIndex
  }

  /** In offset order, disjoint, within `size` bytes, and no pin or FMU variable used twice. */
  ghost predicate Canonical(fields: seq<Field>, size: nat) {
    && |fields| <= MAX_FIELDS
    && (forall i :: 0 <= i < |fields| ==> IsSound(fields[i]) && fields[i].offset + fields[i].width <= size)
    && Disjoint(fields) && Unique(fields)
  }

  function End(fields: seq<Field>): nat {
    if fields == [] then 0 else fields[|fields| - 1].offset + fields[|fields| - 1].width
  }

  /** The payload length of a schema: the fixed one, or with zero the end of the last field. */
  function PayloadSize(fields: seq<Field>, fixed: nat): nat { if fixed == 0 then End(fields) else fixed }

  ghost predicate Buildable(fields: seq<Field>, fixed: nat) {
    Canonical(fields, PayloadSize(fields, fixed)) && PayloadSize(fields, fixed) <= MAX_PAYLOAD
  }

  /** The part of a layout that the first `n` fields have to meet. */
  ghost predicate Fits(fields: seq<Field>, n: nat)
    requires n <= |fields|
  {
    Canonical(fields[..n], MAX_PAYLOAD)
  }

  /** Why field `n` cannot follow the ones before it: the first complaint, in the order the check looks for them. */
  ghost predicate Rejects(fields: seq<Field>, n: nat, status: Status)
    requires n < |fields|
  {
    var f := fields[n];
    match status
    case InvalidFunction => f.function_ > PWM
    case InvalidWireType => f.function_ <= PWM && WireWidth(f.wire) == 0
    case InvalidFmuType => f.function_ <= PWM && WireWidth(f.wire) != 0 && !IsTypeCompatible(f.wire, f.kind)
    case InvalidScale => f.function_ <= PWM && IsTypeCompatible(f.wire, f.kind) && !IsScale(f)
    case InvalidOffset =>
      && f.function_ <= PWM && IsTypeCompatible(f.wire, f.kind) && IsScale(f)
      && (f.width != WireWidth(f.wire) || f.offset < End(fields[..n]))
    case DuplicateGpio =>
      && IsSound(f) && f.offset >= End(fields[..n])
      && exists k :: 0 <= k < n && fields[k].gpio == f.gpio && forall j :: 0 <= j < k ==> fields[j].fmuIndex != f.fmuIndex
    case DuplicateFmuIndex =>
      && IsSound(f) && f.offset >= End(fields[..n])
      && exists k :: 0 <= k < n && fields[k].fmuIndex == f.fmuIndex && forall j :: 0 <= j <= k ==> fields[j].gpio != f.gpio
    case PayloadTooLarge =>
      && IsSound(f) && f.offset >= End(fields[..n])
      && (forall k :: 0 <= k < n ==> fields[k].gpio != f.gpio && fields[k].fmuIndex != f.fmuIndex)
      && f.offset + f.width > MAX_PAYLOAD
    case _ => false
  }

  /** The complaint that ends a build. */
  ghost predicate Complaint(fields: seq<Field>, fixed: nat, status: Status) {
    || (status == TooManyFields && |fields| > MAX_FIELDS)
    || (|fields| <= MAX_FIELDS && exists n :: 0 <= n < |fields| && Fits(fields, n) && Rejects(fields, n, status))
    || (status == PayloadTooLarge && |fields| <= MAX_FIELDS && Fits(fields, |fields|) && fixed != 0 && !(End(fields) <= fixed <= MAX_PAYLOAD))
  }

  /** A complaint is never raised about a layout that could be built. */
  lemma ComplaintIsJust(fields: seq<Field>, fixed: nat, status: Status)
    requires Complaint(fields, fixed, status)
    ensures !Buildable(fields, fixed)
  {
    if n :| 0 <= n < |fields| && Fits(fields, n) && Rejects(fields, n, status) {
      RejectedIsUnfit(fields, n, status, PayloadSize(fields, fixed));
    }
  }

  lemma RejectedIsUnfit(fields: seq<Field>, n: nat, status: Status, size: nat)
    requires n < |fields| && Rejects(fields, n, status)
    ensures !Canonical(fields, size) || size > MAX_PAYLOAD
  {
    assert n > 0 ==> fields[..n][n - 1] == fields[n - 1];
    assert n > 0 && Disjoint(fields) ==> fields[n - 1].offset + fields[n - 1].width <= fields[n].offset;
    assert Canonical(fields, size) ==> IsSound(fields[n]) && fields[n].offset + fields[n].width <= size;
  }

  lemma FitsNext(fields: seq<Field>, n: nat)
    requires n < |fields| <= MAX_FIELDS && Fits(fields, n)
    requires IsSound(fields[n]) && End(fields[..n]) <= fields[n].offset && fields[n].offset + fields[n].width <= MAX_PAYLOAD
    requires forall k :: 0 <= k < n ==> fields[k].gpio != fields[n].gpio && fields[k].fmuIndex != fields[n].fmuIndex
    ensures Fits(fields, n + 1)
  {
    hide IsSound;
    var before, now := fields[..n], fields[..n + 1];
    forall i, j | 0 <= i < j < n + 1
      ensures now[i].offset + now[i].width <= now[j].offset
    {
      if j < n {
        assert before[i] == now[i] && before[j] == now[j];
      } else if i < n - 1 {
        assert before[i].offset + before[i].width <= before[n - 1].offset;
      }
    }
    forall i | 0 <= i < n + 1
      ensures IsSound(now[i]) && now[i].offset + now[i].width <= MAX_PAYLOAD
    {
      assert i < n ==> now[i] == before[i];
    }
    forall i, j | 0 <= i < j < n + 1
      ensures now[i].gpio != now[j].gpio && now[i].fmuIndex != now[j].fmuIndex
    {
      assert j < n ==> now[i] == before[i] && now[j] == before[j];
    }
  }

  lemma FitsIsBuildable(fields: seq<Field>, fixed: nat)
    requires Fits(fields, |fields|) && (fixed == 0 || End(fields) <= fixed <= MAX_PAYLOAD)
    ensures Buildable(fields, fixed)
  {
    hide IsSound;
    assert fields[..|fields|] == fields;
    forall i | 0 <= i < |fields|
      ensures fields[i].offset + fields[i].width <= End(fields)
    {
      assert fields[i].offset + fields[i].width <= fields[|fields| - 1].offset || i == |fields| - 1;
    }
  }

  /** Builds a schema exactly when the fields, in the order given, are a canonical layout of the payload. */
  method Build(fields: seq<Field>, fixed: nat) returns (status: Status, schema: Schema)
    ensures status.Ok? <==> Buildable(fields, fixed)
    ensures !status.Ok? ==> Complaint(fields, fixed, status)
    ensures status.Ok? ==> schema == Schema(fields, PayloadSize(fields, fixed))
  {
    hide IsSound, Canonical;
    schema := Schema([], 0);
    status := CheckFields(fields);
    if status != Ok {
      ComplaintIsJust(fields, fixed, status);
      return;
    }
    if fixed != 0 && (fixed < End(fields) || fixed > MAX_PAYLOAD) {
      status := PayloadTooLarge;
      ComplaintIsJust(fields, fixed, status);
      return;
    }
    FitsIsBuildable(fields, fixed);
    schema := Schema(fields, PayloadSize(fields, fixed));
  }

  method CheckFields(fields: seq<Field>) returns (status: Status)
    ensures status.Ok? ==> |fields| <= MAX_FIELDS && Fits(fields, |fields|)
    ensures !status.Ok? ==> Complaint(fields, 0, status) && forall fixed: nat :: Complaint(fields, fixed, status)
  {
    if |fields| > MAX_FIELDS {
      return TooManyFields;
    }
    status := Ok;
    var payloadSize := 0;
    for index := 0 to |fields|
      invariant status == Ok && Fits(fields, index) && payloadSize == End(fields[..index])
    {
      status := CheckField(fields, index, payloadSize);
      if status != Ok {
        return;
      }
      FitsNext(fields, index);
      payloadSize := fields[index].offset + WireWidth(fields[index].wire);
    }
  }

  method CheckField(fields: seq<Field>, index: nat, payloadSize: nat) returns (status: Status)
    requires index < |fields| && payloadSize == End(fields[..index])
    ensures status.Ok? ==>
      && IsSound(fields[index]) && payloadSize <= fields[index].offset && fields[index].offset + fields[index].width <= MAX_PAYLOAD
      && forall k :: 0 <= k < index ==> fields[k].gpio != fields[index].gpio && fields[k].fmuIndex != fields[index].fmuIndex
    ensures !status.Ok? ==> Rejects(fields, index, status)
  {
    var f := fields[index];
    if f.function_ > PWM {
      return InvalidFunction;
    }
    if WireWidth(f.wire) == 0 {
      return InvalidWireType;
    }
    if !IsTypeCompatible(f.wire, f.kind) {
      return InvalidFmuType;
    }
    if !IsScale(f) {
      return InvalidScale;
    }
    if f.width != WireWidth(f.wire) || f.offset < payloadSize {
      return InvalidOffset;
    }
    for prior := 0 to index
      invariant forall k :: 0 <= k < prior ==> fields[k].gpio != f.gpio && fields[k].fmuIndex != f.fmuIndex
    {
      if fields[prior].gpio == f.gpio {
        return DuplicateGpio;
      }
      if fields[prior].fmuIndex == f.fmuIndex {
        return DuplicateFmuIndex;
      }
    }
    return if f.offset + f.width > MAX_PAYLOAD then PayloadTooLarge else Ok;
  }

  // ---- Reading an input field ----

  /** A value as the bits of its union, and whether it may be used. */
  datatype Input = Input(bits: Word64, valid: bool)

  const UNUSABLE := Input(0, false)

  function Signed32(w: Word32): int { if w < 0x8000_0000 then w else w - 0x1_0000_0000 }

  /** The 64-bit pattern of a number that fits in 32 signed bits. */
  function Pattern(n: int): Word64
    requires -0x8000_0000 <= n < 0x8000_0000
  {
    if n >= 0 then n else n + 0x1_0000_0000_0000_0000
  }

  function Word32At(payload: seq<Byte>, offset: nat): Word32
    requires offset + 4 <= |payload|
  {
    Pow256Values();
    EncodeDecodeLe(payload[offset..offset + 4]);
    FromLe(payload[offset..offset + 4])
  }

  function IntegerInput(x: Number): Input {
    if x.Finite? && -2147483648.0 <= x.value <= 2147483647.0 && x.value.Floor as real == x.value
    then Input(Pattern(x.value.Floor), true) else UNUSABLE
  }

  function DecodeInput(m: Machine, f: Field, payload: seq<Byte>): Option<Input> {
    if !IsInput(f.function_) || f.offset + f.width > |payload| then None
    else if f.wire == BOOL && f.width >= 1 then
      Some(if payload[f.offset] > 1 then UNUSABLE else Input(payload[f.offset], true))
    else if f.wire == INT32 && f.width >= 4 then
      Some(IntegerInput(m.scaledInteger(Signed32(Word32At(payload, f.offset)), f.scale, f.shift)))
    else if f.wire == FLOAT32 && f.width >= 4 then
      var bits := m.scaledSingle(Word32At(payload, f.offset), f.scale, f.shift);
      Some(if LogFormat.IsFinite(bits) then Input(bits, true) else UNUSABLE)
    else None
  }

  /** A sound input field inside the payload always decodes, and what it calls valid suits the FMU type, whatever the arithmetic. */
  lemma DecodedSuitsType(m: Machine, f: Field, payload: seq<Byte>)
    requires IsSound(f) && IsInput(f.function_) && f.offset + f.width <= |payload|
    ensures DecodeInput(m, f, payload).Some?
    ensures DecodeInput(m, f, payload).value.valid ==> LogRecord.Representable(f.kind, DecodeInput(m, f, payload).value.bits)
  {
  }

  function LittleEndian(b0: int, b1: int, b2: int, b3: int): int { b0 + 0x100 * b1 + 0x1_0000 * b2 + 0x100_0000 * b3 }

  /** The little-endian word in the field's own bytes. */
  function FieldWord(f: Field, payload: seq<Byte>): Word32
    requires f.offset + 4 <= |payload|
  {
    LittleEndian(payload[f.offset], payload[f.offset + 1], payload[f.offset + 2], payload[f.offset + 3])
  }

  lemma FourBytes(s: seq<Byte>)
    requires |s| == 4
    ensures FromLe(s) == LittleEndian(s[0], s[1], s[2], s[3])
  {
    assert FromLe(s) == s[0] + 0x100 * FromLe(s[1..]);
    assert FromLe(s[1..]) == s[1] + 0x100 * FromLe(s[1..][1..]);
    assert s[1..][1..] == s[2..];
    assert FromLe(s[2..]) == s[2] + 0x100 * FromLe(s[2..][1..]);
    assert s[2..][1..] == [s[3]];
    assert FromLe([s[3]]) == s[3] + 0x100 * FromLe([s[3]][1..]);
  }

  lemma WordIsFieldWord(f: Field, payload: seq<Byte>)
    requires f.offset + 4 <= |payload|
    ensures Word32At(payload, f.offset) == FieldWord(f, payload)
  {
    FourBytes(payload[f.offset..f.offset + 4]);
  }

  /** The signed number a word stands for in two's complement. */
  predicate IsSigned(word: Word32, n: int) {
    -0x8000_0000 <= n < 0x8000_0000 && (n - word) % 0x1_0000_0000 == 0
  }

  lemma SignedIsSigned(word: Word32, n: int)
    ensures IsSigned(word, n) <==> n == Signed32(word)
  {
  }

  /** `x` is the integer `n`, and fits in 32 signed bits. */
  predicate IsInteger(x: Number, n: int) {
    -0x8000_0000 <= n < 0x8000_0000 && x == Finite(n as real)
  }

  /**
   * What an input field means: a Boolean is its byte, valid when zero or one; a float is its word scaled, valid when finite;
   * an integer is its signed word scaled, valid when that is an integer of 32 bits.
   */
  lemma DecodedMeans(m: Machine, f: Field, payload: seq<Byte>, n: int)
    requires IsSound(f) && IsInput(f.function_) && f.offset + f.width <= |payload|
    ensures DecodeInput(m, f, payload).Some?
    ensures var input := DecodeInput(m, f, payload).value;
      && (f.wire == BOOL ==>
            && (input.valid <==> payload[f.offset] == 0 || payload[f.offset] == 1)
            && (input.valid ==> input.bits == payload[f.offset]))
      && (f.wire == FLOAT32 ==>
            var scaled := m.scaledSingle(FieldWord(f, payload), f.scale, f.shift);
            (input.valid <==> LogFormat.IsFinite(scaled)) && (input.valid ==> input.bits == scaled))
      && (f.wire == INT32 && IsSigned(FieldWord(f, payload), n) ==>
            var scaled := m.scaledInteger(n, f.scale, f.shift);
            && (input.valid <==> exists k: int :: IsInteger(scaled, k))
            && (input.valid ==> IsInteger(scaled, LogRecord.Discrete(input.bits))))
      && (!input.valid ==> input.bits == 0)
  {
    if f.wire != BOOL {
      WordIsFieldWord(f, payload);
      SignedIsSigned(FieldWord(f, payload), n);
    }
    if f.wire == INT32 && n == Signed32(FieldWord(f, payload)) {
      IntegerMeans(m.scaledInteger(n, f.scale, f.shift));
    }
  }

  lemma IntegerMeans(x: Number)
    ensures IntegerInput(x).valid <==> exists k: int :: IsInteger(x, k)
    ensures IntegerInput(x).valid ==> IsInteger(x, LogRecord.Discrete(IntegerInput(x).bits))
    ensures !IntegerInput(x).valid ==> IntegerInput(x).bits == 0
  {
    if IntegerInput(x).valid {
      assert IsInteger(x, x.value.Floor);
    }
  }
}
