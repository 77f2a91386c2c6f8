/** The records of the log file: typed values with a quality bit each, their byte codec, and what survives a cut. */
module LogRecord {
  import opened Arithmetic
  import opened Bytes
  import opened LogFormat
  import Utf8

  function Repeat<T>(x: T, n: nat): (s: seq<T>)
    ensures |s| == n && forall i :: 0 <= i < n ==> s[i] == x
  {
    seq(n, (i: int) => x)
  }

  type Flags = f: seq<bool> | |f| == MAX_OUTPUTS witness Repeat(false, 64)
  type Values = v: seq<Word64> | |v| == MAX_OUTPUTS witness Repeat<Word64>(0, 64)

  /** `quality[i]` is bit i % 8 of byte i / 8 of the bitmap; set means invalid. A value is the 64-bit pattern of its union. */
  datatype Sample = Sample(sequence: Word64, time: Word64, quality: Flags, values: Values)

  const NO_FLAGS: Flags := Repeat(false, MAX_OUTPUTS)
  const NO_VALUES: Values := Repeat<Word64>(0, MAX_OUTPUTS)

  /** The pattern the writer uses for an invalid real. */
  const NAN_BITS: Word64 := 0x7ff8_0000_0000_0000

  // ---- Bitmaps ----

  function QualityBytes(count: nat): nat {
    if count > MAX_OUTPUTS then 0 else (count + 7) / 8
  }

  function PackBits(f: seq<bool>): nat {
    if f == [] then 0 else (if f[0] then 1 else 0) + 2 * PackBits(f[1..])
  }

  function UnpackBits(b: nat, n: nat): (f: seq<bool>)
    ensures |f| == n
  {
    if n == 0 then [] else [b % 2 == 1] + UnpackBits(b / 2, n - 1)
  }

  function Pow2(n: nat): nat { if n == 0 then 1 else 2 * Pow2(n - 1) }

  lemma {:induction false} PackedBits(f: seq<bool>)
    ensures PackBits(f) < Pow2(|f|) && UnpackBits(PackBits(f), |f|) == f
  {
    if f != [] {
      PackedBits(f[1..]);
      assert PackBits(f) / 2 == PackBits(f[1..]);
      assert [f[0]] + f[1..] == f;
    }
  }

  lemma {:induction false} UnpackedBits(b: nat, n: nat)
    requires b < Pow2(n)
    ensures PackBits(UnpackBits(b, n)) == b
  {
    if n > 0 {
      UnpackedBits(b / 2, n - 1);
      assert UnpackBits(b, n)[1..] == UnpackBits(b / 2, n - 1);
    }
  }

  lemma EightBits()
    ensures Pow2(8) == 0x100
  {
    assert Pow2(4) == 0x10;
  }

  function PackByte(f: seq<bool>): Byte
    requires |f| == 8
  {
    EightBits();
    PackedBits(f);
    PackBits(f)
  }

  /** The bytes of eight flags each. */
  function Pack(f: seq<bool>, bytes: nat): (s: seq<Byte>)
    requires |f| >= 8 * bytes
    ensures |s| == bytes
  {
    if bytes == 0 then [] else [PackByte(f[..8])] + Pack(f[8..], bytes - 1)
  }

  function Unpack(s: seq<Byte>): (f: seq<bool>)
    ensures |f| == 8 * |s|
  {
    if s == [] then [] else UnpackBits(s[0], 8) + Unpack(s[1..])
  }

  lemma {:induction false} UnpackPack(f: seq<bool>, bytes: nat)
    requires |f| >= 8 * bytes
    ensures Unpack(Pack(f, bytes)) == f[..8 * bytes]
  {
    if bytes > 0 {
      PackedBits(f[..8]);
      UnpackPack(f[8..], bytes - 1);
      assert Pack(f, bytes)[1..] == Pack(f[8..], bytes - 1);
      assert f[..8] + f[8..][..8 * (bytes - 1)] == f[..8 * bytes];
    }
  }

  lemma {:induction false} PackUnpack(s: seq<Byte>, more: seq<bool>)
    ensures Pack(Unpack(s) + more, |s|) == s
  {
    hide PackBits, UnpackBits, Pow2;
    if s != [] {
      EightBits();
      UnpackedBits(s[0], 8);
      var first, tail := UnpackBits(s[0], 8), Unpack(s[1..]) + more;
      PackUnpack(s[1..], more);
      assert Unpack(s) + more == first + tail;
      assert (first + tail)[..8] == first && (first + tail)[8..] == tail;
    }
  }

  // ---- Values ----

  /** The pattern read as a signed 64-bit number. */
  function Discrete(bits: Word64): int {
    if bits < 0x8000_0000_0000_0000 then bits else bits - 0x1_0000_0000_0000_0000
  }

  /** The low byte of the union. */
  function Boolean(bits: Word64): Byte { bits % 0x100 }

  /** Sign extension of 32 bits, as `DecodeI32` does it, back to a 64-bit pattern. */
  function Extend(low: Word32): Word64 {
    if low < 0x8000_0000 then low else low + 0xffff_ffff_0000_0000
  }

  /** Values the wire cannot carry are invalid whatever their quality bit says. */
  predicate Representable(kind: nat, bits: Word64) {
    if kind == REAL then IsFinite(bits)
    else if kind == BOOLEAN then Boolean(bits) <= 1
    else -0x8000_0000 <= Discrete(bits) < 0x8000_0000
  }

  function Width(kind: nat): nat { if kind == REAL then 8 else if kind == BOOLEAN then 1 else 4 }

  /** The number a value is written as. */
  function WireValue(kind: nat, bits: Word64, invalid: bool): nat {
    if kind == REAL then if invalid then NAN_BITS else bits
    else if kind == BOOLEAN then if invalid then 0 else Boolean(bits)
    else if invalid then 0 else bits % 0x1_0000_0000
  }

  /** The pattern a wire value is read as. */
  function ReadPattern(kind: nat, wire: nat): Word64
    requires wire < Pow256(Width(kind))
  {
    Pow256Values();
    if kind == REAL || kind == BOOLEAN then wire else Extend(wire)
  }

  /** The reader's check of a value against its quality bit. */
  predicate Coherent(kind: nat, bits: Word64, invalid: bool) {
    if kind == REAL then if invalid then IsNan(bits) else IsFinite(bits)
    else if kind == BOOLEAN then Boolean(bits) <= 1 && (invalid ==> Boolean(bits) == 0)
    else invalid ==> bits == 0
  }

  /** What is left of a value after it was written and read back. */
  function NormalValue(kind: nat, bits: Word64, invalid: bool): Word64 {
    if kind == REAL then if invalid then NAN_BITS else bits
    else if invalid then 0
    else if kind == BOOLEAN then Boolean(bits)
    else Extend(bits % 0x1_0000_0000)
  }

  lemma ValueReadsBack(kind: nat, bits: Word64, invalid: bool)
    requires ValidKind(kind) && (!invalid ==> Representable(kind, bits))
    ensures WireValue(kind, bits, invalid) < Pow256(Width(kind))
    ensures ReadPattern(kind, WireValue(kind, bits, invalid)) == NormalValue(kind, bits, invalid)
    ensures Coherent(kind, NormalValue(kind, bits, invalid), invalid)
    ensures invalid || Representable(kind, NormalValue(kind, bits, invalid))
  {
    Pow256Values();
  }

  /** A wire value the reader takes is written back unchanged, unless it is an invalid real with another NaN pattern. */
  lemma ValueIsRead(kind: nat, wire: nat, invalid: bool)
    requires ValidKind(kind) && wire < Pow256(Width(kind))
    requires Coherent(kind, ReadPattern(kind, wire), invalid)
    ensures !invalid ==> Representable(kind, ReadPattern(kind, wire))
    ensures WireValue(kind, ReadPattern(kind, wire), invalid) == wire <==>
      !(kind == REAL && invalid && ReadPattern(kind, wire) != NAN_BITS)
  {
    Pow256Values();
  }

  // ---- Records ----

  /** The quality bits as written: the caller's for the used outputs, and every value the wire cannot carry. */
  function Marked(d: Descriptor, s: Sample): Flags
    requires |d.outputs| <= MAX_OUTPUTS
  {
    seq(MAX_OUTPUTS, i requires 0 <= i < MAX_OUTPUTS =>
      i < |d.outputs| && (s.quality[i] || !Representable(d.outputs[i].kind, s.values[i])))
  }

  function EncodeValue(kind: nat, bits: Word64, invalid: bool, rest: seq<Byte>): seq<Byte> {
    ToLe(WireValue(kind, bits, invalid), Width(kind)) + rest
  }

  /** The values from output `index` on. */
  function EncodeValues(d: Descriptor, flags: Flags, values: Values, index: nat, rest: seq<Byte>): seq<Byte>
    requires index <= |d.outputs| <= MAX_OUTPUTS
    decreases |d.outputs| - index
  {
    if index == |d.outputs| then rest
    else EncodeValue(d.outputs[index].kind, values[index], flags[index], EncodeValues(d, flags, values, index + 1, rest))
  }

  function EncodeRecord(d: Descriptor, s: Sample, rest: seq<Byte>): seq<Byte>
    requires |d.outputs| <= MAX_OUTPUTS
  {
    ToLe(s.sequence, 8) + (ToLe(s.time, 8) + (Pack(Marked(d, s), QualityBytes(|d.outputs|)) + EncodeValues(d, Marked(d, s), s.values, 0, rest)))
  }

  /** The sample a reader gets back. */
  function Normal(d: Descriptor, s: Sample): Sample
    requires |d.outputs| <= MAX_OUTPUTS
  {
    var flags := Marked(d, s);
    s.(quality := flags, values := seq(MAX_OUTPUTS, i requires 0 <= i < MAX_OUTPUTS =>
      if i < |d.outputs| then NormalValue(d.outputs[i].kind, s.values[i], flags[i]) else 0))
  }

  function DecodeValue(kind: nat, s: seq<Byte>, invalid: bool): Outcome<Word64> {
    var (wire, rest) :- ReadLe(s, Width(kind));
    if Coherent(kind, ReadPattern(kind, wire), invalid) then Done(ReadPattern(kind, wire), rest) else Failed(Inconsistent)
  }

  function DecodeValues(d: Descriptor, flags: Flags, s: seq<Byte>, index: nat, values: Values): Outcome<Values>
    requires index <= |d.outputs| <= MAX_OUTPUTS
    decreases |d.outputs| - index
  {
    if index == |d.outputs| then Done(values, s)
    else
      var (bits, rest) :- DecodeValue(d.outputs[index].kind, s, flags[index]);
      DecodeValues(d, flags, rest, index + 1, values[index := bits])
  }

  /** The in-memory flags of a bitmap; bytes beyond it are clear. */
  function Widen(f: seq<bool>): Flags
    requires |f| <= MAX_OUTPUTS
  {
    f + Repeat(false, MAX_OUTPUTS - |f|)
  }

  /** No bit is set beyond the outputs. */
  predicate Masked(d: Descriptor, flags: Flags) {
    forall i :: |d.outputs| <= i < MAX_OUTPUTS ==> !flags[i]
  }

  datatype Prologue = Prologue(sequence: Word64, time: Word64, flags: Flags)

  function EncodePrologue(p: Prologue, count: nat, rest: seq<Byte>): seq<Byte>
    requires count <= MAX_OUTPUTS
  {
    ToLe(p.sequence, 8) + (ToLe(p.time, 8) + (Pack(p.flags, QualityBytes(count)) + rest))
  }

  function DecodePrologue(d: Descriptor, s: seq<Byte>): Outcome<Prologue>
    requires |d.outputs| <= MAX_OUTPUTS
  {
    Pow256Values();
    if s == [] then Failed(EndOfFile)
    else
      var (sequence, s1) :- ReadLe(s, 8);
      var (time, s2) :- ReadLe(s1, 8);
      var (bitmap, s3) :- ReadBytes(s2, QualityBytes(|d.outputs|));
      var flags := Widen(Unpack(bitmap));
      if !IsFinite(time) || !Masked(d, flags) then Failed(Inconsistent) else Done(Prologue(sequence, time, flags), s3)
  }

  function DecodeRecord(d: Descriptor, s: seq<Byte>): Outcome<Sample> {
    if QualityBytes(|d.outputs|) == 0 then Failed(InvalidArgument)
    else if !Validate(d).Ok? then Failed(Validate(d))
    else
      var (p, s1) :- DecodePrologue(d, s);
      var (values, s2) :- DecodeValues(d, p.flags, s1, 0, NO_VALUES);
      Done(Sample(p.sequence, p.time, p.flags, values), s2)
  }

  /** The status of a write. */
  function RecordStatus(d: Descriptor, s: Sample): Status {
    if QualityBytes(|d.outputs|) == 0 then InvalidArgument
    else if !Validate(d).Ok? then Validate(d)
    else if !IsFinite(s.time) then Inconsistent
    else Ok
  }

  /** A record that can be written: a valid descriptor and a finite time. */
  ghost predicate Writable(d: Descriptor, s: Sample) { Valid(d) && IsFinite(s.time) }

  lemma WritableIsOk(d: Descriptor, s: Sample)
    ensures RecordStatus(d, s).Ok? <==> Writable(d, s)
  {
    ValidateIsValid(d);
  }

  lemma {:induction false} KindsAreValid(outputs: seq<Output>, previous: Option<Word32>, i: nat)
    requires ValidOutputs(outputs, previous) && i < |outputs|
    ensures ValidKind(outputs[i].kind)
    decreases i
  {
    if i > 0 {
      KindsAreValid(outputs[1..], Some(outputs[0].xmlIndex), i - 1);
    }
  }

  lemma PrologueReadsBack(d: Descriptor, p: Prologue, rest: seq<Byte>)
    requires 0 < |d.outputs| <= MAX_OUTPUTS && IsFinite(p.time) && Masked(d, p.flags)
    ensures DecodePrologue(d, EncodePrologue(p, |d.outputs|, rest)) == Done(p, rest)
  {
    hide ReadLe, ReadBytes, ToLe, Pack, Unpack;
    Pow256Values();
    var bitmap := Pack(p.flags, QualityBytes(|d.outputs|));
    var s2 := bitmap + rest;
    var s1 := ToLe(p.time, 8) + s2;
    assert ToLe(p.sequence, 8) + s1 != [];
    ReadBack(p.sequence, 8, s1);
    ReadBack(p.time, 8, s2);
    ReadBytesBack(bitmap, rest);
    UnpackPack(p.flags, |bitmap|);
    assert Widen(Unpack(bitmap)) == p.flags;
  }

  lemma PrologueIsRead(d: Descriptor, s: seq<Byte>)
    requires |d.outputs| <= MAX_OUTPUTS && DecodePrologue(d, s).Done?
    ensures var (p, rest) := DecodePrologue(d, s).Extract();
      IsFinite(p.time) && Masked(d, p.flags) && s == EncodePrologue(p, |d.outputs|, rest)
  {
    hide ReadLe, ReadBytes, ToLe, Pack, Unpack;
    var (sequence, s1) := ReadLe(s, 8).Extract();
    var (time, s2) := ReadLe(s1, 8).Extract();
    var (bitmap, s3) := ReadBytes(s2, QualityBytes(|d.outputs|)).Extract();
    PackUnpack(bitmap, Repeat(false, MAX_OUTPUTS - 8 * |bitmap|));
  }

  lemma {:induction false} ValuesReadBack(d: Descriptor, s: Sample, index: nat, rest: seq<Byte>, values: Values)
    requires Valid(d) && index <= |d.outputs|
    requires forall i :: 0 <= i < MAX_OUTPUTS && (i < index || i >= |d.outputs|) ==> values[i] == Normal(d, s).values[i]
    ensures DecodeValues(d, Marked(d, s), EncodeValues(d, Marked(d, s), s.values, index, rest), index, values) == Done(Normal(d, s).values, rest)
    decreases |d.outputs| - index
  {
    if index == |d.outputs| {
      assert values == Normal(d, s).values;
    } else {
      hide ReadLe, ToLe, WireValue, ReadPattern, Coherent, NormalValue, Representable;
      var kind, bits, invalid := d.outputs[index].kind, s.values[index], Marked(d, s)[index];
      KindsAreValid(d.outputs, None, index);
      ValueReadsBack(kind, bits, invalid);
      ReadBack(WireValue(kind, bits, invalid), Width(kind), EncodeValues(d, Marked(d, s), s.values, index + 1, rest));
      ValuesReadBack(d, s, index + 1, rest, values[index := NormalValue(kind, bits, invalid)]);
    }
  }

  /** A written record is read back as its normal form, whatever follows it. */
  lemma RecordReadsBack(d: Descriptor, s: Sample, rest: seq<Byte>)
    requires Writable(d, s)
    ensures DecodeRecord(d, EncodeRecord(d, s, rest)) == Done(Normal(d, s), rest)
  {
    hide DecodePrologue, DecodeValues, EncodeValues, ToLe, Pack;
    ValidateIsValid(d);
    var p := Prologue(s.sequence, s.time, Marked(d, s));
    var tail := EncodeValues(d, Marked(d, s), s.values, 0, rest);
    assert EncodeRecord(d, s, rest) == EncodePrologue(p, |d.outputs|, tail);
    PrologueReadsBack(d, p, tail);
    ValuesReadBack(d, s, 0, rest, NO_VALUES);
  }

  // ---- Reading what somebody else wrote ----

  /** Invalid reals carry the writer's own NaN. */
  ghost predicate Canonical(d: Descriptor, flags: Flags, values: Values, index: nat)
    requires |d.outputs| <= MAX_OUTPUTS
  {
    forall i :: index <= i < |d.outputs| && d.outputs[i].kind == REAL && flags[i] ==> values[i] == NAN_BITS
  }

  lemma OneValueIsRead(kind: nat, s: seq<Byte>, invalid: bool)
    requires ValidKind(kind) && DecodeValue(kind, s, invalid).Done?
    ensures var (bits, rest) := DecodeValue(kind, s, invalid).Extract();
      && (!invalid ==> Representable(kind, bits))
      && (!(kind == REAL && invalid && bits != NAN_BITS) ==> s == EncodeValue(kind, bits, invalid, rest))
  {
    hide ReadLe, ToLe, WireValue, ReadPattern, Coherent, Representable;
    ValueIsRead(kind, ReadLe(s, Width(kind)).value, invalid);
  }

  lemma {:induction false} ValuesAreRead(d: Descriptor, flags: Flags, s: seq<Byte>, index: nat, values: Values)
    requires Valid(d) && index <= |d.outputs| && DecodeValues(d, flags, s, index, values).Done?
    ensures var (all, rest) := DecodeValues(d, flags, s, index, values).Extract();
      && (forall i :: 0 <= i < MAX_OUTPUTS && (i < index || i >= |d.outputs|) ==> all[i] == values[i])
      && (forall i :: index <= i < |d.outputs| && !flags[i] ==> Representable(d.outputs[i].kind, all[i]))
      && (Canonical(d, flags, all, index) ==> s == EncodeValues(d, flags, all, index, rest))
    decreases |d.outputs| - index
  {
    hide DecodeValue, EncodeValue, Representable;
    if index < |d.outputs| {
      var kind := d.outputs[index].kind;
      var (bits, tail) := DecodeValue(kind, s, flags[index]).Extract();
      KindsAreValid(d.outputs, None, index);
      OneValueIsRead(kind, s, flags[index]);
      ValuesAreRead(d, flags, tail, index + 1, values[index := bits]);
    }
  }

  /** A record the reader accepts is written back byte for byte exactly if its invalid reals carry the writer's NaN. */
  lemma RecordIsRead(d: Descriptor, s: seq<Byte>)
    requires DecodeRecord(d, s).Done?
    ensures var (sample, rest) := DecodeRecord(d, s).Extract();
      && Writable(d, sample)
      && (EncodeRecord(d, sample, rest) == s <==> Canonical(d, sample.quality, sample.values, 0))
  {
    hide DecodePrologue, DecodeValues, EncodeValues, EncodePrologue, ToLe, Pack;
    ValidateIsValid(d);
    var (sample, rest) := DecodeRecord(d, s).Extract();
    var (p, tail) := DecodePrologue(d, s).Extract();
    PrologueIsRead(d, s);
    ValuesAreRead(d, p.flags, tail, 0, NO_VALUES);
    assert Marked(d, sample) == p.flags;
    RecordParts(d, sample, rest);
    if EncodeRecord(d, sample, rest) == s {
      RecordReadsBack(d, sample, rest);
      assert Normal(d, sample) == sample;
    }
  }

  lemma RecordParts(d: Descriptor, s: Sample, rest: seq<Byte>)
    requires |d.outputs| <= MAX_OUTPUTS
    ensures EncodeRecord(d, s, rest) ==
      EncodePrologue(Prologue(s.sequence, s.time, Marked(d, s)), |d.outputs|, EncodeValues(d, Marked(d, s), s.values, 0, rest))
  {
  }

  /** A record of a single real, marked invalid, with an arbitrary pattern in its place. */
  function InvalidReal(p: Prologue, bits: Word64, rest: seq<Byte>): seq<Byte> {
    EncodePrologue(p, 1, ToLe(bits, 8) + rest)
  }

  /** Another program may mark a real invalid with a NaN of its own: the reader accepts the record, the writer does not reproduce it. */
  lemma OtherNanIsRead(d: Descriptor, p: Prologue, bits: Word64, rest: seq<Byte>)
    requires Valid(d) && |d.outputs| == 1 && d.outputs[0].kind == REAL
    requires IsFinite(p.time) && Masked(d, p.flags) && p.flags[0] && IsNan(bits) && bits != NAN_BITS
    ensures var s := InvalidReal(p, bits, rest);
      var read := Sample(p.sequence, p.time, p.flags, NO_VALUES[0 := bits]);
      DecodeRecord(d, s) == Done(read, rest) && EncodeRecord(d, read, rest) != s
  {
    hide DecodePrologue, EncodePrologue, ReadLe, ToLe, EncodeRecord, Valid;
    Pow256Values();
    ValidateIsValid(d);
    PrologueReadsBack(d, p, ToLe(bits, 8) + rest);
    ReadBack(bits, 8, rest);
    assert DecodeValue(REAL, ToLe(bits, 8) + rest, true) == Done(bits, rest);
    assert DecodeValues(d, p.flags, ToLe(bits, 8) + rest, 0, NO_VALUES) == Done(NO_VALUES[0 := bits], rest);
    RecordIsRead(d, InvalidReal(p, bits, rest));
  }

  const ONE_REAL := Descriptor(Repeat<Byte>(0, SHA_SIZE), 0, 0x3ff0_0000_0000_0000, [Output(0, 0, REAL, [0x78])])

  /** Such a record: one output called x, sequence and time zero. */
  lemma OtherNansAreNotKept()
    ensures var p := Prologue(0, 0, NO_FLAGS[0 := true]);
      var s := InvalidReal(p, 0x7ff8_0000_0000_0001, []);
      var read := Sample(0, 0, p.flags, NO_VALUES[0 := 0x7ff8_0000_0000_0001]);
      Valid(ONE_REAL) && DecodeRecord(ONE_REAL, s) == Done(read, []) && EncodeRecord(ONE_REAL, read, []) != s
  {
    OneRealIsValid();
    hide DecodeRecord, EncodeRecord, InvalidReal, Valid;
    OtherNanIsRead(ONE_REAL, Prologue(0, 0, NO_FLAGS[0 := true]), 0x7ff8_0000_0000_0001, []);
  }

  lemma OneRealIsValid()
    ensures Valid(ONE_REAL)
  {
    var o := Output(0, 0, REAL, [0x78]);
    assert Utf8.FirstLength(o.name) == 1 && o.name[1..] == [];
    Utf8.AcceptsIsWellFormed(o.name);
    assert ONE_REAL.outputs == [o] && [o][1..] == [];
    assert ValidOutput(o, None);
    assert ValidOutputs([], Some(0));
    assert Exponent(0x3ff0_0000_0000_0000) == 0x3ff;
  }

  /** Reading a written record and writing it again gives the same bytes. */
  lemma RecordReencodes(d: Descriptor, s: Sample, rest: seq<Byte>)
    requires Writable(d, s)
    ensures EncodeRecord(d, Normal(d, s), rest) == EncodeRecord(d, s, rest)
  {
    hide EncodeRecord, DecodeRecord;
    RecordReadsBack(d, s, rest);
    RecordIsRead(d, EncodeRecord(d, s, rest));
  }

  // ---- Cut streams ----

  function ValuesLength(d: Descriptor, index: nat): nat
    requires index <= |d.outputs|
    decreases |d.outputs| - index
  {
    if index == |d.outputs| then 0 else Width(d.outputs[index].kind) + ValuesLength(d, index + 1)
  }

  function RecordLength(d: Descriptor): (n: nat)
    ensures n >= 16
  {
    16 + QualityBytes(|d.outputs|) + ValuesLength(d, 0)
  }

  lemma {:induction false} ValuesConsume(d: Descriptor, flags: Flags, s: seq<Byte>, index: nat, values: Values)
    requires index <= |d.outputs| <= MAX_OUTPUTS && DecodeValues(d, flags, s, index, values).Done?
    ensures |s| == ValuesLength(d, index) + |DecodeValues(d, flags, s, index, values).rest|
    decreases |d.outputs| - index
  {
    if index < |d.outputs| {
      var (bits, rest) := DecodeValue(d.outputs[index].kind, s, flags[index]).Extract();
      ValuesConsume(d, flags, rest, index + 1, values[index := bits]);
    }
  }

  /** All records of a descriptor have the same length. */
  lemma RecordConsumes(d: Descriptor, s: seq<Byte>)
    requires DecodeRecord(d, s).Done?
    ensures |s| == RecordLength(d) + |DecodeRecord(d, s).rest|
  {
    hide ToLe, DecodeValues;
    var (p, s1) := DecodePrologue(d, s).Extract();
    ValuesConsume(d, p.flags, s1, 0, NO_VALUES);
  }

  lemma ReadGrows(p: seq<Byte>, q: seq<Byte>, n: nat)
    requires n <= |p|
    ensures ReadBytes(p + q, n) == Done(p[..n], p[n..] + q)
    ensures ReadLe(p + q, n) == Done(FromLe(p[..n]), p[n..] + q)
  {
    assert (p + q)[..n] == p[..n] && (p + q)[n..] == p[n..] + q;
  }

  /** The outcome did not depend on where the input ends. */
  predicate Settled<T>(o: Outcome<T>) { o.Failed? ==> o.status != Truncated && o.status != EndOfFile }

  function Grown<T>(o: Outcome<T>, q: seq<Byte>): Outcome<T> {
    if o.Done? then Done(o.value, o.rest + q) else o
  }

  lemma {:induction false} ValuesGrow(d: Descriptor, flags: Flags, p: seq<Byte>, q: seq<Byte>, index: nat, values: Values)
    requires index <= |d.outputs| <= MAX_OUTPUTS
    requires Settled(DecodeValues(d, flags, p, index, values))
    ensures DecodeValues(d, flags, p + q, index, values) == Grown(DecodeValues(d, flags, p, index, values), q)
    decreases |d.outputs| - index
  {
    if index < |d.outputs| {
      hide ReadPattern, Coherent;
      var kind := d.outputs[index].kind;
      ReadGrows(p, q, Width(kind));
      if DecodeValue(kind, p, flags[index]).Done? {
        var (bits, rest) := DecodeValue(kind, p, flags[index]).Extract();
        ValuesGrow(d, flags, rest, q, index + 1, values[index := bits]);
      }
    }
  }

  lemma PrologueGrows(d: Descriptor, p: seq<Byte>, q: seq<Byte>)
    requires |d.outputs| <= MAX_OUTPUTS && Settled(DecodePrologue(d, p))
    ensures DecodePrologue(d, p + q) == Grown(DecodePrologue(d, p), q)
  {
    hide FromLe, Unpack, Masked;
    var n := QualityBytes(|d.outputs|);
    ReadGrows(p, q, 8);
    ReadGrows(p[8..], q, 8);
    ReadGrows(p[8..][8..], q, n);
  }

  /** More input changes nothing about a record that was read or refused for its contents. */
  lemma RecordGrows(d: Descriptor, p: seq<Byte>, q: seq<Byte>)
    requires Settled(DecodeRecord(d, p))
    ensures DecodeRecord(d, p + q) == Grown(DecodeRecord(d, p), q)
  {
    hide DecodePrologue, DecodeValues;
    ValidateFails(d);
    if QualityBytes(|d.outputs|) != 0 && Validate(d).Ok? {
      PrologueGrows(d, p, q);
      if DecodePrologue(d, p).Done? {
        var (prologue, rest) := DecodePrologue(d, p).Extract();
        ValuesGrow(d, prologue.flags, rest, q, 0, NO_VALUES);
      }
    }
  }

  lemma {:induction false} ComplaintKinds(outputs: seq<Output>, index: nat)
    requires index <= |outputs|
    ensures Complaint(outputs, index) != Truncated && Complaint(outputs, index) != EndOfFile
    decreases |outputs| - index
  {
    if index < |outputs| {
      ComplaintKinds(outputs, index + 1);
    }
  }

  lemma ValidateFails(d: Descriptor)
    ensures Validate(d) != Truncated && Validate(d) != EndOfFile
  {
    ComplaintKinds(d.outputs, 0);
  }

  lemma {:induction false} ValuesThen(d: Descriptor, flags: Flags, values: Values, index: nat, rest: seq<Byte>)
    requires index <= |d.outputs| <= MAX_OUTPUTS
    ensures EncodeValues(d, flags, values, index, rest) == EncodeValues(d, flags, values, index, []) + rest
    decreases |d.outputs| - index
  {
    if index < |d.outputs| {
      ValuesThen(d, flags, values, index + 1, rest);
    }
  }

  lemma RecordThen(d: Descriptor, s: Sample, rest: seq<Byte>)
    requires |d.outputs| <= MAX_OUTPUTS
    ensures EncodeRecord(d, s, rest) == EncodeRecord(d, s, []) + rest
  {
    hide ToLe, Pack, EncodeValues;
    ValuesThen(d, Marked(d, s), s.values, 0, rest);
  }

  /** A cut inside a record reads as a truncation, never as an inconsistency. */
  lemma CutRecordIsTruncated(d: Descriptor, s: Sample, k: nat)
    requires Writable(d, s) && 0 < k < RecordLength(d)
    ensures k <= |EncodeRecord(d, s, [])| == RecordLength(d)
    ensures DecodeRecord(d, EncodeRecord(d, s, [])[..k]) == Failed(Truncated)
  {
    hide EncodeRecord, DecodeRecord, RecordLength;
    var whole := EncodeRecord(d, s, []);
    RecordReadsBack(d, s, []);
    RecordConsumes(d, whole);
    var p, q := whole[..k], whole[k..];
    assert p + q == whole;
    if Settled(DecodeRecord(d, p)) {
      RecordGrows(d, p, q);
      RecordConsumes(d, p);
    }
    NotEndOfFile(d, p);
  }

  lemma NotEndOfFile(d: Descriptor, s: seq<Byte>)
    requires s != []
    ensures DecodeRecord(d, s) != Failed(EndOfFile)
  {
    hide ToLe;
    ValidateFails(d);
    if QualityBytes(|d.outputs|) != 0 && Validate(d).Ok? && DecodePrologue(d, s).Done? {
      var (p, rest) := DecodePrologue(d, s).Extract();
      ValuesNotEndOfFile(d, p.flags, rest, 0, NO_VALUES);
    }
  }

  lemma {:induction false} ValuesNotEndOfFile(d: Descriptor, flags: Flags, s: seq<Byte>, index: nat, values: Values)
    requires index <= |d.outputs| <= MAX_OUTPUTS
    ensures DecodeValues(d, flags, s, index, values) != Failed(EndOfFile)
    decreases |d.outputs| - index
  {
    if index < |d.outputs| && DecodeValue(d.outputs[index].kind, s, flags[index]).Done? {
      var (bits, rest) := DecodeValue(d.outputs[index].kind, s, flags[index]).Extract();
      ValuesNotEndOfFile(d, flags, rest, index + 1, values[index := bits]);
    }
  }

  function EncodeRecords(d: Descriptor, samples: seq<Sample>): seq<Byte>
    requires |d.outputs| <= MAX_OUTPUTS
  {
    if samples == [] then [] else EncodeRecord(d, samples[0], EncodeRecords(d, samples[1..]))
  }

  function Normals(d: Descriptor, samples: seq<Sample>): (normals: seq<Sample>)
    requires |d.outputs| <= MAX_OUTPUTS
    ensures |normals| == |samples|
  {
    if samples == [] then [] else [Normal(d, samples[0])] + Normals(d, samples[1..])
  }

  lemma RecordShrinks(d: Descriptor, s: seq<Byte>)
    ensures DecodeRecord(d, s).Done? ==> |DecodeRecord(d, s).rest| < |s|
  {
    if DecodeRecord(d, s).Done? {
      RecordConsumes(d, s);
    }
  }

  /** Reads records until one cannot be read; the status says why. */
  function ReadAll(d: Descriptor, s: seq<Byte>): (seq<Sample>, Status)
    decreases |s|
  {
    RecordShrinks(d, s);
    match DecodeRecord(d, s)
    case Failed(status) => ([], status)
    case Done(sample, rest) =>
      var (samples, status) := ReadAll(d, rest);
      ([sample] + samples, status)
  }

  /** How many records of length `n` fit in `k` bytes, and what is left over. */
  function Complete(k: nat, n: nat): nat
    requires n > 0
  {
    if k < n then 0 else 1 + Complete(k - n, n)
  }

  function Left(k: nat, n: nat): nat
    requires n > 0
  {
    if k < n then k else Left(k - n, n)
  }

  lemma {:induction false} CompleteIsDivision(k: nat, n: nat)
    requires n > 0
    ensures Complete(k, n) == k / n && Left(k, n) == k % n
  {
    if k >= n {
      CompleteIsDivision(k - n, n);
      DivideOnce(k, n);
    }
  }

  lemma CutInside(d: Descriptor, s: Sample, tail: seq<Byte>, k: nat)
    requires Writable(d, s) && 0 < k < RecordLength(d)
    ensures k <= |EncodeRecord(d, s, tail)|
    ensures DecodeRecord(d, EncodeRecord(d, s, tail)[..k]) == Failed(Truncated)
  {
    hide EncodeRecord, DecodeRecord, RecordLength;
    RecordThen(d, s, tail);
    CutRecordIsTruncated(d, s, k);
    assert EncodeRecord(d, s, tail)[..k] == EncodeRecord(d, s, [])[..k];
  }

  lemma CutBeyond(d: Descriptor, s: Sample, tail: seq<Byte>, k: nat)
    requires Writable(d, s) && RecordLength(d) <= k <= RecordLength(d) + |tail|
    ensures k <= |EncodeRecord(d, s, tail)|
    ensures DecodeRecord(d, EncodeRecord(d, s, tail)[..k]) == Done(Normal(d, s), tail[..k - RecordLength(d)])
  {
    hide EncodeRecord, DecodeRecord, RecordLength, Normal;
    RecordThen(d, s, tail);
    CutRecordIsTruncated(d, s, 1);
    var kept := tail[..k - RecordLength(d)];
    RecordThen(d, s, kept);
    assert EncodeRecord(d, s, tail)[..k] == EncodeRecord(d, s, kept);
    RecordReadsBack(d, s, kept);
  }

  lemma {:induction false} StreamLength(d: Descriptor, samples: seq<Sample>)
    requires |samples| > 0 && |d.outputs| <= MAX_OUTPUTS && Writable(d, samples[0])
    ensures |EncodeRecords(d, samples)| == RecordLength(d) + |EncodeRecords(d, samples[1..])|
  {
    hide EncodeRecord, RecordLength;
    RecordThen(d, samples[0], EncodeRecords(d, samples[1..]));
    CutRecordIsTruncated(d, samples[0], 1);
  }

  lemma {:induction false} CutRecords(d: Descriptor, samples: seq<Sample>, k: nat)
    requires (forall i :: 0 <= i < |samples| ==> Writable(d, samples[i])) && Valid(d)
    requires k <= |EncodeRecords(d, samples)|
    ensures var m := Complete(k, RecordLength(d));
      && m <= |samples|
      && ReadAll(d, EncodeRecords(d, samples)[..k]) == (Normals(d, samples[..m]), if Left(k, RecordLength(d)) == 0 then EndOfFile else Truncated)
    decreases |samples|
  {
    hide EncodeRecord, DecodeRecord, RecordLength, Writable, Normal;
    var n := RecordLength(d);
    if k == 0 {
      EmptyIsEndOfFile(d);
      assert samples[..0] == [];
    } else {
      var tail := EncodeRecords(d, samples[1..]);
      StreamLength(d, samples);
      if k < n {
        CutInside(d, samples[0], tail, k);
        assert samples[..0] == [];
      } else {
        CutBeyond(d, samples[0], tail, k);
        CutRecords(d, samples[1..], k - n);
        var m := Complete(k - n, n);
        assert samples[..m + 1][1..] == samples[1..][..m];
      }
    }
  }

  /**
   * Wherever a stream of records is cut, the reader returns exactly the records before the cut, in normal form,
   * and tells a cut between records from a cut inside one.
   */
  lemma CutStream(d: Descriptor, samples: seq<Sample>, k: nat)
    requires (forall i :: 0 <= i < |samples| ==> Writable(d, samples[i])) && Valid(d)
    requires k <= |EncodeRecords(d, samples)|
    ensures 0 <= k / RecordLength(d) <= |samples|
    ensures ReadAll(d, EncodeRecords(d, samples)[..k]) ==
      (Normals(d, samples[..k / RecordLength(d)]), if k % RecordLength(d) == 0 then EndOfFile else Truncated)
  {
    hide EncodeRecords, RecordLength, Normals, ReadAll, Writable;
    CompleteIsDivision(k, RecordLength(d));
    CutRecords(d, samples, k);
  }

  lemma EmptyIsEndOfFile(d: Descriptor)
    requires Valid(d)
    ensures DecodeRecord(d, []) == Failed(EndOfFile)
  {
    ValidateIsValid(d);
  }

  // ---- The codec on a stream ----

  method WriteRecord(file: Stream, d: Descriptor, s: Sample) returns (status: Status)
    modifies file`contents
    ensures status == RecordStatus(d, s) && (status.Ok? <==> Writable(d, s))
    ensures file.contents == old(file.contents) + if status.Ok? then EncodeRecord(d, s, []) else []
  {
    hide Writable;
    WritableIsOk(d, s);
    if QualityBytes(|d.outputs|) == 0 {
      return InvalidArgument;
    }
    var headerSize;
    status, headerSize := CheckDescriptor(d);
    if status != Ok || !IsFinite(s.time) {
      return if status != Ok then status else Inconsistent;
    }
    var flags: Flags := s.quality[..|d.outputs|] + Repeat(false, MAX_OUTPUTS - |d.outputs|);
    for index := 0 to |d.outputs|
      invariant forall i :: 0 <= i < MAX_OUTPUTS ==>
        flags[i] == (i < |d.outputs| && (s.quality[i] || (i < index && !Representable(d.outputs[i].kind, s.values[i]))))
    {
      if !Representable(d.outputs[index].kind, s.values[index]) {
        flags := flags[index := true];
      }
    }
    assert flags == Marked(d, s);
    hide ToLe, Pack, Marked;
    ghost var values := EncodeValues(d, flags, s.values, 0, []);
    ghost var bitmap := Pack(flags, QualityBytes(|d.outputs|)) + values;
    file.Write(ToLe(s.sequence, 8), ToLe(s.time, 8) + bitmap);
    file.Write(ToLe(s.time, 8), bitmap);
    file.Write(Pack(flags, QualityBytes(|d.outputs|)), values);
    for index := 0 to |d.outputs|
      invariant file.contents + EncodeValues(d, flags, s.values, index, []) == old(file.contents) + EncodeRecord(d, s, [])
    {
      var kind := d.outputs[index].kind;
      file.Write(ToLe(WireValue(kind, s.values[index], flags[index]), Width(kind)), EncodeValues(d, flags, s.values, index + 1, []));
    }
  }

  method ReadPrologue(file: Stream, d: Descriptor) returns (status: Status, p: Prologue)
    requires file.Readable() && |d.outputs| <= MAX_OUTPUTS
    modifies file`position
    ensures file.Readable()
    ensures status == Ok ==> DecodePrologue(d, old(file.Rest())) == Done(p, file.Rest())
    ensures status != Ok ==> DecodePrologue(d, old(file.Rest())) == Failed(status)
  {
    hide ReadLe, ReadBytes, ToLe, Unpack;
    Pow256Values();
    p := Prologue(0, 0, NO_FLAGS);
    if file.position == |file.contents| {
      return EndOfFile, p;
    }
    var sequence, time, bitmap;
    status, sequence := file.ReadNumber(8);
    if status != Ok {
      return;
    }
    status, time := file.ReadNumber(8);
    if status != Ok {
      return;
    }
    status, bitmap := file.Read(QualityBytes(|d.outputs|));
    if status != Ok {
      return;
    }
    var flags := Widen(Unpack(bitmap));
    if !IsFinite(time) || !Masked(d, flags) {
      return Inconsistent, p;
    }
    p := Prologue(sequence, time, flags);
  }

  method ReadRecord(file: Stream, d: Descriptor) returns (status: Status, s: Sample)
    requires file.Readable()
    modifies file`position
    ensures file.Readable()
    ensures status == Ok ==> DecodeRecord(d, old(file.Rest())) == Done(s, file.Rest())
    ensures status != Ok ==> DecodeRecord(d, old(file.Rest())) == Failed(status)
  {
    hide DecodePrologue, ReadLe, Coherent, ReadPattern;
    s := Sample(0, 0, NO_FLAGS, NO_VALUES);
    if QualityBytes(|d.outputs|) == 0 {
      return InvalidArgument, s;
    }
    var headerSize, p;
    status, headerSize := CheckDescriptor(d);
    if status != Ok {
      return;
    }
    status, p := ReadPrologue(file, d);
    if status != Ok {
      return;
    }
    ghost var goal := DecodeValues(d, p.flags, file.Rest(), 0, NO_VALUES);
    var values := NO_VALUES;
    for index := 0 to |d.outputs|
      invariant status == Ok && file.Readable()
      invariant DecodeValues(d, p.flags, file.Rest(), index, values) == goal
    {
      var kind := d.outputs[index].kind;
      var wire;
      ghost var before := file.Rest();
      status, wire := file.ReadNumber(Width(kind));
      if status != Ok {
        return;
      }
      var bits := ReadPattern(kind, wire);
      if !Coherent(kind, bits, p.flags[index]) {
        return Inconsistent, s;
      }
      values := values[index := bits];
    }
    s := Sample(p.sequence, p.time, p.flags, values);
  }
}
