/**
 * What the bytes of a log file mean, position by position: an account of header and records that does not go through the
 * reader, and what of a written sample survives.
 */
module LogLayout {
  import opened Arithmetic
  import opened Bytes
  import opened LogFormat
  import opened LogRecord
  import Utf8

  // ---- Limits and numbers, from the bits ----

  /** A double from its sign, exponent and fraction. */
  function Double(sign: nat, exponent: nat, fraction: nat): Word64
    requires sign < 2 && exponent < 0x800 && fraction < 0x10_0000_0000_0000
  {
    sign * 0x8000_0000_0000_0000 + exponent * 0x10_0000_0000_0000 + fraction
  }

  /** The classes of doubles by their parts: finite, not a number, and greater than zero. */
  lemma DoubleClasses(sign: nat, exponent: nat, fraction: nat)
    requires sign < 2 && exponent < 0x800 && fraction < 0x10_0000_0000_0000
    ensures var bits := Double(sign, exponent, fraction);
      && (IsFinite(bits) <==> exponent != 0x7ff)
      && (IsNan(bits) <==> exponent == 0x7ff && fraction != 0)
      && (IsPositive(bits) <==> sign == 0 && (exponent != 0 || fraction != 0))
  {
  }

  /** The demands on a descriptor outside its outputs, in terms of its count and of sign, exponent and fraction of its times. */
  lemma LimitsOfDescriptors(count: nat, startSign: nat, startExponent: nat, startFraction: nat, sign: nat, exponent: nat, fraction: nat)
    requires startSign < 2 && startExponent < 0x800 && startFraction < 0x10_0000_0000_0000
    requires sign < 2 && exponent < 0x800 && fraction < 0x10_0000_0000_0000
    ensures WithinLimits(count, Double(startSign, startExponent, startFraction), Double(sign, exponent, fraction)) <==>
      && 1 <= count <= 64 && startExponent != 0x7ff
      && exponent != 0x7ff && sign == 0 && (exponent != 0 || fraction != 0)
  {
    DoubleClasses(startSign, startExponent, startFraction);
    DoubleClasses(sign, exponent, fraction);
    hide Double, IsFinite, IsPositive;
  }

  /** The two's complement pattern of a signed 64-bit number. */
  function TwosComplement(n: int): Word64 { n % 0x1_0000_0000_0000_0000 }

  lemma DiscreteReads(n: int)
    requires -0x8000_0000_0000_0000 <= n < 0x8000_0000_0000_0000
    ensures Discrete(TwosComplement(n)) == n
  {
  }

  /** What the wire can carry: finite doubles, zero and one, and numbers of 32 signed bits. */
  predicate CanCarry(kind: nat, bits: Word64) {
    if kind == REAL then bits / 0x10_0000_0000_0000 % 0x800 != 0x7ff
    else if kind == BOOLEAN then bits % 0x100 == 0 || bits % 0x100 == 1
    else bits < 0x8000_0000 || bits >= 0x1_0000_0000_0000_0000 - 0x8000_0000
  }

  // ---- What survives ----

  /** Two patterns a reader takes for the same value of a kind. */
  predicate SameValue(kind: nat, x: Word64, y: Word64) {
    if kind == REAL then x == y
    else if kind == BOOLEAN then x % 0x100 == y % 0x100
    else Discrete(x) == Discrete(y)
  }

  /**
   * A written sample reads back with its number and time; a value is flagged exactly if the caller flagged it or the wire
   * cannot carry it, and is otherwise the value given.
   */
  lemma WrittenIsRead(d: Descriptor, s: Sample, rest: seq<Byte>, i: nat)
    requires Writable(d, s) && i < |d.outputs|
    ensures var o := DecodeRecord(d, EncodeRecord(d, s, rest)); var kind := d.outputs[i].kind;
      && o.Done? && o.rest == rest && o.value.sequence == s.sequence && o.value.time == s.time
      && i < MAX_OUTPUTS && (o.value.quality[i] <==> s.quality[i] || !CanCarry(kind, s.values[i]))
      && (!o.value.quality[i] ==> SameValue(kind, o.value.values[i], s.values[i]))
      && (o.value.quality[i] ==> if kind == REAL then IsNan(o.value.values[i]) else o.value.values[i] == 0)
  {
    hide EncodeRecord, DecodeRecord;
    RecordReadsBack(d, s, rest);
    KindsAreValid(d.outputs, None, i);
    NormalIsSame(d.outputs[i].kind, s.values[i], s.quality[i]);
  }

  lemma NormalIsSame(kind: nat, bits: Word64, flagged: bool)
    requires ValidKind(kind)
    ensures Representable(kind, bits) <==> CanCarry(kind, bits)
    ensures !flagged && CanCarry(kind, bits) ==> SameValue(kind, NormalValue(kind, bits, false), bits)
    ensures if kind == REAL then IsNan(NormalValue(kind, bits, true)) else NormalValue(kind, bits, true) == 0
  {
  }

  // ---- Where things are ----

  /** `bytes` stand at `offset`. */
  predicate At(s: seq<Byte>, offset: nat, bytes: seq<Byte>) {
    offset + |bytes| <= |s| && s[offset..offset + |bytes|] == bytes
  }

  lemma AtFront(bytes: seq<Byte>, rest: seq<Byte>)
    ensures At(bytes + rest, 0, bytes)
  {
  }

  lemma AtBehind(before: seq<Byte>, s: seq<Byte>, offset: nat, bytes: seq<Byte>)
    requires At(s, offset, bytes)
    ensures At(before + s, |before| + offset, bytes)
  {
    var all := before + s;
    assert all[|before| + offset..|before| + offset + |bytes|] == s[offset..offset + |bytes|];
  }

  /** The number at a place, least significant byte first. */
  predicate NumberAt(s: seq<Byte>, offset: nat, width: nat, v: nat) {
    offset + width <= |s| && FromLe(s[offset..offset + width]) == v
  }

  lemma NumberIsAt(s: seq<Byte>, offset: nat, width: nat, v: nat)
    requires At(s, offset, ToLe(v, width)) && v < Pow256(width)
    ensures NumberAt(s, offset, width, v)
  {
    DecodeEncodeLe(v, width);
  }

  /** A byte string is the digits of its number to the base 256, the least significant first. */
  lemma {:induction false} DigitOf(s: seq<Byte>, i: nat)
    requires i < |s|
    ensures FromLe(s) / Pow256(i) % 0x100 == s[i]
  {
    if i > 0 {
      DigitOf(s[1..], i - 1);
      NestedDivision(s[0], FromLe(s[1..]), 0x100, Pow256(i - 1));
    }
  }

  /** Dividing by a product drops what is below its first factor. */
  lemma NestedDivision(low: nat, high: nat, a: nat, b: nat)
    requires low < a && b > 0
    ensures a * b > 0 && (low + a * high) / (a * b) == high / b
  {
    var q, r := high / b, high % b;
    assert high == b * q + r;
    Distribute(a, b, q, r);
    TimesMonotone(a, 1, b);
    TimesMonotone(a, r + 1, b);
    assert a * (r + 1) == a * r + a;
    QuotientIs(low + a * high, a * b, q, a * r + low);
  }

  lemma Distribute(a: nat, b: nat, q: nat, r: nat)
    ensures a * (b * q + r) == a * b * q + a * r
  {
  }

  lemma TimesMonotone(a: nat, x: nat, y: nat)
    requires x <= y
    ensures a * x <= a * y
  {
    assert a * y == a * x + (y - x) * a;
  }

  lemma QuotientIs(k: nat, n: nat, q: nat, r: nat)
    requires n > 0 && k == n * q + r && r < n
    ensures k / n == q
  {
    assert k == q * n + r;
    ModUnique(k, n, q, r);
    assert k == k / n * n + k % n;
    assert (k / n - q) * n == 0;
    Multiple(k / n - q, n);
    Multiple(q - k / n, n);
  }

  lemma NumberBehind(before: seq<Byte>, s: seq<Byte>, offset: nat, width: nat, v: nat)
    requires NumberAt(s, offset, width, v)
    ensures NumberAt(before + s, |before| + offset, width, v)
  {
    AtBehind(before, s, offset, s[offset..offset + width]);
  }

  lemma NumberInFront(v: nat, width: nat, rest: seq<Byte>)
    requires v < Pow256(width)
    ensures NumberAt(ToLe(v, width) + rest, 0, width, v)
  {
    AtFront(ToLe(v, width), rest);
    NumberIsAt(ToLe(v, width) + rest, 0, width, v);
  }

  // ---- The header ----

  /** Where an output starts, counted from the first one. */
  function OutputOffset(outputs: seq<Output>, k: nat): nat
    requires k <= |outputs|
  {
    if k == 0 then 0 else 11 + |outputs[0].name| + OutputOffset(outputs[1..], k - 1)
  }

  predicate OutputAt(s: seq<Byte>, offset: nat, o: Output) {
    && NumberAt(s, offset, 4, o.xmlIndex) && NumberAt(s, offset + 4, 4, o.valueReference)
    && At(s, offset + 8, [o.kind % 0x100]) && NumberAt(s, offset + 9, 2, |o.name|) && At(s, offset + 11, o.name)
  }

  lemma OutputBehind(before: seq<Byte>, s: seq<Byte>, offset: nat, o: Output)
    requires OutputAt(s, offset, o)
    ensures OutputAt(before + s, |before| + offset, o)
  {
    NumberBehind(before, s, offset, 4, o.xmlIndex);
    NumberBehind(before, s, offset + 4, 4, o.valueReference);
    AtBehind(before, s, offset + 8, [o.kind % 0x100]);
    NumberBehind(before, s, offset + 9, 2, |o.name|);
    AtBehind(before, s, offset + 11, o.name);
  }

  lemma OutputInFront(o: Output, rest: seq<Byte>)
    ensures OutputAt(EncodeOutput(o, rest), 0, o)
  {
    hide At, NumberAt, ToLe, FromLe;
    Pow256Values();
    var xml, reference, kind, length := ToLe(o.xmlIndex, 4), ToLe(o.valueReference, 4), [o.kind % 0x100], ToLe(|o.name|, 2);
    var t4 := o.name + rest;
    var t3 := length + t4;
    var t2 := kind + t3;
    var t1 := reference + t2;
    NumberInFront(o.xmlIndex, 4, t1);
    NumberInFront(o.valueReference, 4, t2);
    NumberBehind(xml, t1, 0, 4, o.valueReference);
    AtFront(kind, t3);
    AtBehind(reference, t2, 0, kind);
    AtBehind(xml, t1, 4, kind);
    NumberInFront(|o.name|, 2, t4);
    NumberBehind(kind, t3, 0, 2, |o.name|);
    NumberBehind(reference, t2, 1, 2, |o.name|);
    NumberBehind(xml, t1, 5, 2, |o.name|);
    AtFront(o.name, rest);
    AtBehind(length, t4, 0, o.name);
    AtBehind(kind, t3, 2, o.name);
    AtBehind(reference, t2, 3, o.name);
    AtBehind(xml, t1, 7, o.name);
  }

  lemma {:induction false} OutputsAt(outputs: seq<Output>, rest: seq<Byte>, k: nat)
    requires k < |outputs|
    ensures OutputAt(EncodeOutputs(outputs, rest), OutputOffset(outputs, k), outputs[k])
  {
    hide OutputAt, EncodeOutput;
    var tail := EncodeOutputs(outputs[1..], rest);
    if k == 0 {
      OutputInFront(outputs[0], tail);
    } else {
      OutputsAt(outputs[1..], rest, k - 1);
      OutputSplits(outputs[0], tail);
      OutputBehind(EncodeOutput(outputs[0], []), tail, OutputOffset(outputs[1..], k - 1), outputs[k]);
    }
  }

  lemma OutputSplits(o: Output, rest: seq<Byte>)
    ensures EncodeOutput(o, rest) == EncodeOutput(o, []) + rest && |EncodeOutput(o, [])| == 11 + |o.name|
  {
    hide ToLe;
  }

  /** The header, position by position. */
  lemma HeaderLayout(d: Descriptor, rest: seq<Byte>)
    requires Valid(d)
    ensures var s := EncodeHeader(d, rest);
      && At(s, 0, MAGIC) && NumberAt(s, 8, 2, 1) && NumberAt(s, 10, 4, 66 + OutputOffset(d.outputs, |d.outputs|))
      && At(s, 14, d.sha) && NumberAt(s, 46, 8, d.tStart) && NumberAt(s, 54, 8, d.stepSize) && NumberAt(s, 62, 4, |d.outputs|)
      && |s| == 66 + OutputOffset(d.outputs, |d.outputs|) + |rest|
  {
    hide At, NumberAt, EncodeOutputs, EncodeFixed, OutputOffset, TotalSize, ValidOutputs;
    SizeIsSmall(d.outputs);
    OffsetIsSize(d.outputs);
    HeaderLength(d, rest);
    FixedLayout(Fixed(HeaderSize(d), d.sha, d.tStart, d.stepSize, |d.outputs|), EncodeOutputs(d.outputs, rest));
  }

  /** Behind the fixed part, its outputs one after another. */
  lemma HeaderOutputs(d: Descriptor, rest: seq<Byte>, k: nat)
    requires Valid(d) && k < |d.outputs|
    ensures OutputAt(EncodeHeader(d, rest), 66 + OutputOffset(d.outputs, k), d.outputs[k])
  {
    hide OutputAt, EncodeOutputs, EncodeFixed, OutputOffset, TotalSize, ValidOutputs;
    SizeIsSmall(d.outputs);
    var f := Fixed(HeaderSize(d), d.sha, d.tStart, d.stepSize, |d.outputs|);
    var outputs := EncodeOutputs(d.outputs, rest);
    FixedSplits(f, outputs);
    OutputsAt(d.outputs, rest, k);
    OutputBehind(EncodeFixed(f, []), outputs, OutputOffset(d.outputs, k), d.outputs[k]);
  }

  lemma {:induction false} OffsetIsSize(outputs: seq<Output>)
    ensures OutputOffset(outputs, |outputs|) == TotalSize(outputs)
  {
    if outputs != [] {
      OffsetIsSize(outputs[1..]);
    }
  }

  lemma FixedSplits(f: Fixed, rest: seq<Byte>)
    ensures EncodeFixed(f, rest) == EncodeFixed(f, []) + rest && |EncodeFixed(f, [])| == 66
  {
    hide ToLe;
  }

  lemma FixedLayout(f: Fixed, rest: seq<Byte>)
    ensures var s := EncodeFixed(f, rest);
      && At(s, 0, MAGIC) && NumberAt(s, 8, 2, 1) && NumberAt(s, 10, 4, f.headerSize)
      && At(s, 14, f.sha) && NumberAt(s, 46, 8, f.tStart) && NumberAt(s, 54, 8, f.stepSize) && NumberAt(s, 62, 4, f.count)
  {
    hide ToLe, FromLe;
    Pow256Values();
    var s := EncodeFixed(f, rest);
    assert s[8..10] == ToLe(VERSION, 2) && s[10..14] == ToLe(f.headerSize, 4) && s[14..46] == f.sha;
    assert s[46..54] == ToLe(f.tStart, 8) && s[54..62] == ToLe(f.stepSize, 8) && s[62..66] == ToLe(f.count, 4);
    NumberIsAt(s, 8, 2, VERSION);
    NumberIsAt(s, 10, 4, f.headerSize);
    NumberIsAt(s, 46, 8, f.tStart);
    NumberIsAt(s, 54, 8, f.stepSize);
    NumberIsAt(s, 62, 4, f.count);
  }

  // ---- A record ----

  /** Where a value starts, counted from the first one. */
  function ValueOffset(outputs: seq<Output>, k: nat): nat
    requires k <= |outputs|
  {
    if k == 0 then 0 else ValueOffset(outputs, k - 1) + Width(outputs[k - 1].kind)
  }

  /** The number on the wire: NaN or zero for a flagged value, else the double, the low byte, or the low 32 bits. */
  function OnWire(kind: nat, bits: Word64, flagged: bool): nat {
    if kind == REAL then if flagged then 0x7ff8_0000_0000_0000 else bits
    else if flagged then 0
    else if kind == BOOLEAN then bits % 0x100
    else bits % 0x1_0000_0000
  }

  /** A value is flagged if the caller flagged it or the wire cannot carry it. */
  predicate Flagged(d: Descriptor, s: Sample, i: nat)
    requires i < |d.outputs| <= MAX_OUTPUTS
  {
    s.quality[i] || !CanCarry(d.outputs[i].kind, s.values[i])
  }

  lemma MarkedIsFlagged(d: Descriptor, s: Sample, i: nat)
    requires Valid(d) && i < MAX_OUTPUTS
    ensures Marked(d, s)[i] <==> i < |d.outputs| && Flagged(d, s, i)
  {
    if i < |d.outputs| {
      KindsAreValid(d.outputs, None, i);
      NormalIsSame(d.outputs[i].kind, s.values[i], s.quality[i]);
    }
  }

  lemma BitStep(low: nat, high: nat, p: nat)
    requires low < 2 && p > 0
    ensures 2 * p > 0 && (low + 2 * high) / (2 * p) % 2 == high / p % 2
  {
    NestedDivision(low, high, 2, p);
  }

  lemma FirstBit(low: nat, high: nat)
    requires low < 2
    ensures (low + 2 * high) / 1 % 2 == low
  {
  }

  lemma {:induction false} BitOf(f: seq<bool>, i: nat)
    requires i < |f|
    ensures Pow2(i) > 0 && PackBits(f) / Pow2(i) % 2 == if f[i] then 1 else 0
  {
    var low, high := if f[0] then 1 else 0, PackBits(f[1..]);
    if i == 0 {
      FirstBit(low, high);
    } else {
      BitOf(f[1..], i - 1);
      BitStep(low, high, Pow2(i - 1));
    }
  }

  lemma {:induction false} PackedBit(f: seq<bool>, bytes: nat, i: nat)
    requires |f| >= 8 * bytes && i < 8 * bytes
    ensures Pow2(i % 8) > 0 && Pack(f, bytes)[i / 8] / Pow2(i % 8) % 2 == if f[i] then 1 else 0
  {
    hide PackBits, Pow2;
    if i < 8 {
      BitOf(f[..8], i);
      assert Pack(f, bytes)[0] == PackBits(f[..8]);
    } else {
      PackedBit(f[8..], bytes - 1, i - 8);
      assert (i - 8) % 8 == i % 8 && (i - 8) / 8 == i / 8 - 1;
      assert Pack(f, bytes)[i / 8] == Pack(f[8..], bytes - 1)[i / 8 - 1];
    }
  }

  lemma {:induction false} ValueAt(d: Descriptor, flags: Flags, values: Values, k: nat, i: nat, rest: seq<Byte>)
    requires Valid(d) && k <= i < |d.outputs|
    ensures var kind := d.outputs[i].kind;
      ValueOffset(d.outputs, k) <= ValueOffset(d.outputs, i) && WireValue(kind, values[i], flags[i]) < Pow256(Width(kind)) &&
      NumberAt(EncodeValues(d, flags, values, k, rest), ValueOffset(d.outputs, i) - ValueOffset(d.outputs, k), Width(kind), WireValue(kind, values[i], flags[i]))
    decreases i - k
  {
    hide NumberAt, WireValue, Width, ToLe;
    KindsAreValid(d.outputs, None, k);
    KindsAreValid(d.outputs, None, i);
    var kind := d.outputs[k].kind;
    WireFits(kind, values[k], flags[k]);
    WireFits(d.outputs[i].kind, values[i], flags[i]);
    var tail := EncodeValues(d, flags, values, k + 1, rest);
    var first := ToLe(WireValue(kind, values[k], flags[k]), Width(kind));
    if k == i {
      NumberInFront(WireValue(kind, values[k], flags[k]), Width(kind), tail);
    } else {
      ValueAt(d, flags, values, k + 1, i, rest);
      NumberBehind(first, tail, ValueOffset(d.outputs, i) - ValueOffset(d.outputs, k + 1), Width(d.outputs[i].kind),
                   WireValue(d.outputs[i].kind, values[i], flags[i]));
    }
  }

  lemma WireFits(kind: nat, bits: Word64, invalid: bool)
    requires ValidKind(kind)
    ensures WireValue(kind, bits, invalid) < Pow256(Width(kind))
    ensures WireValue(kind, bits, invalid) == OnWire(kind, bits, invalid)
  {
    Pow256Values();
  }

  /** A record, position by position: number, time, one quality bit per output, and each value in its width. */
  lemma RecordLayout(d: Descriptor, s: Sample, rest: seq<Byte>, i: nat)
    requires Writable(d, s) && i < |d.outputs|
    ensures var b := EncodeRecord(d, s, rest); var n := (|d.outputs| + 7) / 8; var kind := d.outputs[i].kind;
      && NumberAt(b, 0, 8, s.sequence) && NumberAt(b, 8, 8, s.time)
      && 16 + n <= |b| && Pow2(i % 8) > 0 && b[16 + i / 8] / Pow2(i % 8) % 2 == (if Flagged(d, s, i) then 1 else 0)
      && Width(kind) == (if kind == REAL then 8 else if kind == BOOLEAN then 1 else 4)
      && NumberAt(b, 16 + n + ValueOffset(d.outputs, i), Width(kind), OnWire(kind, s.values[i], Flagged(d, s, i)))
  {
    hide ToLe, FromLe, EncodeValues, Pack, Marked, Flagged, OnWire, WireValue, Width, ValueOffset, Pow2, ValidOutputs, NumberAt, QualityBytes;
    WidthOf(d.outputs[i].kind);
    var flags := Marked(d, s);
    var n := QualityBytes(|d.outputs|);
    BitmapHolds(|d.outputs|, i);
    var values := EncodeValues(d, flags, s.values, 0, rest);
    var bitmap := Pack(flags, n);
    MarkedIsFlagged(d, s, i);
    PackedBit(flags, n, i);
    KindsAreValid(d.outputs, None, i);
    WireFits(d.outputs[i].kind, s.values[i], flags[i]);
    ValueAt(d, flags, s.values, 0, i, rest);
    RecordSplits(s.sequence, s.time, bitmap, values, ValueOffset(d.outputs, i) - ValueOffset(d.outputs, 0), Width(d.outputs[i].kind),
                 OnWire(d.outputs[i].kind, s.values[i], flags[i]));
    FirstOffset(d.outputs);
  }

  lemma BitmapHolds(count: nat, i: nat)
    requires i < count <= MAX_OUTPUTS
    ensures QualityBytes(count) == (count + 7) / 8 <= 8 && i / 8 < QualityBytes(count) && i < 8 * QualityBytes(count)
  {
  }

  lemma WidthOf(kind: nat)
    ensures Width(kind) == if kind == REAL then 8 else if kind == BOOLEAN then 1 else 4
  {
  }

  lemma FirstOffset(outputs: seq<Output>)
    ensures ValueOffset(outputs, 0) == 0
  {
  }

  lemma RecordSplits(sequence: Word64, time: Word64, bitmap: seq<Byte>, values: seq<Byte>, offset: nat, width: nat, v: nat)
    requires NumberAt(values, offset, width, v)
    ensures var b := ToLe(sequence, 8) + (ToLe(time, 8) + (bitmap + values));
      && NumberAt(b, 0, 8, sequence) && NumberAt(b, 8, 8, time)
      && |b| == 16 + |bitmap| + |values| && (forall k :: 0 <= k < |bitmap| ==> b[16 + k] == bitmap[k])
      && NumberAt(b, 16 + |bitmap| + offset, width, v)
  {
    hide ToLe, FromLe, NumberAt;
    Pow256Values();
    var t2 := bitmap + values;
    var t1 := ToLe(time, 8) + t2;
    NumberInFront(sequence, 8, t1);
    NumberInFront(time, 8, t2);
    NumberBehind(ToLe(sequence, 8), t1, 0, 8, time);
    NumberBehind(bitmap, values, offset, width, v);
    NumberBehind(ToLe(time, 8), t2, |bitmap| + offset, width, v);
    NumberBehind(ToLe(sequence, 8), t1, 8 + |bitmap| + offset, width, v);
  }

  // ---- Refused headers ----

  /** The output objected to, and why: name length, encoding, type, order, looked for in this order. */
  ghost predicate IsObjection(o: Output, previous: Option<Word32>, status: Status) {
    match status
    case Limit => !(1 <= |o.name| <= 255)
    case BadUtf8 => 1 <= |o.name| <= 255 && !Utf8.WellFormed(o.name)
    case BadType => 1 <= |o.name| <= 255 && Utf8.WellFormed(o.name) && o.kind > 3
    case BadOrder => 1 <= |o.name| <= 255 && Utf8.WellFormed(o.name) && o.kind <= 3 && previous.Some? && o.xmlIndex <= previous.value
    case _ => false
  }

  function Previous(outputs: seq<Output>, k: nat): Option<Word32>
    requires k < |outputs|
  {
    if k == 0 then None else Some(outputs[k - 1].xmlIndex)
  }

  lemma {:induction false} ObjectionFrom(outputs: seq<Output>, index: nat) returns (k: nat)
    requires index <= |outputs| && !Complaint(outputs, index).Ok?
    ensures index <= k < |outputs| && IsObjection(outputs[k], Previous(outputs, k), Complaint(outputs, index))
    ensures forall j :: index <= j < k ==> ValidOutput(outputs[j], Previous(outputs, j))
    decreases |outputs| - index
  {
    hide Utf8.WellFormed, Utf8.Accepts;
    var o := outputs[index];
    Utf8.AcceptsIsWellFormed(o.name);
    if ValidOutput(o, Previous(outputs, index)) {
      k := ObjectionFrom(outputs, index + 1);
    } else {
      k := index;
    }
  }

  /** A descriptor within the limits is refused for the first output that is not valid, and for what is wrong with it. */
  lemma FirstObjection(d: Descriptor) returns (k: nat)
    requires WithinLimits(|d.outputs|, d.tStart, d.stepSize) && !Validate(d).Ok?
    ensures k < |d.outputs| && IsObjection(d.outputs[k], Previous(d.outputs, k), Validate(d))
    ensures forall j :: 0 <= j < k ==> ValidOutput(d.outputs[j], Previous(d.outputs, j))
  {
    k := ObjectionFrom(d.outputs, 0);
  }

  lemma FixedGrows(p: seq<Byte>, q: seq<Byte>)
    requires Settled(DecodeFixed(p))
    ensures DecodeFixed(p + q) == Grown(DecodeFixed(p), q)
  {
    hide FromLe;
    ReadGrows(p, q, 8);
    var p1 := p[8..];
    if p[..8] == MAGIC {
      ReadGrows(p1, q, 2);
      var p2 := p1[2..];
      if FromLe(p1[..2]) == VERSION {
        ReadGrows(p2, q, 4);
        ReadGrows(p2[4..], q, 32);
        ReadGrows(p2[4..][32..], q, 8);
        ReadGrows(p2[4..][32..][8..], q, 8);
        ReadGrows(p2[4..][32..][8..][8..], q, 4);
      }
    }
  }

  lemma OutputGrows(p: seq<Byte>, q: seq<Byte>, consumed: nat, headerSize: nat, previous: Option<Word32>)
    requires Settled(DecodeOutput(p, consumed, headerSize, previous))
    ensures DecodeOutput(p + q, consumed, headerSize, previous) == Grown(DecodeOutput(p, consumed, headerSize, previous), q)
  {
    hide FromLe, Utf8.Accepts;
    ReadGrows(p, q, 4);
    ReadGrows(p[4..], q, 4);
    ReadGrows(p[4..][4..], q, 1);
    ReadGrows(p[4..][4..][1..], q, 2);
    var nameSize, tail := FromLe(p[4..][4..][1..][..2]), p[4..][4..][1..][2..];
    if nameSize <= |tail| {
      ReadGrows(tail, q, nameSize);
    }
  }

  lemma {:induction false} OutputsGrow(p: seq<Byte>, q: seq<Byte>, remaining: nat, consumed: nat, headerSize: nat, read: seq<Output>)
    requires Settled(DecodeOutputs(p, remaining, consumed, headerSize, read))
    ensures DecodeOutputs(p + q, remaining, consumed, headerSize, read) == Grown(DecodeOutputs(p, remaining, consumed, headerSize, read), q)
    decreases remaining
  {
    hide DecodeOutput;
    if remaining > 0 {
      var previous := LastIndex(read);
      OutputGrows(p, q, consumed, headerSize, previous);
      if DecodeOutput(p, consumed, headerSize, previous).Done? {
        var (o, rest) := DecodeOutput(p, consumed, headerSize, previous).Extract();
        OutputsGrow(rest, q, remaining - 1, consumed + Size(o), headerSize, read + [o]);
      }
    }
  }

  /** More input changes nothing about a header that was read or refused for its contents. */
  lemma HeaderGrows(p: seq<Byte>, q: seq<Byte>)
    requires Settled(DecodeHeader(p))
    ensures DecodeHeader(p + q) == Grown(DecodeHeader(p), q)
  {
    hide DecodeFixed, DecodeOutputs;
    FixedGrows(p, q);
    if DecodeFixed(p).Done? {
      var (f, rest) := DecodeFixed(p).Extract();
      if f.headerSize >= FIXED_HEADER_SIZE && WithinLimits(f.count, f.tStart, f.stepSize) {
        OutputsGrow(rest, q, f.count, FIXED_HEADER_SIZE, f.headerSize, []);
      }
    }
  }

  lemma OutputNeverEnds(s: seq<Byte>, consumed: nat, headerSize: nat, previous: Option<Word32>)
    ensures DecodeOutput(s, consumed, headerSize, previous) != Failed(EndOfFile)
  {
    hide FromLe, Utf8.Accepts;
  }

  lemma {:induction false} OutputsNeverEnd(s: seq<Byte>, remaining: nat, consumed: nat, headerSize: nat, read: seq<Output>)
    ensures DecodeOutputs(s, remaining, consumed, headerSize, read) != Failed(EndOfFile)
    decreases remaining
  {
    hide DecodeOutput;
    if remaining > 0 {
      OutputNeverEnds(s, consumed, headerSize, LastIndex(read));
    }
    if remaining > 0 && DecodeOutput(s, consumed, headerSize, LastIndex(read)).Done? {
      var (o, rest) := DecodeOutput(s, consumed, headerSize, LastIndex(read)).Extract();
      OutputsNeverEnd(rest, remaining - 1, consumed + Size(o), headerSize, read + [o]);
    }
  }

  lemma HeaderNeverEnds(s: seq<Byte>)
    ensures DecodeHeader(s) != Failed(EndOfFile)
  {
    hide DecodeOutputs, FromLe;
    if DecodeFixed(s).Done? {
      var (f, rest) := DecodeFixed(s).Extract();
      OutputsNeverEnd(rest, f.count, FIXED_HEADER_SIZE, f.headerSize, []);
    }
  }

  /** A header cut anywhere, even to nothing, reads as truncated. */
  lemma CutHeaderIsTruncated(d: Descriptor, k: nat)
    requires Valid(d) && k < HeaderSize(d)
    ensures k <= |EncodeHeader(d, [])|
    ensures DecodeHeader(EncodeHeader(d, [])[..k]) == Failed(Truncated)
  {
    hide EncodeHeader, DecodeHeader, ValidOutputs;
    var s := EncodeHeader(d, []);
    HeaderLength(d, []);
    HeaderReadsBack(d, []);
    var p, q := s[..k], s[k..];
    assert p + q == s;
    if Settled(DecodeHeader(p)) {
      HeaderGrows(p, q);
    }
    HeaderNeverEnds(p);
  }

  /** The first eight bytes and the version decide before anything else. */
  lemma WrongMagicOrVersion(s: seq<Byte>)
    ensures |s| >= 8 && !At(s, 0, MAGIC) ==> DecodeHeader(s) == Failed(BadMagic)
    ensures |s| >= 10 && At(s, 0, MAGIC) && !NumberAt(s, 8, 2, 1) ==> DecodeHeader(s) == Failed(BadVersion)
  {
    hide FromLe, DecodeOutputs;
    if |s| >= 10 {
      assert s[8..][..2] == s[8..10];
    }
  }

  // ---- Refused records ----

  lemma {:induction false} LongValuesAreDecided(d: Descriptor, flags: Flags, s: seq<Byte>, index: nat, values: Values)
    requires index <= |d.outputs| <= MAX_OUTPUTS && |s| >= ValuesLength(d, index)
    ensures var o := DecodeValues(d, flags, s, index, values); o.Done? || o.status == Inconsistent
    decreases |d.outputs| - index
  {
    hide ReadPattern, Coherent, FromLe;
    if index < |d.outputs| {
      var o := DecodeValue(d.outputs[index].kind, s, flags[index]);
      if o.Done? {
        LongValuesAreDecided(d, flags, o.rest, index + 1, values[index := o.value]);
      }
    }
  }

  /** With enough bytes for a record, the reader takes it or calls it inconsistent; nothing else can go wrong. */
  lemma LongRecordIsDecided(d: Descriptor, s: seq<Byte>)
    requires Valid(d) && |s| >= RecordLength(d)
    ensures var o := DecodeRecord(d, s); o.Done? || o.status == Inconsistent
  {
    ValidateIsValid(d);
    hide DecodeValues, Valid, Masked, Unpack, FromLe;
    var o := DecodePrologue(d, s);
    if o.Done? {
      LongValuesAreDecided(d, o.value.flags, o.rest, 0, NO_VALUES);
    }
  }
}
