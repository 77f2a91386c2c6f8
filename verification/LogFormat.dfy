/** The log file header: its byte codec, validation, and the stream the codec reads and writes. */
module LogFormat {
  import opened Bytes
  import Utf8

  const MAGIC: seq<Byte> := [0x4d, 0x48, 0x49, 0x4c, 0x4c, 0x4f, 0x47, 0x31]
  const VERSION := 1
  const FIXED_HEADER_SIZE := 66
  const SHA_SIZE := 32
  const MAX_OUTPUTS := 64
  const NAME_BUFFER := 256

  datatype Status =
    | Ok | EndOfFile | Truncated | BadMagic | BadVersion | BadHeaderSize | Limit | Overflow | BadType | BadOrder | BadUtf8 | Inconsistent | InvalidArgument

  // ---- Values ----

  /** Doubles are 64-bit patterns: eleven exponent bits above fifty-two fraction bits, the sign on top. */
  function Exponent(bits: Word64): nat { bits / 0x10_0000_0000_0000 % 0x800 }

  predicate IsFinite(bits: Word64) { Exponent(bits) != 0x7ff }

  predicate IsNan(bits: Word64) { Exponent(bits) == 0x7ff && bits % 0x10_0000_0000_0000 != 0 }

  /** Greater than zero, for a pattern that is finite: the sign is clear and some other bit is set. */
  predicate IsPositive(bits: Word64) { 0 < bits < 0x8000_0000_0000_0000 }

  const REAL := 0
  const INTEGER := 1
  const BOOLEAN := 2
  const ENUMERATION := 3

  /** The bytes a name buffer holds before its first NUL; a buffer without NUL gives all its bytes. */
  type Name = s: seq<Byte> | |s| <= NAME_BUFFER && 0 !in s

  datatype Output = Output(xmlIndex: Word32, valueReference: Word32, kind: nat, name: Name)

  type Sha = s: seq<Byte> | |s| == SHA_SIZE witness seq(32, i => 0)

  /** `outputs` has as many entries as the descriptor's count says. */
  datatype Descriptor = Descriptor(sha: Sha, tStart: Word64, stepSize: Word64, outputs: seq<Output>)

  // ---- Reading ----

  datatype Outcome<+T> = Done(value: T, rest: seq<Byte>) | Failed(status: Status) {
    predicate IsFailure() { Failed? }

    function PropagateFailure<U>(): Outcome<U>
      requires Failed?
    {
      Failed(status)
    }

    function Extract(): (T, seq<Byte>)
      requires Done?
    {
      (value, rest)
    }
  }

  function ReadBytes(s: seq<Byte>, n: nat): (o: Outcome<seq<Byte>>)
    ensures o.Done? ==> |o.value| == n && s == o.value + o.rest
  {
    if n <= |s| then Done(s[..n], s[n..]) else Failed(Truncated)
  }

  function ReadLe(s: seq<Byte>, width: nat): (o: Outcome<nat>)
    ensures o.Done? ==> s == ToLe(o.value, width) + o.rest && o.value < Pow256(width)
  {
    if width <= |s| then EncodeDecodeLe(s[..width]); Done(FromLe(s[..width]), s[width..]) else Failed(Truncated)
  }

  /** Reading back what was written, with anything after it. */
  lemma ReadBack(v: nat, width: nat, rest: seq<Byte>)
    requires v < Pow256(width)
    ensures ReadLe(ToLe(v, width) + rest, width) == Done(v, rest)
  {
    var s := ToLe(v, width) + rest;
    assert s[..width] == ToLe(v, width) && s[width..] == rest;
    DecodeEncodeLe(v, width);
  }

  lemma ReadBytesBack(bytes: seq<Byte>, rest: seq<Byte>)
    ensures ReadBytes(bytes + rest, |bytes|) == Done(bytes, rest)
  {
    assert (bytes + rest)[..|bytes|] == bytes && (bytes + rest)[|bytes|..] == rest;
  }

  // ---- The fixed part ----

  datatype Fixed = Fixed(headerSize: Word32, sha: Sha, tStart: Word64, stepSize: Word64, count: Word32)

  function EncodeFixed(f: Fixed, rest: seq<Byte>): seq<Byte> {
    MAGIC + (ToLe(VERSION, 2) + (ToLe(f.headerSize, 4) + (f.sha + (ToLe(f.tStart, 8) + (ToLe(f.stepSize, 8) + (ToLe(f.count, 4) + rest))))))
  }

  function DecodeFixed(s: seq<Byte>): Outcome<Fixed> {
    Pow256Values();
    var (magic, s1) :- ReadBytes(s, 8);
    if magic != MAGIC then Failed(BadMagic) else
    var (version, s2) :- ReadLe(s1, 2);
    if version != VERSION then Failed(BadVersion) else
    var (headerSize, s3) :- ReadLe(s2, 4);
    var (sha, s4) :- ReadBytes(s3, SHA_SIZE);
    var (tStart, s5) :- ReadLe(s4, 8);
    var (stepSize, s6) :- ReadLe(s5, 8);
    var (count, s7) :- ReadLe(s6, 4);
    Done(Fixed(headerSize, sha, tStart, stepSize, count), s7)
  }

  lemma FixedReadsBack(f: Fixed, rest: seq<Byte>)
    ensures DecodeFixed(EncodeFixed(f, rest)) == Done(f, rest)
  {
    hide ReadLe, ReadBytes, ToLe;
    Pow256Values();
    var s7 := ToLe(f.count, 4) + rest;
    var s6 := ToLe(f.stepSize, 8) + s7;
    var s5 := ToLe(f.tStart, 8) + s6;
    var s4 := f.sha + s5;
    var s3 := ToLe(f.headerSize, 4) + s4;
    var s2 := ToLe(VERSION, 2) + s3;
    ReadBytesBack(MAGIC, s2);
    ReadBack(VERSION, 2, s3);
    ReadBack(f.headerSize, 4, s4);
    ReadBytesBack(f.sha, s5);
    ReadBack(f.tStart, 8, s6);
    ReadBack(f.stepSize, 8, s7);
    ReadBack(f.count, 4, rest);
  }

  lemma FixedIsRead(s: seq<Byte>)
    requires DecodeFixed(s).Done?
    ensures s == EncodeFixed(DecodeFixed(s).value, DecodeFixed(s).rest)
  {
    hide ReadLe, ReadBytes, ToLe;
  }

  // ---- The outputs ----

  predicate ValidKind(kind: nat) { kind <= ENUMERATION }

  /** What the header format demands of one output, given the index before it. */
  ghost predicate ValidOutput(o: Output, previous: Option<Word32>) {
    && 0 < |o.name| < NAME_BUFFER && Utf8.WellFormed(o.name)
    && ValidKind(o.kind)
    && (previous.Some? ==> previous.value < o.xmlIndex)
  }

  function LastIndex(outputs: seq<Output>): Option<Word32> {
    if outputs == [] then None else Some(outputs[|outputs| - 1].xmlIndex)
  }

  function Size(o: Output): nat { 11 + |o.name| }

  function TotalSize(outputs: seq<Output>): nat {
    if outputs == [] then 0 else Size(outputs[0]) + TotalSize(outputs[1..])
  }

  /** Every output is valid and their indices strictly increase after `previous`. */
  ghost predicate ValidOutputs(outputs: seq<Output>, previous: Option<Word32>)
    decreases |outputs|
  {
    outputs == [] || (ValidOutput(outputs[0], previous) && ValidOutputs(outputs[1..], Some(outputs[0].xmlIndex)))
  }

  function EncodeOutput(o: Output, rest: seq<Byte>): seq<Byte> {
    ToLe(o.xmlIndex, 4) + (ToLe(o.valueReference, 4) + ([o.kind % 0x100] + (ToLe(|o.name|, 2) + (o.name + rest))))
  }

  function EncodeOutputs(outputs: seq<Output>, rest: seq<Byte>): seq<Byte> {
    if outputs == [] then rest else EncodeOutput(outputs[0], EncodeOutputs(outputs[1..], rest))
  }

  /** Reads one output after `consumed` header bytes; fails as soon as it would pass `headerSize`. */
  function DecodeOutput(s: seq<Byte>, consumed: nat, headerSize: nat, previous: Option<Word32>): Outcome<Output> {
    Pow256Values();
    var (xmlIndex, s1) :- ReadLe(s, 4);
    var (valueReference, s2) :- ReadLe(s1, 4);
    var (kind, s3) :- ReadBytes(s2, 1);
    var (nameSize, s4) :- ReadLe(s3, 2);
    if consumed + 11 + nameSize > headerSize then Failed(BadHeaderSize)
    else if nameSize == 0 || nameSize > NAME_BUFFER - 1 then Failed(Limit)
    else if !ValidKind(kind[0]) then Failed(BadType)
    else if previous.Some? && xmlIndex <= previous.value then Failed(BadOrder)
    else
      var (name, s5) :- ReadBytes(s4, nameSize);
      if !Utf8.Accepts(name) then Failed(BadUtf8)
      else
        Utf8.AcceptedHasNoNul(name);
        Done(Output(xmlIndex, valueReference, kind[0], name), s5)
  }

  function DecodeOutputs(s: seq<Byte>, remaining: nat, consumed: nat, headerSize: nat, read: seq<Output>): Outcome<seq<Output>>
    decreases remaining
  {
    if remaining == 0 then if consumed != headerSize then Failed(BadHeaderSize) else Done(read, s)
    else
      var (output, rest) :- DecodeOutput(s, consumed, headerSize, LastIndex(read));
      DecodeOutputs(rest, remaining - 1, consumed + Size(output), headerSize, read + [output])
  }

  lemma OutputReadsBack(o: Output, rest: seq<Byte>, consumed: nat, headerSize: nat, previous: Option<Word32>)
    requires ValidOutput(o, previous) && consumed + Size(o) <= headerSize
    ensures DecodeOutput(EncodeOutput(o, rest), consumed, headerSize, previous) == Done(o, rest)
  {
    hide ReadLe, ReadBytes, ToLe, Utf8.WellFormed, Utf8.Accepts;
    Pow256Values();
    Utf8.AcceptsIsWellFormed(o.name);
    var s4 := o.name + rest;
    var s3 := ToLe(|o.name|, 2) + s4;
    var s2 := [o.kind % 0x100] + s3;
    var s1 := ToLe(o.valueReference, 4) + s2;
    ReadBack(o.xmlIndex, 4, s1);
    ReadBack(o.valueReference, 4, s2);
    ReadBytesBack([o.kind % 0x100], s3);
    ReadBack(|o.name|, 2, s4);
    ReadBytesBack(o.name, rest);
  }

  lemma OutputIsRead(s: seq<Byte>, consumed: nat, headerSize: nat, previous: Option<Word32>)
    requires DecodeOutput(s, consumed, headerSize, previous).Done?
    ensures var (o, rest) := DecodeOutput(s, consumed, headerSize, previous).Extract();
      ValidOutput(o, previous) && consumed + Size(o) <= headerSize && s == EncodeOutput(o, rest)
  {
    hide ReadLe, ReadBytes, ToLe, Utf8.WellFormed, Utf8.Accepts;
    var (o, rest) := DecodeOutput(s, consumed, headerSize, previous).Extract();
    Utf8.AcceptsIsWellFormed(o.name);
    var (kind, s3) := ReadBytes(ReadLe(ReadLe(s, 4).rest, 4).rest, 1).Extract();
    assert kind == [kind[0]];
  }

  lemma {:induction false} OutputsReadBack(outputs: seq<Output>, rest: seq<Byte>, consumed: nat, headerSize: nat, read: seq<Output>)
    requires ValidOutputs(outputs, LastIndex(read)) && consumed + TotalSize(outputs) == headerSize
    ensures DecodeOutputs(EncodeOutputs(outputs, rest), |outputs|, consumed, headerSize, read) == Done(read + outputs, rest)
    decreases |outputs|
  {
    hide DecodeOutput, EncodeOutput, ValidOutput;
    if outputs == [] {
      assert read + outputs == read;
    } else {
      var o := outputs[0];
      OutputReadsBack(o, EncodeOutputs(outputs[1..], rest), consumed, headerSize, LastIndex(read));
      OutputsReadBack(outputs[1..], rest, consumed + Size(o), headerSize, read + [o]);
      assert (read + [o]) + outputs[1..] == read + outputs;
    }
  }

  lemma {:induction false} OutputsAreRead(s: seq<Byte>, remaining: nat, consumed: nat, headerSize: nat, read: seq<Output>)
    requires DecodeOutputs(s, remaining, consumed, headerSize, read).Done?
    ensures var (all, rest) := DecodeOutputs(s, remaining, consumed, headerSize, read).Extract();
      && |all| == |read| + remaining && read <= all
      && var outputs := all[|read|..];
      && ValidOutputs(outputs, LastIndex(read))
      && consumed + TotalSize(outputs) == headerSize
      && s == EncodeOutputs(outputs, rest)
    decreases remaining
  {
    hide DecodeOutput, EncodeOutput, ValidOutput;
    var (all, rest) := DecodeOutputs(s, remaining, consumed, headerSize, read).Extract();
    if remaining > 0 {
      var (o, s1) := DecodeOutput(s, consumed, headerSize, LastIndex(read)).Extract();
      OutputIsRead(s, consumed, headerSize, LastIndex(read));
      OutputsAreRead(s1, remaining - 1, consumed + Size(o), headerSize, read + [o]);
      assert all[|read|] == (read + [o])[|read|] == o;
      assert all[|read|..][1..] == all[|read| + 1..];
    }
  }

  // ---- The whole header ----

  /** The demands on a descriptor outside its outputs. */
  predicate WithinLimits(count: nat, tStart: Word64, stepSize: Word64) {
    0 < count <= MAX_OUTPUTS && IsFinite(tStart) && IsFinite(stepSize) && IsPositive(stepSize)
  }

  ghost predicate Valid(d: Descriptor) {
    WithinLimits(|d.outputs|, d.tStart, d.stepSize) && ValidOutputs(d.outputs, None)
  }

  function HeaderSize(d: Descriptor): nat { FIXED_HEADER_SIZE + TotalSize(d.outputs) }

  lemma {:induction false} SizeIsSmall(outputs: seq<Output>)
    ensures TotalSize(outputs) <= |outputs| * (11 + NAME_BUFFER)
  {
    if outputs != [] {
      SizeIsSmall(outputs[1..]);
    }
  }

  /** The header of a valid descriptor, followed by `rest`. */
  function EncodeHeader(d: Descriptor, rest: seq<Byte>): seq<Byte>
    requires |d.outputs| <= MAX_OUTPUTS
  {
    SizeIsSmall(d.outputs);
    EncodeFixed(Fixed(HeaderSize(d), d.sha, d.tStart, d.stepSize, |d.outputs|), EncodeOutputs(d.outputs, rest))
  }

  function DecodeHeader(s: seq<Byte>): Outcome<Descriptor> {
    var (f, s1) :- DecodeFixed(s);
    if f.headerSize < FIXED_HEADER_SIZE then Failed(BadHeaderSize)
    else if !WithinLimits(f.count, f.tStart, f.stepSize) then Failed(Limit)
    else
      var (outputs, s2) :- DecodeOutputs(s1, f.count, FIXED_HEADER_SIZE, f.headerSize, []);
      Done(Descriptor(f.sha, f.tStart, f.stepSize, outputs), s2)
  }

  /** Decoding inverts encoding, and leaves what follows the header untouched. */
  lemma HeaderReadsBack(d: Descriptor, rest: seq<Byte>)
    requires Valid(d)
    ensures DecodeHeader(EncodeHeader(d, rest)) == Done(d, rest)
  {
    hide DecodeFixed, EncodeFixed, DecodeOutputs, EncodeOutputs, ValidOutputs;
    SizeIsSmall(d.outputs);
    FixedReadsBack(Fixed(HeaderSize(d), d.sha, d.tStart, d.stepSize, |d.outputs|), EncodeOutputs(d.outputs, rest));
    OutputsReadBack(d.outputs, rest, FIXED_HEADER_SIZE, HeaderSize(d), []);
    assert [] + d.outputs == d.outputs;
  }

  /** Whatever the reader accepts is the encoding of the valid descriptor it returns. */
  lemma HeaderIsRead(s: seq<Byte>)
    requires DecodeHeader(s).Done?
    ensures var (d, rest) := DecodeHeader(s).Extract();
      Valid(d) && s == EncodeHeader(d, rest)
  {
    hide DecodeFixed, EncodeFixed, DecodeOutputs, EncodeOutputs, ValidOutputs;
    var (f, s1) := DecodeFixed(s).Extract();
    FixedIsRead(s);
    OutputsAreRead(s1, f.count, FIXED_HEADER_SIZE, f.headerSize, []);
    var (d, _) := DecodeHeader(s).Extract();
    assert d.outputs[0..] == d.outputs;
  }

  /** The reader accepts exactly the byte strings that start with the header of a valid descriptor, and finds that descriptor. */
  lemma HeaderCodecIsBijection(s: seq<Byte>, d: Descriptor, rest: seq<Byte>)
    ensures DecodeHeader(s) == Done(d, rest) <==> Valid(d) && s == EncodeHeader(d, rest)
  {
    if DecodeHeader(s) == Done(d, rest) {
      HeaderIsRead(s);
    }
    if Valid(d) && s == EncodeHeader(d, rest) {
      HeaderReadsBack(d, rest);
    }
  }

  lemma {:induction false} OutputsLength(outputs: seq<Output>, rest: seq<Byte>)
    ensures |EncodeOutputs(outputs, rest)| == TotalSize(outputs) + |rest|
    decreases |outputs|
  {
    if outputs != [] {
      OutputsLength(outputs[1..], rest);
    }
  }

  /** The size field tells how many bytes the header has. */
  lemma HeaderLength(d: Descriptor, rest: seq<Byte>)
    requires |d.outputs| <= MAX_OUTPUTS
    ensures |EncodeHeader(d, rest)| == HeaderSize(d) + |rest|
  {
    OutputsLength(d.outputs, rest);
  }

  // ---- Validation ----

  /** The first complaint about the outputs from `index` on, in the order the check looks for them. */
  function Complaint(outputs: seq<Output>, index: nat): Status
    requires index <= |outputs|
    decreases |outputs| - index
  {
    if index == |outputs| then Ok
    else
      var o := outputs[index];
      if |o.name| == 0 || |o.name| == NAME_BUFFER then Limit
      else if !Utf8.Accepts(o.name) then BadUtf8
      else if !ValidKind(o.kind) then BadType
      else if index > 0 && o.xmlIndex <= outputs[index - 1].xmlIndex then BadOrder
      else Complaint(outputs, index + 1)
  }

  function Validate(d: Descriptor): Status {
    if !WithinLimits(|d.outputs|, d.tStart, d.stepSize) then Limit else Complaint(d.outputs, 0)
  }

  lemma {:induction false} NoComplaint(outputs: seq<Output>, index: nat)
    requires index <= |outputs|
    ensures Complaint(outputs, index).Ok? <==> ValidOutputs(outputs[index..], LastIndex(outputs[..index]))
    decreases |outputs| - index
  {
    if index < |outputs| {
      hide Utf8.Accepts, Utf8.WellFormed;
      Utf8.AcceptsIsWellFormed(outputs[index].name);
      NoComplaint(outputs, index + 1);
      assert outputs[index..][1..] == outputs[index + 1..];
      assert LastIndex(outputs[..index + 1]) == Some(outputs[index].xmlIndex);
    }
  }

  /** The check passes exactly the valid descriptors. */
  lemma ValidateIsValid(d: Descriptor)
    ensures Validate(d).Ok? <==> Valid(d)
  {
    NoComplaint(d.outputs, 0);
    assert d.outputs[0..] == d.outputs;
  }

  /** Never fails with an overflow: the branch is there, but sixty-four outputs cannot reach it. */
  method CheckDescriptor(d: Descriptor) returns (status: Status, headerSize: nat)
    ensures status == Validate(d) && status != Overflow
    ensures status.Ok? ==> headerSize == HeaderSize(d)
  {
    headerSize := FIXED_HEADER_SIZE;
    if !WithinLimits(|d.outputs|, d.tStart, d.stepSize) {
      return Limit, 0;
    }
    assert d.outputs[0..] == d.outputs;
    for index := 0 to |d.outputs|
      invariant Complaint(d.outputs, index) == Complaint(d.outputs, 0)
      invariant headerSize + TotalSize(d.outputs[index..]) == HeaderSize(d)
    {
      var o := d.outputs[index];
      if |o.name| == 0 || |o.name| == NAME_BUFFER {
        return Limit, 0;
      }
      var valid := Utf8.IsValid(o.name);
      if !valid {
        return BadUtf8, 0;
      }
      if !ValidKind(o.kind) {
        return BadType, 0;
      }
      if index > 0 && o.xmlIndex <= d.outputs[index - 1].xmlIndex {
        return BadOrder, 0;
      }
      assert d.outputs[index..][1..] == d.outputs[index + 1..];
      headerSize := headerSize + (11 + |o.name|);
      SizeIsSmall(d.outputs);
      if headerSize > 0xffff_ffff {
        status := Overflow;
        return;
      }
    }
    status := Ok;
  }

  // ---- Streams ----

  /** A file: everything written to it, and how much of it has been read. Operations on it do not fail. */
  class Stream {
    var contents: seq<Byte>
    var position: nat

    constructor (bytes: seq<Byte>)
      ensures contents == bytes && position == 0
    {
      contents, position := bytes, 0;
    }

    ghost predicate Readable()
      reads this
    {
      position <= |contents|
    }

    ghost function Rest(): seq<Byte>
      requires Readable()
      reads this
    {
      contents[position..]
    }

    /** Appends bytes; `rest` is what the caller has still to append. */
    method Write(bytes: seq<Byte>, ghost rest: seq<Byte>)
      modifies this`contents
      ensures contents == old(contents) + bytes
      ensures contents + rest == old(contents) + (bytes + rest)
    {
      contents := contents + bytes;
    }

    /** Reads `count` bytes, or whatever is left when that is less. */
    method Read(count: nat) returns (status: Status, bytes: seq<Byte>)
      requires Readable()
      modifies this`position
      ensures Readable()
      ensures status == Ok ==> ReadBytes(old(Rest()), count) == Done(bytes, Rest())
      ensures status != Ok ==> status == Truncated && ReadBytes(old(Rest()), count) == Failed(Truncated)
    {
      if position + count <= |contents| {
        bytes := contents[position..position + count];
        position := position + count;
        status := Ok;
        assert bytes == old(Rest())[..count] && Rest() == old(Rest())[count..];
      } else {
        bytes := contents[position..];
        position := |contents|;
        status := Truncated;
      }
    }

    method ReadNumber(width: nat) returns (status: Status, value: nat)
      requires Readable()
      modifies this`position
      ensures Readable()
      ensures status == Ok ==> ReadLe(old(Rest()), width) == Done(value, Rest())
      ensures status != Ok ==> status == Truncated && ReadLe(old(Rest()), width) == Failed(Truncated)
    {
      var bytes;
      status, bytes := Read(width);
      value := 0;
      if status == Ok {
        value := FromLe(bytes);
      }
    }
  }

  method WriteHeader(file: Stream, d: Descriptor) returns (status: Status)
    modifies file`contents
    ensures status == Validate(d)
    ensures file.contents == old(file.contents) + if status.Ok? then EncodeHeader(d, []) else []
  {
    var headerSize;
    status, headerSize := CheckDescriptor(d);
    if status != Ok {
      return;
    }
    SizeIsSmall(d.outputs);
    WriteFixed(file, Fixed(headerSize, d.sha, d.tStart, d.stepSize, |d.outputs|), EncodeOutputs(d.outputs, []));
    assert d.outputs[0..] == d.outputs;
    for index := 0 to |d.outputs|
      invariant file.contents + EncodeOutputs(d.outputs[index..], []) == old(file.contents) + EncodeHeader(d, [])
    {
      assert d.outputs[index..][1..] == d.outputs[index + 1..];
      WriteOutput(file, d.outputs[index], EncodeOutputs(d.outputs[index + 1..], []));
    }
  }

  method WriteFixed(file: Stream, f: Fixed, ghost rest: seq<Byte>)
    modifies file`contents
    ensures file.contents + rest == old(file.contents) + EncodeFixed(f, rest)
  {
    hide ToLe;
    ghost var s6 := ToLe(f.count, 4) + rest;
    ghost var s5 := ToLe(f.stepSize, 8) + s6;
    ghost var s4 := ToLe(f.tStart, 8) + s5;
    ghost var s3 := f.sha + s4;
    ghost var s2 := ToLe(f.headerSize, 4) + s3;
    file.Write(MAGIC, ToLe(VERSION, 2) + s2);
    file.Write(ToLe(VERSION, 2), s2);
    file.Write(ToLe(f.headerSize, 4), s3);
    file.Write(f.sha, s4);
    file.Write(ToLe(f.tStart, 8), s5);
    file.Write(ToLe(f.stepSize, 8), s6);
    file.Write(ToLe(f.count, 4), rest);
  }

  method WriteOutput(file: Stream, o: Output, ghost rest: seq<Byte>)
    modifies file`contents
    ensures file.contents + rest == old(file.contents) + EncodeOutput(o, rest)
  {
    hide ToLe;
    ghost var s3 := ToLe(|o.name|, 2) + (o.name + rest);
    ghost var s2 := [o.kind % 0x100] + s3;
    file.Write(ToLe(o.xmlIndex, 4), ToLe(o.valueReference, 4) + s2);
    file.Write(ToLe(o.valueReference, 4), s2);
    file.Write([o.kind % 0x100], s3);
    file.Write(ToLe(|o.name|, 2), o.name + rest);
    file.Write(o.name, rest);
  }

  /** Reads and checks the fixed part. */
  method ReadFixed(file: Stream) returns (status: Status, f: Fixed)
    requires file.Readable()
    modifies file`position
    ensures file.Readable()
    ensures status == Ok ==> DecodeFixed(old(file.Rest())) == Done(f, file.Rest())
    ensures status != Ok ==> DecodeFixed(old(file.Rest())) == Failed(status)
  {
    hide ReadLe, ReadBytes, ToLe;
    Pow256Values();
    var magic, version, headerSize, sha, tStart, stepSize, count;
    f := Fixed(0, seq(32, i => 0), 0, 0, 0);
    status, magic := file.Read(8);
    if status != Ok {
      return;
    }
    if magic != MAGIC {
      status := BadMagic;
      return;
    }
    status, version := file.ReadNumber(2);
    if status != Ok {
      return;
    }
    if version != VERSION {
      status := BadVersion;
      return;
    }
    status, headerSize := file.ReadNumber(4);
    if status != Ok {
      return;
    }
    status, sha := file.Read(SHA_SIZE);
    if status != Ok {
      return;
    }
    status, tStart := file.ReadNumber(8);
    if status != Ok {
      return;
    }
    status, stepSize := file.ReadNumber(8);
    if status != Ok {
      return;
    }
    status, count := file.ReadNumber(4);
    if status != Ok {
      return;
    }
    f := Fixed(headerSize, sha, tStart, stepSize, count);
  }

  method ReadOutput(file: Stream, consumed: nat, headerSize: nat, previous: Option<Word32>) returns (status: Status, o: Output)
    requires file.Readable()
    modifies file`position
    ensures file.Readable()
    ensures status == Ok ==> DecodeOutput(old(file.Rest()), consumed, headerSize, previous) == Done(o, file.Rest())
    ensures status != Ok ==> DecodeOutput(old(file.Rest()), consumed, headerSize, previous) == Failed(status)
  {
    hide ReadLe, ReadBytes, ToLe;
    Pow256Values();
    var xmlIndex, valueReference, kind, nameSize, name;
    o := Output(0, 0, 0, []);
    status, xmlIndex := file.ReadNumber(4);
    if status != Ok {
      return;
    }
    status, valueReference := file.ReadNumber(4);
    if status != Ok {
      return;
    }
    status, kind := file.Read(1);
    if status != Ok {
      return;
    }
    status, nameSize := file.ReadNumber(2);
    if status != Ok {
      return;
    }
    if consumed + (11 + nameSize) > headerSize {
      return BadHeaderSize, o;
    }
    if nameSize == 0 || nameSize > NAME_BUFFER - 1 {
      return Limit, o;
    }
    if !ValidKind(kind[0]) {
      return BadType, o;
    }
    if previous.Some? && xmlIndex <= previous.value {
      return BadOrder, o;
    }
    status, name := file.Read(nameSize);
    if status != Ok {
      return;
    }
    var valid := Utf8.IsValid(name);
    if !valid {
      return BadUtf8, o;
    }
    Utf8.AcceptedHasNoNul(name);
    o := Output(xmlIndex, valueReference, kind[0], name);
  }

  method ReadHeader(file: Stream) returns (status: Status, d: Option<Descriptor>)
    requires file.Readable()
    modifies file`position
    ensures file.Readable()
    ensures status == Ok ==> d.Some? && DecodeHeader(old(file.Rest())) == Done(d.value, file.Rest())
    ensures status != Ok ==> d.None? && DecodeHeader(old(file.Rest())) == Failed(status)
  {
    hide DecodeFixed, DecodeOutput;
    var f;
    d := None;
    status, f := ReadFixed(file);
    if status != Ok {
      return;
    }
    if f.headerSize < FIXED_HEADER_SIZE {
      return BadHeaderSize, None;
    }
    if !WithinLimits(f.count, f.tStart, f.stepSize) {
      return Limit, None;
    }
    ghost var goal := DecodeOutputs(file.Rest(), f.count, FIXED_HEADER_SIZE, f.headerSize, []);
    var outputs: seq<Output>, consumed: nat := [], FIXED_HEADER_SIZE;
    for index := 0 to f.count
      invariant status == Ok && file.Readable() && |outputs| == index
      invariant DecodeOutputs(file.Rest(), f.count - index, consumed, f.headerSize, outputs) == goal
    {
      var o;
      status, o := ReadOutput(file, consumed, f.headerSize, LastIndex(outputs));
      if status != Ok {
        return;
      }
      consumed := consumed + (11 + |o.name|);
      outputs := outputs + [o];
    }
    if consumed != f.headerSize {
      return BadHeaderSize, None;
    }
    d := Some(Descriptor(f.sha, f.tStart, f.stepSize, outputs));
  }
}
