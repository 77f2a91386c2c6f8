/**
 * The frame grammar of the host-board byte stream, read as one left-to-right pass over a whole stream.
 * Both incremental parsers are proved against this reading.
 */
module FrameGrammar {
  import opened Bytes

  const SYNC_FIRST: Byte := 0x59
  const SYNC_SECOND: Byte := 0x72
  const MID_CONFIG: Byte := 0x01
  const MID_DATA: Byte := 0x02
  const MID_READ_ACK: Byte := 0x03
  const MID_XRCE: Byte := 0x04
  const HEADER_SIZE := 3
  const PREFIX_SIZE := 5
  const MAX_DATA_PAYLOAD := 256
  const XRCE_MTU := 128
  const FIRMWARE_DATA_SIZE := 21
  const FIRMWARE_CAPACITY := 261

  datatype Frame =
    | Config(command: Byte, status: Option<Byte>)
    | Data(sequence: Word16, payload: seq<Byte>)
    | ReadAck(sequence: Word16)
    | Xrce(payload: seq<Byte>)

  /** Which of the two parsers reads the stream. The host parser is configured; the firmware's sizes are fixed. */
  datatype Reader =
    | Host(capacity: nat, dataSize: nat, configHasStatus: bool)
    | Firmware
  {
    /** What the host parser's initialisation accepts. */
    predicate Valid() {
      Host? ==> dataSize <= MAX_DATA_PAYLOAD && capacity >= PREFIX_SIZE + dataSize
    }

    function Capacity(): nat { if Host? then capacity else FIRMWARE_CAPACITY }

    function DataSize(): nat { if Host? then dataSize else FIRMWARE_DATA_SIZE }

    predicate HasStatus() { Host? && configHasStatus }
  }

  /** What a parser does with the bytes it holds: wait for more, drop the first one, or take a frame. */
  datatype Verdict = Wait | Drop(invalid: bool) | Take(size: nat)

  function Le16(low: Byte, high: Byte): Word16 { low + 0x100 * high }

  predicate Synced(s: seq<Byte>) { |s| >= 2 && s[0] == SYNC_FIRST && s[1] == SYNC_SECOND }

  predicate KnownMid(mid: Byte) { MID_CONFIG <= mid <= MID_XRCE }

  /** The frame length the header announces, or None when the length field has not arrived. */
  function FrameLength(r: Reader, s: seq<Byte>): Option<nat>
    requires |s| >= HEADER_SIZE && KnownMid(s[2])
  {
    if s[2] == MID_CONFIG then Some(if r.HasStatus() then 5 else 4)
    else if s[2] == MID_DATA then Some(PREFIX_SIZE + r.DataSize())
    else if s[2] == MID_READ_ACK then Some(5)
    else if |s| < 5 then None
    else Some(5 + Le16(s[3], s[4]))
  }

  function HostVerdict(r: Reader, s: seq<Byte>): Verdict {
    if |s| < 2 then Wait
    else if !Synced(s) then Drop(false)
    else if |s| < HEADER_SIZE then Wait
    else if !KnownMid(s[2]) then Drop(true)
    else match FrameLength(r, s)
      case None => Wait
      case Some(n) =>
        if n > r.Capacity() then Drop(true) else if |s| < n then Wait else Take(n)
  }

  /** The firmware's size function: 0 asks for more bytes, 1 rejects the header. */
  function FirmwareFrameSize(s: seq<Byte>): nat {
    if |s| < 3 then 0
    else if s[2] == MID_CONFIG then 4
    else if s[2] == MID_DATA then 5 + FIRMWARE_DATA_SIZE
    else if s[2] == MID_READ_ACK then 5
    else if s[2] == MID_XRCE then
      if |s| < 5 then 0 else if Le16(s[3], s[4]) <= XRCE_MTU then 5 + Le16(s[3], s[4]) else 1
    else 1
  }

  function FirmwareVerdict(s: seq<Byte>): Verdict {
    if |s| < 3 then Wait
    else if !Synced(s) then Drop(false)
    else
      var size := FirmwareFrameSize(s);
      if size == 1 || size > FIRMWARE_CAPACITY then Drop(true)
      else if size == 0 || |s| < size then Wait
      else Take(size)
  }

  function Judge(r: Reader, s: seq<Byte>): (v: Verdict)
    ensures v.Drop? ==> |s| >= 2
    ensures v.Take? ==> 4 <= v.size <= |s| && v.size <= r.Capacity() && KnownMid(s[2])
    ensures v.Take? && s[2] != MID_CONFIG ==> v.size >= 5
    ensures v.Take? && r.HasStatus() ==> v.size >= 5
  {
    if r.Host? then HostVerdict(r, s) else FirmwareVerdict(s)
  }

  /** The frame in the first `n` bytes of `s`. */
  function FrameAt(r: Reader, s: seq<Byte>): Frame
    requires Judge(r, s).Take?
  {
    var n := Judge(r, s).size;
    if s[2] == MID_CONFIG then Config(s[3], if r.HasStatus() then Some(s[4]) else None)
    else if s[2] == MID_DATA then Data(Le16(s[3], s[4]), s[5..n])
    else if s[2] == MID_READ_ACK then ReadAck(Le16(s[3], s[4]))
    else Xrce(s[5..n])
  }

  /** Result of reading a whole stream: frames in order, bytes removed, bad headers, and the unfinished rest. */
  datatype Reading = Reading(frames: seq<Frame>, discarded: nat, invalid: nat, rest: seq<Byte>)

  function Read(r: Reader, s: seq<Byte>): Reading {
    match Judge(r, s)
    case Wait => Reading([], 0, 0, s)
    case Drop(bad) =>
      var tail := Read(r, s[1..]);
      tail.(discarded := tail.discarded + 1, invalid := tail.invalid + if bad then 1 else 0)
    case Take(n) =>
      var tail := Read(r, s[n..]);
      tail.(frames := [FrameAt(r, s)] + tail.frames, discarded := tail.discarded + n)
  }

  /** Reading `first` and then what follows it. */
  function Then(first: Reading, second: Reading): Reading {
    Reading(first.frames + second.frames, first.discarded + second.discarded,
            first.invalid + second.invalid, second.rest)
  }

  /** Bytes that arrive later never change a decision already taken. */
  lemma JudgeStable(r: Reader, s: seq<Byte>, t: seq<Byte>)
    requires !Judge(r, s).Wait?
    ensures Judge(r, s + t) == Judge(r, s)
    ensures Judge(r, s).Take? ==> FrameAt(r, s + t) == FrameAt(r, s)
  {
    var u := s + t;
    assert u[0] == s[0] && u[1] == s[1];
    if |s| >= 3 { assert u[2] == s[2]; }
    if |s| >= 5 { assert u[3] == s[3] && u[4] == s[4]; }
    if Judge(r, s).Take? {
      var n := Judge(r, s).size;
      assert u[3] == s[3];
      assert n >= 5 ==> u[5..n] == s[5..n];
    }
  }

  /** A byte is dropped as a bad header exactly behind a sync pair, with an unknown identifier or a datagram too long for the buffer. */
  lemma HeaderIsBad(r: Reader, s: seq<Byte>)
    requires r.Valid() && (r.Host? ==> r.capacity >= 5)
    ensures Judge(r, s) == Drop(true) <==>
      && |s| >= 3 && s[0] == 0x59 && s[1] == 0x72
      && (!(1 <= s[2] <= 4) || (s[2] == 4 && |s| >= 5 && 5 + FromLe(s[3..5]) > if r.Host? then r.capacity else 133))
    ensures Judge(r, s) == Drop(false) <==> |s| >= (if r.Host? then 2 else 3) && !(s[0] == 0x59 && s[1] == 0x72)
  {
    if |s| >= 5 {
      assert FromLe(s[3..5]) == s[3] + 0x100 * FromLe(s[3..5][1..]);
      assert s[3..5][1..] == [s[4]];
      assert FromLe([s[4]]) == s[4] + 0x100 * FromLe([s[4]][1..]);
    }
  }

  /** The first step of a reading that can take one: how many bytes it removes and what it yields. */
  function Width(r: Reader, s: seq<Byte>): (n: nat)
    requires !Judge(r, s).Wait?
    ensures 0 < n <= |s|
  {
    if Judge(r, s).Take? then Judge(r, s).size else 1
  }

  function First(r: Reader, s: seq<Byte>): Reading
    requires !Judge(r, s).Wait?
  {
    match Judge(r, s)
    case Drop(bad) => Reading([], 1, if bad then 1 else 0, [])
    case Take(n) => Reading([FrameAt(r, s)], n, 0, [])
  }

  lemma ReadStep(r: Reader, s: seq<Byte>)
    ensures Judge(r, s).Wait? ==> Read(r, s) == Reading([], 0, 0, s)
    ensures !Judge(r, s).Wait? ==> Read(r, s) == Then(First(r, s), Read(r, s[Width(r, s)..]))
  {
    hide Judge, FrameAt;
    match Judge(r, s)
    case Wait =>
    case Drop(_) =>
      var tail := Read(r, s[1..]);
      assert [] + tail.frames == tail.frames;
    case Take(n) =>
      var tail := Read(r, s[n..]);
      assert Read(r, s).frames == [FrameAt(r, s)] + tail.frames;
  }

  /** Stopping a reading anywhere and resuming from its rest reads the same stream. */
  lemma {:induction false} ReadSplit(r: Reader, s: seq<Byte>, t: seq<Byte>)
    ensures Read(r, s + t) == Then(Read(r, s), Read(r, Read(r, s).rest + t))
    decreases |s|
  {
    hide Judge, FrameAt, Read;
    ReadStep(r, s);
    if !Judge(r, s).Wait? {
      var later := s[Width(r, s)..];
      ReadSplit(r, later, t);
      JudgeStable(r, s, t);
      ReadStep(r, s + t);
      assert (s + t)[Width(r, s)..] == later + t;
      ThenAssociative(First(r, s), Read(r, later), Read(r, Read(r, later).rest + t));
    }
  }

  lemma ThenAssociative(a: Reading, b: Reading, c: Reading)
    ensures Then(Then(a, b), c) == Then(a, Then(b, c))
  {
    assert (a.frames + b.frames) + c.frames == a.frames + (b.frames + c.frames);
  }

  lemma WaitingLeavesRoom(r: Reader, s: seq<Byte>)
    requires r.Valid() && Judge(r, s).Wait?
    ensures |s| < r.Capacity()
  {
  }

  /** Every byte is either removed or still held, and what is held needs more bytes and leaves room for one. */
  lemma {:induction false} ReadConserves(r: Reader, s: seq<Byte>)
    requires r.Valid()
    ensures var o := Read(r, s);
      && o.discarded + |o.rest| == |s|
      && Judge(r, o.rest).Wait?
      && |o.rest| < r.Capacity()
      && o.rest == s[o.discarded..]
    decreases |s|
  {
    hide Judge, FrameAt, Read;
    ReadStep(r, s);
    if Judge(r, s).Wait? {
      WaitingLeavesRoom(r, s);
    } else {
      ReadConserves(r, s[Width(r, s)..]);
    }
  }

  // ---- The two readers agree ----

  /** The host configuration that mirrors the firmware's fixed sizes. */
  const MIRROR := Host(PREFIX_SIZE + XRCE_MTU, FIRMWARE_DATA_SIZE, false)

  /** Drops leading bytes until a sync pair or a single byte remains. */
  function Strip(s: seq<Byte>): seq<Byte> {
    if |s| < 2 || Synced(s) then s else Strip(s[1..])
  }

  /** On any stream the mirrored host reader and the firmware reader see the same frames; the host keeps no unsynced prefix. */
  lemma {:induction false} ReadersAgree(s: seq<Byte>)
    ensures Read(MIRROR, s).frames == Read(Firmware, s).frames
    ensures Read(MIRROR, s).rest == Strip(Read(Firmware, s).rest)
    ensures Read(MIRROR, s).invalid == Read(Firmware, s).invalid
    decreases |s|
  {
    if |s| >= 3 {
      assert HostVerdict(MIRROR, s) == FirmwareVerdict(s);
      match Judge(Firmware, s)
      case Wait =>
      case Drop(_) => ReadersAgree(s[1..]);
      case Take(n) => ReadersAgree(s[n..]);
    } else if |s| == 2 && !Synced(s) {
      assert Judge(MIRROR, s[1..]).Wait?;
      assert Read(MIRROR, s).rest == s[1..];
    }
  }

  // ---- Encoded frames are read back ----

  function Low(w: Word16): Byte { w % 0x100 }

  function High(w: Word16): Byte { w / 0x100 }

  /** Sync, identifier and the two bytes of a sequence number or a length. */
  function Prefix(mid: Byte, field: Word16): (p: seq<Byte>)
    ensures |p| == PREFIX_SIZE
  {
    [SYNC_FIRST, SYNC_SECOND, mid, Low(field), High(field)]
  }

  /** The bytes of a frame; the length field keeps the low sixteen bits of the payload size. */
  function Encode(f: Frame): seq<Byte> {
    match f
    case Config(command, None) => [SYNC_FIRST, SYNC_SECOND, MID_CONFIG, command]
    case Config(command, Some(status)) => [SYNC_FIRST, SYNC_SECOND, MID_CONFIG, command, status]
    case Data(sequence, payload) => Prefix(MID_DATA, sequence) + payload
    case ReadAck(sequence) => Prefix(MID_READ_ACK, sequence)
    case Xrce(payload) => Prefix(MID_XRCE, |payload| % 0x1_0000) + payload
  }

  /** Writes a frame from its fixed part and its payload; the encoders of both sides come down to this. */
  method WriteFrame(destination: array<Byte>, start: seq<Byte>, payload: seq<Byte>) returns (size: nat)
    requires destination.Length >= |start| + |payload|
    modifies destination
    ensures size == |start| + |payload|
    ensures destination[..] == start + payload + old(destination[size..])
  {
    ghost var before := destination[..];
    Store(destination, 0, start);
    assert before[..0] + start == start;
    Store(destination, |start|, payload);
    assert (start + before[|start|..])[..|start|] == start;
    assert (start + before[|start|..])[|start| + |payload|..] == before[|start| + |payload|..];
    size := |start| + |payload|;
  }

  /** The frames reader `r` is set up to receive. */
  predicate Receivable(r: Reader, f: Frame) {
    match f
    case Config(_, status) => status.Some? == r.HasStatus()
    case Data(_, payload) => |payload| == r.DataSize()
    case ReadAck(_) => true
    case Xrce(payload) => |payload| <= XRCE_MTU && 5 + |payload| <= r.Capacity()
  }

  /** No sync pair occurs inside the bytes. */
  ghost predicate Quiet(s: seq<Byte>) {
    forall i :: 0 <= i < |s| - 1 ==> !(s[i] == SYNC_FIRST && s[i + 1] == SYNC_SECOND)
  }

  lemma PrefixedBytes(mid: Byte, field: Word16, payload: seq<Byte>, t: seq<Byte>)
    ensures var s := Prefix(mid, field) + payload + t;
      && Synced(s) && s[2] == mid && Le16(s[3], s[4]) == field
      && s[5..5 + |payload|] == payload
  {
    var s := Prefix(mid, field) + payload + t;
    assert s == Prefix(mid, field) + (payload + t);
    assert s[5..] == payload + t;
  }

  lemma JudgePrefixed(r: Reader, mid: Byte, field: Word16, payload: seq<Byte>, t: seq<Byte>)
    requires r.Valid() && MID_DATA <= mid <= MID_XRCE && PREFIX_SIZE + |payload| <= r.Capacity()
    requires |payload| == if mid == MID_DATA then r.DataSize() else if mid == MID_READ_ACK then 0 else field
    requires mid == MID_XRCE ==> field <= XRCE_MTU
    ensures var s := Prefix(mid, field) + payload + t;
      && Judge(r, s) == Take(PREFIX_SIZE + |payload|)
      && FrameAt(r, s) == if mid == MID_DATA then Data(field, payload) else if mid == MID_READ_ACK then ReadAck(field) else Xrce(payload)
  {
    PrefixedBytes(mid, field, payload, t);
    hide Prefix;
  }

  lemma JudgeConfig(r: Reader, f: Frame, t: seq<Byte>)
    requires f.Config? && r.Valid() && Receivable(r, f)
    ensures Judge(r, Encode(f) + t) == Take(|Encode(f)|)
    ensures FrameAt(r, Encode(f) + t) == f
  {
    var e, s := Encode(f), Encode(f) + t;
    assert s[0] == e[0] && s[1] == e[1] && s[2] == e[2] && s[3] == e[3];
    assert |e| == 5 ==> s[4] == e[4];
  }

  lemma JudgeEncoded(r: Reader, f: Frame, t: seq<Byte>)
    requires r.Valid() && Receivable(r, f)
    ensures Judge(r, Encode(f) + t) == Take(|Encode(f)|)
    ensures FrameAt(r, Encode(f) + t) == f
  {
    hide Judge, FrameAt, Prefix;
    match f
    case Config(_, _) => JudgeConfig(r, f, t);
    case Data(sequence, payload) => JudgePrefixed(r, MID_DATA, sequence, payload, t);
    case ReadAck(sequence) =>
      JudgePrefixed(r, MID_READ_ACK, sequence, [], t);
      assert Prefix(MID_READ_ACK, sequence) + [] == Prefix(MID_READ_ACK, sequence);
    case Xrce(payload) => JudgePrefixed(r, MID_XRCE, |payload|, payload, t);
  }

  lemma {:induction false} ReadNoise(r: Reader, noise: seq<Byte>, f: Frame, t: seq<Byte>)
    requires r.Valid() && Quiet(noise) && Receivable(r, f)
    ensures var o := Read(r, noise + (Encode(f) + t));
      var after := Read(r, t);
      o == Reading([f] + after.frames, |noise| + |Encode(f)| + after.discarded, after.invalid, after.rest)
    decreases |noise|
  {
    var s := noise + (Encode(f) + t);
    if noise == [] {
      assert s == Encode(f) + t;
      JudgeEncoded(r, f, t);
      assert s[|Encode(f)|..] == t;
    } else {
      assert s[0] == noise[0];
      assert s[1] == if |noise| > 1 then noise[1] else SYNC_FIRST;
      assert Judge(r, s) == Drop(false);
      assert s[1..] == noise[1..] + (Encode(f) + t);
      ReadNoise(r, noise[1..], f, t);
    }
  }

  lemma {:induction false} ReadQuietTail(r: Reader, tail: seq<Byte>)
    requires Quiet(tail)
    ensures Read(r, tail).frames == [] && Read(r, tail).invalid == 0
    decreases |tail|
  {
    if Judge(r, tail) != Wait {
      assert Judge(r, tail) == Drop(false);
      ReadQuietTail(r, tail[1..]);
    }
  }

  /** The other direction: a frame taken from the stream encodes back to the bytes it was taken from. */
  lemma TakenReencodes(r: Reader, s: seq<Byte>)
    requires Judge(r, s).Take? && s[2] != MID_CONFIG
    ensures Encode(FrameAt(r, s)) == s[..Judge(r, s).size]
  {
    hide Judge, Prefix;
    TakenIsSynced(r, s);
    PrefixBack(s);
    assert s[..5] + s[5..Judge(r, s).size] == s[..Judge(r, s).size];
  }

  lemma TakenConfigReencodes(r: Reader, s: seq<Byte>)
    requires Judge(r, s).Take? && s[2] == MID_CONFIG
    ensures Encode(FrameAt(r, s)) == s[..Judge(r, s).size]
  {
    hide Judge;
    TakenIsSynced(r, s);
    assert s[..Judge(r, s).size] == if r.HasStatus() then [s[0], s[1], s[2], s[3], s[4]] else [s[0], s[1], s[2], s[3]];
  }

  lemma TakenIsSynced(r: Reader, s: seq<Byte>)
    requires Judge(r, s).Take?
    ensures var n := Judge(r, s).size;
      && Synced(s)
      && (s[2] == MID_CONFIG ==> n == if r.HasStatus() then 5 else 4)
      && (s[2] == MID_READ_ACK ==> n == 5)
      && (s[2] == MID_XRCE ==> n == 5 + Le16(s[3], s[4]))
  {
  }

  lemma PrefixBack(s: seq<Byte>)
    requires |s| >= PREFIX_SIZE && Synced(s)
    ensures Prefix(s[2], Le16(s[3], s[4])) == s[..PREFIX_SIZE]
  {
    WordParts(s[3], s[4]);
  }

  lemma WordParts(low: Byte, high: Byte)
    ensures Low(Le16(low, high)) == low && High(Le16(low, high)) == high
  {
  }

  /** Whatever the stream, a DATA frame carries as many bytes as its reader was set up for. */
  lemma {:induction false} DataFits(r: Reader, s: seq<Byte>, i: nat)
    requires i < |Read(r, s).frames| && Read(r, s).frames[i].Data?
    ensures |Read(r, s).frames[i].payload| == r.DataSize()
    decreases |s|
  {
    match Judge(r, s)
    case Drop(_) => DataFits(r, s[1..], i);
    case Take(n) =>
      if i > 0 {
        DataFits(r, s[n..], i - 1);
      }
  }

  /** A quiet segment followed by one frame. */
  datatype Segment = Segment(noise: seq<Byte>, frame: Frame)

  ghost predicate Sendable(r: Reader, segments: seq<Segment>) {
    forall i :: 0 <= i < |segments| ==> Quiet(segments[i].noise) && Receivable(r, segments[i].frame)
  }

  function Stream(segments: seq<Segment>, tail: seq<Byte>): seq<Byte> {
    if segments == [] then tail
    else segments[0].noise + (Encode(segments[0].frame) + Stream(segments[1..], tail))
  }

  function Frames(segments: seq<Segment>): seq<Frame> {
    if segments == [] then [] else [segments[0].frame] + Frames(segments[1..])
  }

  /** Encoded frames separated by quiet noise are read back exactly, whatever their payloads contain. */
  lemma {:induction false} ReadStream(r: Reader, segments: seq<Segment>, tail: seq<Byte>)
    requires r.Valid() && Sendable(r, segments) && Quiet(tail)
    ensures Read(r, Stream(segments, tail)).frames == Frames(segments)
    ensures Read(r, Stream(segments, tail)).invalid == 0
  {
    if segments == [] {
      ReadQuietTail(r, tail);
    } else {
      ReadStream(r, segments[1..], tail);
      ReadNoise(r, segments[0].noise, segments[0].frame, Stream(segments[1..], tail));
    }
  }
}
