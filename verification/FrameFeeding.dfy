/**
 * The incremental parsers of the host and of the board: byte by byte, a fixed buffer edited in place,
 * and a frame callback that may refuse a frame and stop the call.
 */
module FrameFeeding {
  import opened Bytes
  import opened FrameGrammar

  /** Abstract parser state. `delivered` lists every frame handed to the callback, refused ones included. */
  datatype State = State(held: seq<Byte>, discarded: nat, invalid: nat, delivered: seq<Frame>)

  const FRESH := State([], 0, 0, [])

  /** `accept(k)` is what the callback answers to the k-th frame it is handed. */
  type Callback = nat -> bool

  function DropFirst(st: State, bad: bool): State
    requires st.held != []
  {
    st.(held := st.held[1..], discarded := st.discarded + 1, invalid := st.invalid + if bad then 1 else 0)
  }

  function Deliver(r: Reader, st: State): State
    requires Judge(r, st.held).Take?
  {
    st.(delivered := st.delivered + [FrameAt(r, st.held)])
  }

  function Consume(r: Reader, st: State): (next: State)
    requires Judge(r, st.held).Take?
    ensures |next.held| < |st.held|
  {
    var n := Judge(r, st.held).size;
    Deliver(r, st).(held := st.held[n..], discarded := st.discarded + n)
  }

  /** Works on the held bytes until they need more input (false) or the callback refuses a frame (true). */
  function Drain(r: Reader, st: State, accept: Callback): (State, bool)
    decreases |st.held|
  {
    match Judge(r, st.held)
    case Wait => (st, false)
    case Drop(bad) => Drain(r, DropFirst(st, bad), accept)
    case Take(_) =>
      if accept(|st.delivered|) then Drain(r, Consume(r, st), accept) else (Deliver(r, st), true)
  }

  lemma DrainStep(r: Reader, st: State, accept: Callback)
    ensures var v := Judge(r, st.held);
      && (v.Wait? ==> Drain(r, st, accept) == (st, false))
      && (v.Drop? ==> Drain(r, st, accept) == Drain(r, DropFirst(st, v.invalid), accept))
      && (v.Take? && accept(|st.delivered|) ==> Drain(r, st, accept) == Drain(r, Consume(r, st), accept))
      && (v.Take? && !accept(|st.delivered|) ==> Drain(r, st, accept) == (Deliver(r, st), true))
  {
    hide Judge, FrameAt;
  }

  /** A full buffer loses its first byte before the new one is stored. */
  function FeedByte(r: Reader, st: State, byte: Byte, accept: Callback): (State, bool)
    requires r.Valid()
  {
    var roomy := if |st.held| == r.Capacity() then DropFirst(st, true) else st;
    Drain(r, roomy.(held := roomy.held + [byte]), accept)
  }

  function FeedBytes(r: Reader, st: State, bytes: seq<Byte>, accept: Callback): (State, bool)
    requires r.Valid()
    decreases |bytes|
  {
    if bytes == [] then (st, false)
    else
      var (next, stopped) := FeedByte(r, st, bytes[0], accept);
      if stopped then (next, true) else FeedBytes(r, next, bytes[1..], accept)
  }

  function FeedAll(r: Reader, st: State, chunks: seq<seq<Byte>>, accept: Callback): State
    requires r.Valid()
    decreases |chunks|
  {
    if chunks == [] then st else FeedAll(r, FeedBytes(r, st, chunks[0], accept).0, chunks[1..], accept)
  }

  function Concat(chunks: seq<seq<Byte>>): seq<Byte> {
    if chunks == [] then [] else chunks[0] + Concat(chunks[1..])
  }

  /** The state after `st` has read `o`. */
  function Advance(st: State, o: Reading): State {
    State(o.rest, st.discarded + o.discarded, st.invalid + o.invalid, st.delivered + o.frames)
  }

  /** The held bytes need more input and leave room for one byte. */
  predicate Settled(r: Reader, st: State) {
    Judge(r, st.held).Wait? && |st.held| < r.Capacity()
  }

  ghost predicate AcceptsAll(accept: Callback) { forall k: nat :: accept(k) }

  // ---- Incremental parsing refines whole-stream reading ----

  lemma {:induction false} DrainReads(r: Reader, st: State, accept: Callback)
    requires AcceptsAll(accept)
    ensures Drain(r, st, accept) == (Advance(st, Read(r, st.held)), false)
    decreases |st.held|
  {
    hide Judge, FrameAt, Read;
    ReadStep(r, st.held);
    if Judge(r, st.held).Wait? {
      assert st.delivered + [] == st.delivered;
    } else {
      var next := if Judge(r, st.held).Take? then Consume(r, st) else DropFirst(st, Judge(r, st.held).invalid);
      DrainReads(r, next, accept);
      assert next.delivered == st.delivered + First(r, st.held).frames;
      AdvanceTwice(st, First(r, st.held), Read(r, next.held));
    }
  }

  lemma AdvanceTwice(st: State, first: Reading, second: Reading)
    ensures Advance(Advance(st, first), second) == Advance(st, Then(first, second))
  {
    assert (st.delivered + first.frames) + second.frames == st.delivered + (first.frames + second.frames);
  }

  lemma FeedByteReads(r: Reader, st: State, byte: Byte, accept: Callback)
    requires r.Valid() && Settled(r, st) && AcceptsAll(accept)
    ensures FeedByte(r, st, byte, accept) == (Advance(st, Read(r, st.held + [byte])), false)
    ensures Settled(r, Advance(st, Read(r, st.held + [byte])))
  {
    hide Judge, FrameAt;
    DrainReads(r, st.(held := st.held + [byte]), accept);
    ReadConserves(r, st.held + [byte]);
  }

  /** One call with an accepting callback reads exactly the held bytes followed by the new ones. */
  lemma {:induction false} FeedReads(r: Reader, st: State, bytes: seq<Byte>, accept: Callback)
    requires r.Valid() && Settled(r, st) && AcceptsAll(accept)
    ensures FeedBytes(r, st, bytes, accept) == (Advance(st, Read(r, st.held + bytes)), false)
    ensures Settled(r, FeedBytes(r, st, bytes, accept).0)
    decreases |bytes|
  {
    hide Judge, FrameAt, FeedByte;
    if bytes == [] {
      assert st.held + bytes == st.held && st.delivered + [] == st.delivered;
    } else {
      var one := st.held + [bytes[0]];
      FeedByteReads(r, st, bytes[0], accept);
      FeedReads(r, Advance(st, Read(r, one)), bytes[1..], accept);
      assert st.held + bytes == one + bytes[1..];
      ReadSplit(r, one, bytes[1..]);
      AdvanceTwice(st, Read(r, one), Read(r, Read(r, one).rest + bytes[1..]));
    }
  }

  /** However a stream is cut into calls, the parser ends as one reading of the whole stream does. */
  lemma {:induction false} ChunkingIsIrrelevant(r: Reader, st: State, chunks: seq<seq<Byte>>, accept: Callback)
    requires r.Valid() && Settled(r, st) && AcceptsAll(accept)
    ensures FeedAll(r, st, chunks, accept) == Advance(st, Read(r, st.held + Concat(chunks)))
    ensures Settled(r, FeedAll(r, st, chunks, accept))
    decreases |chunks|
  {
    hide Judge, FrameAt;
    if chunks == [] {
      assert st.held + [] == st.held && st.delivered + [] == st.delivered;
    } else {
      var one := st.held + chunks[0];
      FeedReads(r, st, chunks[0], accept);
      ReadConserves(r, one);
      var next := Advance(st, Read(r, one));
      ChunkingIsIrrelevant(r, next, chunks[1..], accept);
      assert st.held + Concat(chunks) == one + Concat(chunks[1..]);
      ReadSplit(r, one, Concat(chunks[1..]));
      AdvanceTwice(st, Read(r, one), Read(r, Read(r, one).rest + Concat(chunks[1..])));
    }
  }

  /** From a fresh parser: the emitted frames, counters and residual buffer of any split of a stream are those of one reading. */
  lemma IncrementalParse(r: Reader, chunks: seq<seq<Byte>>, accept: Callback)
    requires r.Valid() && AcceptsAll(accept)
    ensures var st, o := FeedAll(r, FRESH, chunks, accept), Read(r, Concat(chunks));
      && st == State(o.rest, o.discarded, o.invalid, o.frames)
      && st.discarded + |st.held| == |Concat(chunks)|
      && |st.held| < r.Capacity()
  {
    ChunkingIsIrrelevant(r, FRESH, chunks, accept);
    assert FRESH.held + Concat(chunks) == Concat(chunks);
    assert FRESH.delivered + Read(r, Concat(chunks)).frames == Read(r, Concat(chunks)).frames;
    ReadConserves(r, Concat(chunks));
  }

  /** Fed the same chunks, the mirrored host parser and the board parser hand over the same frames; the host holds the board's bytes without their unsynced prefix. */
  lemma ParsersAgree(chunks: seq<seq<Byte>>, accept: Callback)
    requires AcceptsAll(accept)
    ensures var host, board := FeedAll(MIRROR, FRESH, chunks, accept), FeedAll(Firmware, FRESH, chunks, accept);
      host.delivered == board.delivered && host.held == Strip(board.held)
  {
    IncrementalParse(MIRROR, chunks, accept);
    IncrementalParse(Firmware, chunks, accept);
    ReadersAgree(Concat(chunks));
  }

  /** Any chunking of encoded frames and quiet noise hands over exactly the encoded frames and counts nothing invalid. */
  lemma EncodedFramesAreDelivered(r: Reader, segments: seq<Segment>, tail: seq<Byte>, chunks: seq<seq<Byte>>, accept: Callback)
    requires r.Valid() && AcceptsAll(accept)
    requires Sendable(r, segments) && Quiet(tail)
    requires Concat(chunks) == Stream(segments, tail)
    ensures FeedAll(r, FRESH, chunks, accept).delivered == Frames(segments)
    ensures FeedAll(r, FRESH, chunks, accept).invalid == 0
  {
    IncrementalParse(r, chunks, accept);
    ReadStream(r, segments, tail);
  }

  // ---- Callbacks that refuse a frame ----

  /** The frames of a reading that are handed over from the k-th on: all of them, or up to the first refused one. */
  function HandedOver(frames: seq<Frame>, k: nat, accept: Callback): seq<Frame> {
    if frames == [] then [] else [frames[0]] + if accept(k) then HandedOver(frames[1..], k + 1, accept) else []
  }

  function Refuses(frames: seq<Frame>, k: nat, accept: Callback): bool {
    frames != [] && (!accept(k) || Refuses(frames[1..], k + 1, accept))
  }

  /** What is handed over is a prefix, all accepted but its last if that was refused, and all there is if none was. */
  lemma {:induction false} HandedOverIsPrefix(frames: seq<Frame>, k: nat, accept: Callback)
    ensures var n := |HandedOver(frames, k, accept)|;
      && n <= |frames| && HandedOver(frames, k, accept) == frames[..n]
      && (forall j :: k <= j < k + n - 1 ==> accept(j))
      && (Refuses(frames, k, accept) <==> n > 0 && !accept(k + n - 1))
      && (!Refuses(frames, k, accept) ==> n == |frames|)
  {
    if frames != [] && accept(k) {
      HandedOverIsPrefix(frames[1..], k + 1, accept);
      var n := |HandedOver(frames[1..], k + 1, accept)|;
      assert frames[1..][..n] == frames[1..n + 1];
    }
  }

  lemma {:induction false} HandedOverSplit(a: seq<Frame>, b: seq<Frame>, k: nat, accept: Callback)
    ensures HandedOver(a + b, k, accept) == HandedOver(a, k, accept) + if Refuses(a, k, accept) then [] else HandedOver(b, k + |a|, accept)
    ensures Refuses(a + b, k, accept) <==> Refuses(a, k, accept) || Refuses(b, k + |a|, accept)
    ensures !Refuses(a, k, accept) ==> HandedOver(a, k, accept) == a
  {
    if a == [] {
      assert a + b == b;
    } else {
      assert (a + b)[1..] == a[1..] + b;
      HandedOverSplit(a[1..], b, k + 1, accept);
    }
  }

  /** From `st`, a parser has read `o` and handed over its frames, up to the first refused one, where it stopped. */
  ghost predicate HandsOver(st: State, o: Reading, accept: Callback, next: State, stopped: bool) {
    && next.delivered == st.delivered + HandedOver(o.frames, |st.delivered|, accept)
    && stopped == Refuses(o.frames, |st.delivered|, accept)
    && (!stopped ==> next == Advance(st, o))
  }

  lemma HandsOverTwice(st: State, a: Reading, mid: State, b: Reading, accept: Callback, next: State, stopped: bool)
    requires HandsOver(st, a, accept, mid, false) && HandsOver(mid, b, accept, next, stopped)
    ensures HandsOver(st, Then(a, b), accept, next, stopped)
  {
    hide HandedOver, Refuses;
    HandedOverSplit(a.frames, b.frames, |st.delivered|, accept);
    AdvanceTwice(st, a, b);
    Associate(st.delivered, a.frames, HandedOver(b.frames, |mid.delivered|, accept));
  }

  lemma Associate<T>(a: seq<T>, b: seq<T>, c: seq<T>)
    ensures (a + b) + c == a + (b + c)
  {
  }

  lemma HandsOverOnce(st: State, a: Reading, b: Reading, accept: Callback, next: State)
    requires HandsOver(st, a, accept, next, true)
    ensures HandsOver(st, Then(a, b), accept, next, true)
  {
    hide HandedOver, Refuses;
    HandedOverSplit(a.frames, b.frames, |st.delivered|, accept);
    assert HandedOver(a.frames, |st.delivered|, accept) + [] == HandedOver(a.frames, |st.delivered|, accept);
  }

  lemma NothingToHandOver(st: State, accept: Callback)
    ensures HandsOver(st, Reading([], 0, 0, st.held), accept, st, false)
  {
    assert st.delivered + [] == st.delivered;
  }

  lemma OneFrame(f: Frame, k: nat, accept: Callback)
    ensures HandedOver([f], k, accept) == [f] && (Refuses([f], k, accept) <==> !accept(k))
  {
    assert [f][1..] == [];
    assert HandedOver([], k + 1, accept) == [] && !Refuses([], k + 1, accept);
  }

  lemma FirstHandsOver(r: Reader, st: State, accept: Callback)
    requires !Judge(r, st.held).Wait?
    ensures var v, first := Judge(r, st.held), First(r, st.held);
      && (v.Drop? ==> HandsOver(st, first, accept, DropFirst(st, v.invalid).(held := []), false))
      && (v.Take? && accept(|st.delivered|) ==> HandsOver(st, first, accept, Consume(r, st).(held := []), false))
      && (v.Take? && !accept(|st.delivered|) ==> HandsOver(st, first, accept, Deliver(r, st), true))
  {
    hide Judge, FrameAt;
    match Judge(r, st.held)
    case Drop(bad) =>
      assert st.delivered + [] == st.delivered;
      assert HandedOver([], |st.delivered|, accept) == [] && !Refuses([], |st.delivered|, accept);
    case Take(_) => OneFrame(FrameAt(r, st.held), |st.delivered|, accept);
  }

  lemma HeldIsRead(st: State, held: seq<Byte>, o: Reading, accept: Callback, next: State, stopped: bool)
    ensures HandsOver(st.(held := held), o, accept, next, stopped) <==> HandsOver(st, o, accept, next, stopped)
  {
  }

  lemma {:induction false} DrainDelivers(r: Reader, st: State, accept: Callback)
    ensures var (next, stopped) := Drain(r, st, accept);
      HandsOver(st, Read(r, st.held), accept, next, stopped)
    decreases |st.held|
  {
    hide Judge, FrameAt, Read, Drain, HandsOver;
    ReadStep(r, st.held);
    DrainStep(r, st, accept);
    if Judge(r, st.held).Wait? {
      NothingToHandOver(st, accept);
    } else {
      FirstHandsOver(r, st, accept);
      var rest := Read(r, st.held[Width(r, st.held)..]);
      var v := Judge(r, st.held);
      if v.Take? && !accept(|st.delivered|) {
        HandsOverOnce(st, First(r, st.held), rest, accept, Deliver(r, st));
      } else {
        var mid := if v.Take? then Consume(r, st) else DropFirst(st, v.invalid);
        DrainDelivers(r, mid, accept);
        var (next, stopped) := Drain(r, mid, accept);
        HeldIsRead(mid, [], rest, accept, next, stopped);
        HandsOverTwice(st, First(r, st.held), mid.(held := []), rest, accept, next, stopped);
      }
    }
  }

  /** Whatever the callback answers, a call hands over the frames of the stream's reading up to and including the first it refuses. */
  lemma {:induction false} DeliversUpToRefusal(r: Reader, st: State, bytes: seq<Byte>, accept: Callback)
    requires r.Valid() && Settled(r, st)
    ensures var (next, stopped) := FeedBytes(r, st, bytes, accept);
      HandsOver(st, Read(r, st.held + bytes), accept, next, stopped) && (!stopped ==> Settled(r, next))
    decreases |bytes|
  {
    hide Judge, FrameAt, Drain, HandsOver, FeedByte;
    if bytes == [] {
      assert st.held + bytes == st.held;
      ReadStep(r, st.held);
      NothingToHandOver(st, accept);
    } else {
      var one := st.held + [bytes[0]];
      var a := Read(r, one);
      var b := Read(r, a.rest + bytes[1..]);
      var (mid, early) := FeedByte(r, st, bytes[0], accept);
      FeedByteDelivers(r, st, bytes[0], accept);
      assert st.held + bytes == one + bytes[1..];
      ReadSplit(r, one, bytes[1..]);
      if early {
        HandsOverOnce(st, a, b, accept, mid);
      } else {
        MidHolds(st, a, accept, mid);
        DeliversUpToRefusal(r, mid, bytes[1..], accept);
        var (next, stopped) := FeedBytes(r, mid, bytes[1..], accept);
        HandsOverTwice(st, a, mid, b, accept, next, stopped);
      }
    }
  }

  lemma FeedByteDelivers(r: Reader, st: State, byte: Byte, accept: Callback)
    requires r.Valid() && Settled(r, st)
    ensures var (next, stopped) := FeedByte(r, st, byte, accept);
      var o := Read(r, st.held + [byte]);
      HandsOver(st, o, accept, next, stopped) && (!stopped ==> Settled(r, next) && next.held == o.rest)
  {
    hide Judge, FrameAt, Drain;
    var ready := st.(held := st.held + [byte]);
    DrainDelivers(r, ready, accept);
    ReadConserves(r, ready.held);
  }

  /** Calls up to and including the first that is stopped. */
  function FeedUntilRefused(r: Reader, st: State, chunks: seq<seq<Byte>>, accept: Callback): (State, bool)
    requires r.Valid()
    decreases |chunks|
  {
    if chunks == [] then (st, false)
    else
      var (next, stopped) := FeedBytes(r, st, chunks[0], accept);
      if stopped then (next, true) else FeedUntilRefused(r, next, chunks[1..], accept)
  }

  lemma {:induction false} UntilRefused(r: Reader, st: State, chunks: seq<seq<Byte>>, accept: Callback)
    requires r.Valid() && Settled(r, st)
    ensures var (next, stopped) := FeedUntilRefused(r, st, chunks, accept);
      HandsOver(st, Read(r, st.held + Concat(chunks)), accept, next, stopped)
    decreases |chunks|
  {
    hide Judge, FrameAt, FeedBytes, HandsOver;
    if chunks == [] {
      assert st.held + [] == st.held;
      ReadStep(r, st.held);
      NothingToHandOver(st, accept);
    } else {
      var one, tail := st.held + chunks[0], Concat(chunks[1..]);
      var a := Read(r, one);
      var b := Read(r, a.rest + tail);
      var (mid, early) := FeedBytes(r, st, chunks[0], accept);
      DeliversUpToRefusal(r, st, chunks[0], accept);
      assert st.held + Concat(chunks) == one + tail;
      ReadSplit(r, one, tail);
      if early {
        HandsOverOnce(st, a, b, accept, mid);
      } else {
        MidHolds(st, a, accept, mid);
        UntilRefused(r, mid, chunks[1..], accept);
        var (next, stopped) := FeedUntilRefused(r, mid, chunks[1..], accept);
        HandsOverTwice(st, a, mid, b, accept, next, stopped);
      }
    }
  }

  lemma MidHolds(st: State, o: Reading, accept: Callback, mid: State)
    requires HandsOver(st, o, accept, mid, false)
    ensures mid.held == o.rest
  {
  }

  /** With any callback, the two parsers hand over the same frames up to and including the first refused one, and stop together. */
  lemma ParsersAgreeUpToRefusal(chunks: seq<seq<Byte>>, accept: Callback)
    ensures var (host, hostStopped) := FeedUntilRefused(MIRROR, FRESH, chunks, accept);
      var (board, boardStopped) := FeedUntilRefused(Firmware, FRESH, chunks, accept);
      host.delivered == board.delivered && hostStopped == boardStopped
  {
    hide HandedOver, Refuses, FeedUntilRefused;
    UntilRefused(MIRROR, FRESH, chunks, accept);
    UntilRefused(Firmware, FRESH, chunks, accept);
    ReadersAgree(FRESH.held + Concat(chunks));
  }

  /** With any callback, encoded frames are handed over in order up to and including the first refused one. */
  lemma EncodedFramesUpToRefusal(r: Reader, segments: seq<Segment>, tail: seq<Byte>, chunks: seq<seq<Byte>>, accept: Callback)
    requires r.Valid() && Sendable(r, segments) && Quiet(tail)
    requires Concat(chunks) == Stream(segments, tail)
    ensures FeedUntilRefused(r, FRESH, chunks, accept).0.delivered == HandedOver(Frames(segments), 0, accept)
    ensures FeedUntilRefused(r, FRESH, chunks, accept).1 == Refuses(Frames(segments), 0, accept)
  {
    hide HandedOver, Refuses, Quiet, Encode, FeedUntilRefused;
    UntilRefused(r, FRESH, chunks, accept);
    assert FRESH.held + Concat(chunks) == Concat(chunks);
    ReadStream(r, segments, tail);
  }

  // ---- Full buffers ----

  /** The front of the buffer is the frame handed over last. */
  predicate Refused(r: Reader, st: State) {
    Judge(r, st.held).Take? && st.delivered != [] && st.delivered[|st.delivered| - 1] == FrameAt(r, st.held)
  }

  /** What calls leave behind: bytes that wait for more, or a refused frame at the front of a buffer that may be full. */
  predicate Legal(r: Reader, st: State) {
    Settled(r, st) || (Refused(r, st) && |st.held| <= r.Capacity())
  }

  /** Draining removes bytes from the front only, and counts them. */
  lemma {:induction false} DrainLeaves(r: Reader, st: State, accept: Callback)
    ensures var (next, stopped) := Drain(r, st, accept);
      && (if stopped then Refused(r, next) else Judge(r, next.held).Wait?)
      && st.discarded <= next.discarded <= st.discarded + |st.held|
      && next.held == st.held[next.discarded - st.discarded..]
      && st.invalid <= next.invalid && st.delivered <= next.delivered
    decreases |st.held|
  {
    hide Judge, FrameAt, Drain;
    DrainStep(r, st, accept);
    match Judge(r, st.held)
    case Wait =>
    case Drop(bad) => DrainLeaves(r, DropFirst(st, bad), accept);
    case Take(_) =>
      if accept(|st.delivered|) {
        DrainLeaves(r, Consume(r, st), accept);
      }
  }

  lemma TakenStartsWithSync(r: Reader, s: seq<Byte>)
    requires Judge(r, s).Take?
    ensures Synced(s) && |s| >= 4
  {
  }

  lemma UnsyncedIsDropped(r: Reader, s: seq<Byte>)
    requires |s| >= 3 && !Synced(s)
    ensures Judge(r, s) == Drop(false)
  {
  }

  /** A byte for a full buffer costs the refused frame at its front its sync pair: the frame is gone, and counted as invalid. */
  lemma FullBufferLosesFrame(r: Reader, st: State, byte: Byte, accept: Callback)
    requires r.Valid() && Legal(r, st) && |st.held| == r.Capacity()
    ensures var (next, _) := FeedByte(r, st, byte, accept);
      var gone := next.discarded - st.discarded;
      && Refused(r, st) && 2 <= gone <= |st.held| + 1
      && next.held == (st.held + [byte])[gone..] && |next.held| < r.Capacity()
      && next.invalid > st.invalid
  {
    FullIsRefused(r, st);
    FullDropsSync(r, st, byte, accept);
    hide Judge, FrameAt, Drain, Legal, Refused, FeedByte, Reader.Capacity;
    var all := st.held + [byte];
    var dropped := State(all[2..], st.discarded + 2, st.invalid + 1, st.delivered);
    DrainLeaves(r, dropped, accept);
    var next := Drain(r, dropped, accept).0;
    SuffixTwice(all, 2, next.discarded - dropped.discarded);
    assert next == FeedByte(r, st, byte, accept).0;
  }

  lemma FullDropsSync(r: Reader, st: State, byte: Byte, accept: Callback)
    requires r.Valid() && |st.held| == r.Capacity() && Synced(st.held)
    ensures FeedByte(r, st, byte, accept) ==
      Drain(r, State((st.held + [byte])[2..], st.discarded + 2, st.invalid + 1, st.delivered), accept)
  {
    hide Judge, FrameAt, Drain;
    var all := st.held + [byte];
    var ready := State(all[1..], st.discarded + 1, st.invalid + 1, st.delivered);
    assert st.held[1..] + [byte] == all[1..] && all[1..][1..] == all[2..] && all[1..][0] == SYNC_SECOND;
    UnsyncedIsDropped(r, ready.held);
    DrainStep(r, ready, accept);
  }

  lemma FullIsRefused(r: Reader, st: State)
    requires r.Valid() && Legal(r, st) && |st.held| == r.Capacity()
    ensures Refused(r, st) && |st.held| >= 5 && Synced(st.held)
  {
    TakenStartsWithSync(r, st.held);
    hide Judge, FrameAt;
  }

  lemma SuffixTwice(s: seq<Byte>, a: nat, b: nat)
    requires a + b <= |s|
    ensures s[a..][b..] == s[a + b..]
  {
  }

  /**
   * For every callback, a byte leaves the buffer full exactly when it is the last one to fit, a complete frame then stands
   * at the front, and the callback refuses it.
   */
  lemma FullAfterByte(r: Reader, st: State, byte: Byte, accept: Callback)
    requires r.Valid() && Legal(r, st)
    ensures var (next, _) := FeedByte(r, st, byte, accept);
      && Legal(r, next)
      && (|next.held| == r.Capacity() <==>
            |st.held| + 1 == r.Capacity() && Judge(r, st.held + [byte]).Take? && !accept(|st.delivered|))
  {
    if |st.held| == r.Capacity() {
      FullBufferLosesFrame(r, st, byte, accept);
    }
    FeedByteIsLegal(r, st, byte, accept);
    if |st.held| + 1 == r.Capacity() {
      var ready := st.(held := st.held + [byte]);
      FullIsNotWaiting(r, ready.held);
      hide Judge, FrameAt, Drain;
      DrainStep(r, ready, accept);
      match Judge(r, ready.held)
      case Wait =>
      case Drop(bad) => DrainLeaves(r, DropFirst(ready, bad), accept);
      case Take(_) =>
        if accept(|st.delivered|) {
          DrainLeaves(r, Consume(r, ready), accept);
        }
    }
  }

  lemma FullIsNotWaiting(r: Reader, s: seq<Byte>)
    requires r.Valid() && |s| == r.Capacity()
    ensures !Judge(r, s).Wait?
  {
    if Judge(r, s).Wait? {
      WaitingLeavesRoom(r, s);
    }
  }

  lemma FeedByteIsLegal(r: Reader, st: State, byte: Byte, accept: Callback)
    requires r.Valid() && |st.held| <= r.Capacity()
    ensures var (next, stopped) := FeedByte(r, st, byte, accept);
      && Legal(r, next) && (stopped ==> Refused(r, next)) && (!stopped ==> Settled(r, next))
      && |next.held| <= |st.held| + 1 && st.delivered <= next.delivered
  {
    hide Judge, FrameAt, Drain;
    var roomy := if |st.held| == r.Capacity() then DropFirst(st, true) else st;
    DrainLeaves(r, roomy.(held := roomy.held + [byte]), accept);
    var (next, stopped) := FeedByte(r, st, byte, accept);
    if !stopped {
      WaitingLeavesRoom(r, next.held);
    }
  }

  /** Every call, with any callback, leaves a legal state: `FullAfterByte` speaks of all there are. */
  lemma {:induction false} FeedLeaves(r: Reader, st: State, bytes: seq<Byte>, accept: Callback)
    requires r.Valid() && Legal(r, st)
    ensures var (next, stopped) := FeedBytes(r, st, bytes, accept);
      && Legal(r, next)
      && (stopped ==> Refused(r, next))
      && (!stopped && (bytes != [] || Settled(r, st)) ==> Settled(r, next))
      && st.delivered <= next.delivered
    decreases |bytes|
  {
    hide Judge, FrameAt, FeedByte;
    if bytes != [] {
      assert |st.held| <= r.Capacity();
      FeedByteIsLegal(r, st, bytes[0], accept);
      var (next, stopped) := FeedByte(r, st, bytes[0], accept);
      if !stopped {
        FeedLeaves(r, next, bytes[1..], accept);
      }
    }
  }

  lemma {:induction false} RunIsLegal(r: Reader, st: State, chunks: seq<seq<Byte>>, accept: Callback)
    requires r.Valid() && Legal(r, st)
    ensures Legal(r, FeedAll(r, st, chunks, accept))
    decreases |chunks|
  {
    hide Judge, FrameAt, FeedBytes, Legal;
    if chunks != [] {
      FeedLeaves(r, st, chunks[0], accept);
      RunIsLegal(r, FeedBytes(r, st, chunks[0], accept).0, chunks[1..], accept);
    }
  }

  /** A frame that completes with a byte is complete at that byte and not before. */
  lemma TakenWhenComplete(r: Reader, s: seq<Byte>, byte: Byte)
    requires Judge(r, s).Wait? && Judge(r, s + [byte]).Take?
    ensures Judge(r, s + [byte]).size == |s| + 1
  {
    var t := s + [byte];
    assert forall i :: 0 <= i < |s| ==> t[i] == s[i];
  }

  /** From a state without a refused frame, one call fills the buffer exactly when it stops on a frame as long as the buffer. */
  lemma {:induction false} FillsAtOnce(r: Reader, st: State, bytes: seq<Byte>, accept: Callback)
    requires r.Valid() && Settled(r, st)
    ensures var (next, stopped) := FeedBytes(r, st, bytes, accept);
      |next.held| == r.Capacity() <==> stopped && Judge(r, next.held) == Take(r.Capacity())
    decreases |bytes|
  {
    hide FrameAt, Drain;
    if bytes != [] {
      var byte := bytes[0];
      FullAfterByte(r, st, byte, accept);
      FeedByteIsLegal(r, st, byte, accept);
      var (next, stopped) := FeedByte(r, st, byte, accept);
      if stopped {
        StopsFullOnItsFrame(r, st, byte, accept);
      } else {
        FillsAtOnce(r, next, bytes[1..], accept);
      }
    }
  }

  lemma StopsFullOnItsFrame(r: Reader, st: State, byte: Byte, accept: Callback)
    requires r.Valid() && Settled(r, st)
    ensures var (next, stopped) := FeedByte(r, st, byte, accept);
      stopped ==> (|next.held| == r.Capacity() <==> Judge(r, next.held) == Take(r.Capacity()))
  {
    FullAfterByte(r, st, byte, accept);
    FeedByteIsLegal(r, st, byte, accept);
    var (next, stopped) := FeedByte(r, st, byte, accept);
    if |next.held| == r.Capacity() {
      TakenWhenComplete(r, st.held, byte);
      hide Judge, FrameAt, Drain;
      DrainStep(r, st.(held := st.held + [byte]), accept);
    }
  }

  /** Refused again with room left, a frame stays, is handed over once more, and the byte is kept behind it. */
  lemma RefusedAgain(r: Reader, st: State, bytes: seq<Byte>, accept: Callback)
    requires r.Valid() && Refused(r, st) && |st.held| < r.Capacity() && bytes != [] && !accept(|st.delivered|)
    ensures FeedBytes(r, st, bytes, accept) ==
      (st.(held := st.held + [bytes[0]], delivered := st.delivered + [st.delivered[|st.delivered| - 1]]), true)
    ensures Refused(r, FeedBytes(r, st, bytes, accept).0)
  {
    hide Judge, FrameAt, Drain;
    JudgeStable(r, st.held, [bytes[0]]);
    DrainStep(r, st.(held := st.held + [bytes[0]]), accept);
  }

  /** The first byte of every call. */
  function Firsts(chunks: seq<seq<Byte>>): (s: seq<Byte>)
    requires forall i :: 0 <= i < |chunks| ==> chunks[i] != []
    ensures |s| == |chunks|
  {
    seq(|chunks|, i requires 0 <= i < |chunks| => chunks[i][0])
  }

  /** As long as there is room, every refusal of the same frame keeps exactly one more byte, whatever else the call brought. */
  lemma {:induction false} RefusedOften(r: Reader, st: State, chunks: seq<seq<Byte>>, accept: Callback)
    requires r.Valid() && Refused(r, st) && |st.held| + |chunks| <= r.Capacity()
    requires forall i :: 0 <= i < |chunks| ==> chunks[i] != []
    requires forall k :: |st.delivered| <= k < |st.delivered| + |chunks| ==> !accept(k)
    ensures var end := FeedAll(r, st, chunks, accept);
      && Refused(r, end) && end.held == st.held + Firsts(chunks)
      && |end.delivered| == |st.delivered| + |chunks|
      && (|end.held| == r.Capacity() <==> |st.held| + |chunks| == r.Capacity())
    decreases |chunks|
  {
    hide Refused, FeedBytes;
    if chunks == [] {
      assert st.held + [] == st.held;
    } else {
      RefusedAgain(r, st, chunks[0], accept);
      var next := FeedBytes(r, st, chunks[0], accept).0;
      RefusedOften(r, next, chunks[1..], accept);
      assert st.held + Firsts(chunks) == next.held + Firsts(chunks[1..]);
    }
  }

  /** A frame refused at once stands alone in the buffer. */
  lemma RefusedAtOnce(r: Reader, f: Frame, accept: Callback)
    requires r.Valid() && Receivable(r, f) && !accept(0)
    ensures FeedBytes(r, FRESH, Encode(f), accept).1
    ensures Refused(r, FeedBytes(r, FRESH, Encode(f), accept).0)
    ensures FeedBytes(r, FRESH, Encode(f), accept).0.held == Encode(f)
    ensures FeedBytes(r, FRESH, Encode(f), accept).0.delivered == [f]
  {
    var s := Encode(f);
    JudgeEncoded(r, f, []);
    assert s + [] == s;
    WaitsUntilComplete(r, f, 0, accept);
    assert s[0..] == s && s[..0] == [];
  }

  lemma {:induction false} WaitsUntilComplete(r: Reader, f: Frame, n: nat, accept: Callback)
    requires r.Valid() && Receivable(r, f) && !accept(0) && n < |Encode(f)|
    ensures var st := State(Encode(f)[..n], 0, 0, []);
      FeedBytes(r, st, Encode(f)[n..], accept) == (State(Encode(f), 0, 0, [f]), true)
    decreases |Encode(f)| - n
  {
    var s := Encode(f);
    var st := State(s[..n], 0, 0, []);
    var ready := State(s[..n + 1], 0, 0, []);
    assert s[..n] + [s[n..][0]] == s[..n + 1];
    assert s[n..][1..] == s[n + 1..];
    EncodedFits(r, f);
    JudgeEncoded(r, f, []);
    assert s + [] == s;
    hide Judge, FrameAt, Encode, Receivable, Drain;
    DrainStep(r, ready, accept);
    if n + 1 < |s| {
      PrefixWaits(r, f, n + 1);
      WaitsUntilComplete(r, f, n + 1, accept);
    } else {
      assert s[..n + 1] == s && ready.delivered + [f] == [f];
      assert Drain(r, ready, accept) == (State(s, 0, 0, [f]), true);
    }
  }

  lemma EncodedFits(r: Reader, f: Frame)
    requires r.Valid() && Receivable(r, f)
    ensures 0 < |Encode(f)| <= r.Capacity()
  {
    JudgeEncoded(r, f, []);
    assert Encode(f) + [] == Encode(f);
  }

  lemma PrefixWaits(r: Reader, f: Frame, n: nat)
    requires r.Valid() && Receivable(r, f) && n < |Encode(f)|
    ensures Judge(r, Encode(f)[..n]).Wait?
  {
    var s := Encode(f);
    JudgeEncoded(r, f, []);
    assert s + [] == s && s[..n] + s[n..] == s;
    if !Judge(r, s[..n]).Wait? {
      JudgeStable(r, s[..n], s[n..]);
      assert false;
    }
  }

  /** Every frame can fill every buffer: one refusal, and one more for each byte the frame leaves free. */
  lemma RefusalsFillBuffer(r: Reader, f: Frame, chunks: seq<seq<Byte>>, accept: Callback)
    requires r.Valid() && Receivable(r, f) && |Encode(f)| + |chunks| == r.Capacity()
    requires (forall i :: 0 <= i < |chunks| ==> chunks[i] != []) && (forall k :: 0 <= k <= |chunks| ==> !accept(k))
    ensures var st := FeedAll(r, FRESH, [Encode(f)] + chunks, accept);
      |st.held| == r.Capacity() && Encode(f) <= st.held && |st.delivered| == 1 + |chunks|
  {
    hide FeedBytes, Encode, Receivable, Refused;
    RefusedAtOnce(r, f, accept);
    var st := FeedBytes(r, FRESH, Encode(f), accept).0;
    assert ([Encode(f)] + chunks)[1..] == chunks;
    RefusedOften(r, st, chunks, accept);
  }

  /** A host buffer that a single refusal fills. */
  lemma HostBufferFills()
    ensures var r := Host(5, 0, false);
      r.Valid() && |FeedAll(r, FRESH, [Encode(ReadAck(0))], _ => false).held| == r.Capacity()
  {
    var r := Host(5, 0, false);
    RefusalsFillBuffer(r, ReadAck(0), [], _ => false);
    assert [Encode(ReadAck(0))] + [] == [Encode(ReadAck(0))];
  }

  /** The board's buffer fills too, behind any frame, as when its datagram stream has no room: a frame of n bytes refused 262 - n times in all. */
  lemma BoardBufferFills(f: Frame, chunk: seq<Byte>)
    requires Receivable(Firmware, f) && chunk != []
    ensures |Encode(f)| <= FIRMWARE_CAPACITY
    ensures var again := seq(FIRMWARE_CAPACITY - |Encode(f)|, _ => chunk);
      var st := FeedAll(Firmware, FRESH, [Encode(f)] + again, _ => false);
      |st.held| == FIRMWARE_CAPACITY && |st.delivered| == 262 - |Encode(f)|
  {
    EncodedFits(Firmware, f);
    RefusalsFillBuffer(Firmware, f, seq(FIRMWARE_CAPACITY - |Encode(f)|, _ => chunk), _ => false);
  }

  /** A single call never fills the board's buffer from a state without a refused frame: no frame is that long. */
  lemma OneCallNeverFillsBoard(st: State, bytes: seq<Byte>, accept: Callback)
    requires Settled(Firmware, st)
    ensures |FeedBytes(Firmware, st, bytes, accept).0.held| < FIRMWARE_CAPACITY
  {
    FillsAtOnce(Firmware, st, bytes, accept);
    FeedLeaves(Firmware, st, bytes, accept);
  }

  /** What a byte after a refusal does: with room left the frame is handed over again, in a full buffer it is lost. */
  lemma AfterRefusal(r: Reader, st: State, byte: Byte, accept: Callback)
    requires r.Valid() && Legal(r, st) && Refused(r, st)
    ensures var (next, _) := FeedByte(r, st, byte, accept);
      && (|st.held| < r.Capacity() ==> st.delivered + [st.delivered[|st.delivered| - 1]] <= next.delivered)
      && (|st.held| == r.Capacity() ==> next.discarded >= st.discarded + 2 && next.invalid > st.invalid)
  {
    if |st.held| == r.Capacity() {
      FullBufferLosesFrame(r, st, byte, accept);
    } else {
      hide Judge, FrameAt, Drain;
      var ready := st.(held := st.held + [byte]);
      JudgeStable(r, st.held, [byte]);
      DrainStep(r, ready, accept);
      if accept(|st.delivered|) {
        DrainLeaves(r, Consume(r, ready), accept);
      }
    }
  }
}
