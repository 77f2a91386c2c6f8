/**
 * The host's link coordinator: one command slot, the link state, and a ring of XRCE datagrams.
 * Runs interleave the locked sections of the transmitting thread with every other operation.
 */
module Coordinator {
  import opened Bytes
  import opened FrameGrammar
  import opened FrameFeeding
  import opened SequenceTracking
  import HostProtocol
  import L = LinkState

  const QUEUE_DEPTH := 64
  const TRANSMIT_CAPACITY := PREFIX_SIZE + MAX_DATA_PAYLOAD

  /** The locked section the transmitting thread enters next. */
  datatype Stage = CheckCommand | CheckAck | CheckOutput | CheckXrce

  datatype Coord = Coord(
    link: L.Link, command: Option<Byte>, queue: seq<seq<Byte>>, stage: Stage,
    rejected: nat, xrceFrames: nat, confirmations: nat, overflows: nat)

  const INITIAL := Coord(L.INITIAL, None, [], CheckCommand, 0, 0, 0, 0)

  /** `taken` is the answer of whoever the frame is passed on to: the XRCE receiver, or acquisition for accepted data. */
  datatype Event =
    | Receive(frame: Frame, taken: bool)
    | PublishOutput(sequence: Word16, payload: seq<Byte>)
    | QueueCommand(command: Byte)
    | QueueXrce(payload: seq<Byte>)
    | Transmit

  function Process(c: Coord, frame: Frame, taken: bool): Coord {
    match frame
    case Config(command, None) => c.(rejected := c.rejected + 1)
    case Config(command, Some(status)) =>
      var (link, result) := L.Confirm(c.link, command, status);
      if result.Ok? then c.(link := link, confirmations := c.confirmations + 1) else c.(rejected := c.rejected + 1)
    case Data(sequence, _) =>
      var (link, result, accepted) := L.AcceptAcquisition(c.link, sequence);
      c.(link := link, rejected := c.rejected + if accepted && taken then 0 else 1)
    case Xrce(_) => c.(xrceFrames := c.xrceFrames + 1, rejected := c.rejected + if taken then 0 else 1)
    case ReadAck(_) => c.(rejected := c.rejected + 1)
  }

  /** One locked section of a transmission. */
  function TransmitStep(c: Coord): (Coord, Option<Frame>) {
    match c.stage
    case CheckCommand =>
      if c.command.Some? then (c.(command := None), Some(Config(c.command.value, None))) else (c.(stage := CheckAck), None)
    case CheckAck =>
      var (link, sequence, available) := L.TakeReadAck(c.link);
      if available then (c.(link := link, stage := CheckCommand), Some(ReadAck(sequence)))
      else (c.(link := link, stage := CheckOutput), None)
    case CheckOutput =>
      var (link, mailbox) := L.TakeOutput(c.link);
      if mailbox.pending then (c.(link := link, stage := CheckCommand), Some(Data(mailbox.sequence, mailbox.payload)))
      else (c.(link := link, stage := CheckXrce), None)
    case CheckXrce =>
      if c.queue == [] then (c.(stage := CheckCommand), None)
      else (c.(queue := c.queue[1..], stage := CheckCommand), Some(Xrce(c.queue[0])))
  }

  function Step(c: Coord, e: Event): (Coord, Option<Frame>) {
    match e
    case Receive(frame, taken) => (Process(c, frame, taken), None)
    case PublishOutput(sequence, payload) => (c.(link := L.Publish(c.link, sequence, payload).0), None)
    case QueueCommand(command) =>
      (if L.IsCommand(command) && c.command.None? then c.(command := Some(command)) else c, None)
    case QueueXrce(payload) =>
      (if |payload| > XRCE_MTU then c
       else if |c.queue| == QUEUE_DEPTH then c.(overflows := c.overflows + 1)
       else c.(queue := c.queue + [payload]), None)
    case Transmit => TransmitStep(c)
  }

  // ---- Runs ----

  function After(es: seq<Event>): Coord {
    if es == [] then INITIAL else Step(After(es[..|es| - 1]), es[|es| - 1]).0
  }

  /** Frames handed to the wire, in order. */
  function Sent(es: seq<Event>): seq<Frame> {
    if es == [] then []
    else
      var before := es[..|es| - 1];
      var out := Step(After(before), es[|es| - 1]).1;
      Sent(before) + if out.Some? then [out.value] else []
  }

  lemma AfterStep(es: seq<Event>)
    ensures es != [] ==> After(es) == Step(After(es[..|es| - 1]), es[|es| - 1]).0
    ensures es == [] ==> After(es) == INITIAL && Sent(es) == []
  {
  }

  predicate Confirms(e: Event, command: Byte) {
    e.Receive? && e.frame == Config(command, Some(command))
  }

  predicate Leaves(e: Event) { Confirms(e, L.DISABLE) || Confirms(e, L.ENABLE) }

  predicate PublishAccepted(mode: L.Mode, e: Event) {
    e.PublishOutput? && mode.Streaming? && |e.payload| <= MAX_DATA_PAYLOAD
  }

  /**
   * What the history alone determines: the mode from the confirmations, the acquisition tracker since the last one,
   * and the latest output and acquisition accepted since the last ENABLE or DISABLE confirmation.
   */
  datatype View = View(mode: L.Mode, tracking: Tracking, output: Option<(Word16, seq<Byte>)>, acquisition: Option<Word16>)

  function NextView(v: View, e: Event): View {
    if Leaves(e) then View(if Confirms(e, L.DISABLE) then L.Disabled else L.Enabled, UNTRACKED, None, None)
    else if Confirms(e, L.STREAM) && !v.mode.Disabled? then v.(mode := L.Streaming, tracking := UNTRACKED)
    else if PublishAccepted(v.mode, e) then v.(output := Some((e.sequence, e.payload)))
    else if e.Receive? && e.frame.Data? && v.mode.Streaming? then
      var (tracking, relation) := Track(v.tracking, e.frame.sequence);
      v.(tracking := tracking, acquisition := if IsAccepted(relation) then Some(e.frame.sequence) else v.acquisition)
    else v
  }

  function ViewAfter(es: seq<Event>): View {
    if es == [] then View(L.Disabled, UNTRACKED, None, None) else NextView(ViewAfter(es[..|es| - 1]), es[|es| - 1])
  }

  function AcceptedPublishes(es: seq<Event>): nat {
    if es == [] then 0
    else
      var before := es[..|es| - 1];
      AcceptedPublishes(before) + if PublishAccepted(ViewAfter(before).mode, es[|es| - 1]) then 1 else 0
  }

  /** Pending outputs thrown away by an ENABLE or DISABLE confirmation. */
  function ClearedOutputs(es: seq<Event>): nat {
    if es == [] then 0
    else
      var before := es[..|es| - 1];
      ClearedOutputs(before) + if Leaves(es[|es| - 1]) && After(before).link.mailbox.pending then 1 else 0
  }

  function CountData(frames: seq<Frame>): nat {
    if frames == [] then 0 else CountData(frames[..|frames| - 1]) + if frames[|frames| - 1].Data? then 1 else 0
  }

  function XrcePayloads(frames: seq<Frame>): seq<seq<Byte>> {
    if frames == [] then []
    else
      var last := frames[|frames| - 1];
      XrcePayloads(frames[..|frames| - 1]) + if last.Xrce? then [last.payload] else []
  }

  predicate WithinMtu(e: Event) { e.QueueXrce? && |e.payload| <= XRCE_MTU }

  /** The datagram a step adds to the ring, and the one it removes. */
  function Queued(c: Coord, e: Event): seq<seq<Byte>> {
    if WithinMtu(e) && |c.queue| != QUEUE_DEPTH then [e.payload] else []
  }

  function Departed(out: Option<Frame>): seq<seq<Byte>> {
    if out.Some? && out.value.Xrce? then [out.value.payload] else []
  }

  /** Datagrams the ring accepted: within the MTU, and the ring not full. */
  function AcceptedXrce(es: seq<Event>): seq<seq<Byte>> {
    if es == [] then []
    else
      var before, e := es[..|es| - 1], es[|es| - 1];
      AcceptedXrce(before) + Queued(After(before), e)
  }

  function RefusedXrce(es: seq<Event>): nat {
    if es == [] then 0
    else
      var before, e := es[..|es| - 1], es[|es| - 1];
      RefusedXrce(before) + if WithinMtu(e) && |After(before).queue| == QUEUE_DEPTH then 1 else 0
  }

  /** What every operation keeps. */
  predicate Consistent(c: Coord) {
    && L.Consistent(c.link)
    && (c.command.Some? ==> L.IsCommand(c.command.value))
    && |c.queue| <= QUEUE_DEPTH
    && forall i :: 0 <= i < |c.queue| ==> |c.queue[i]| <= XRCE_MTU
  }

  /** The link state is what the history says, and whatever is pending is the latest of its kind. */
  predicate Agrees(c: Coord, v: View) {
    && c.link.mode == v.mode
    && c.link.acquisition == v.tracking
    && (c.link.mailbox.pending ==> v.output == Some((c.link.mailbox.sequence, c.link.mailbox.payload)))
    && (c.link.ackPending ==> v.acquisition == Some(c.link.latestAck))
  }

  lemma StepKeepsConsistent(c: Coord, e: Event)
    requires Consistent(c)
    ensures Consistent(Step(c, e).0)
  {
  }

  lemma StepAgrees(c: Coord, v: View, e: Event)
    requires Consistent(c) && Agrees(c, v)
    ensures Agrees(Step(c, e).0, NextView(v, e))
  {
    hide Track;
  }

  lemma {:induction false} RunInvariant(es: seq<Event>)
    ensures Consistent(After(es)) && Agrees(After(es), ViewAfter(es))
  {
    if es != [] {
      hide Step, NextView, Consistent, Agrees;
      var before, e := es[..|es| - 1], es[|es| - 1];
      RunInvariant(before);
      StepKeepsConsistent(After(before), e);
      StepAgrees(After(before), ViewAfter(before), e);
      assert After(es) == Step(After(before), e).0;
    }
  }

  /** After any run, the host mode is the confirmed one and nothing is pending outside STREAMING. */
  lemma NothingPendingOutsideStreaming(es: seq<Event>)
    ensures After(es).link.mode == ViewAfter(es).mode
    ensures !ViewAfter(es).mode.Streaming? ==> !After(es).link.mailbox.pending && !After(es).link.ackPending
  {
    RunInvariant(es);
  }

  /** Every frame sent at the end of any run is in STREAMING if it carries data, and carries the latest value of its kind. */
  lemma SentIsLatest(es: seq<Event>, frame: Frame)
    requires Step(After(es), Transmit).1 == Some(frame)
    ensures frame.Data? ==> ViewAfter(es).mode.Streaming? && ViewAfter(es).output == Some((frame.sequence, frame.payload))
    ensures frame.ReadAck? ==> ViewAfter(es).mode.Streaming? && ViewAfter(es).acquisition == Some(frame.sequence)
    ensures frame.Config? ==> L.IsCommand(frame.command) && frame.status.None?
    ensures |Encode(frame)| <= TRANSMIT_CAPACITY
  {
    RunInvariant(es);
  }

  function Bit(b: bool): nat { if b then 1 else 0 }

  lemma StepConservesOutput(c: Coord, e: Event)
    requires Consistent(c)
    ensures var (next, out) := Step(c, e);
      Bit(c.link.mailbox.pending) + c.link.coalesced + Bit(PublishAccepted(c.link.mode, e)) ==
        Bit(next.link.mailbox.pending) + next.link.coalesced + Bit(out.Some? && out.value.Data?)
          + Bit(Leaves(e) && c.link.mailbox.pending)
  {
    hide Track;
  }

  lemma SentGrows(es: seq<Event>)
    requires es != []
    ensures var before, out := es[..|es| - 1], Step(After(es[..|es| - 1]), es[|es| - 1]).1;
      && Sent(es) == Sent(before) + (if out.Some? then [out.value] else [])
      && CountData(Sent(es)) == CountData(Sent(before)) + Bit(out.Some? && out.value.Data?)
      && XrcePayloads(Sent(es)) == XrcePayloads(Sent(before)) + Departed(out)
  {
    hide Step;
    var before, out := es[..|es| - 1], Step(After(es[..|es| - 1]), es[|es| - 1]).1;
    if out.Some? {
      assert Sent(es)[..|Sent(es)| - 1] == Sent(before);
    } else {
      assert Sent(es) == Sent(before);
    }
  }

  /** Every accepted output is sent, overwritten, thrown away by a mode change, or still pending. */
  lemma {:induction false} OutputsAreConserved(es: seq<Event>)
    ensures var link := After(es).link;
      AcceptedPublishes(es) == CountData(Sent(es)) + link.coalesced + ClearedOutputs(es) + Bit(link.mailbox.pending)
  {
    if es != [] {
      hide Step, NextView, PublishAccepted, Leaves, Consistent, Sent, CountData;
      var before, e := es[..|es| - 1], es[|es| - 1];
      OutputsAreConserved(before);
      NothingPendingOutsideStreaming(before);
      RunInvariant(before);
      StepConservesOutput(After(before), e);
      SentGrows(es);
      assert After(es) == Step(After(before), e).0;
    } else {
      assert After(es) == INITIAL;
      assert Sent(es) == [];
    }
  }

  lemma StepMovesXrce(c: Coord, e: Event)
    ensures var (next, out) := Step(c, e);
      && c.queue + Queued(c, e) == Departed(out) + next.queue
      && next.overflows == c.overflows + Bit(WithinMtu(e) && |c.queue| == QUEUE_DEPTH)
  {
    hide Track;
  }

  lemma Regroup<T>(a: seq<T>, b: seq<T>, c: seq<T>, d: seq<T>, e: seq<T>)
    requires b + c == d + e
    ensures (a + b) + c == (a + d) + e
  {
    assert (a + b) + c == a + (b + c);
    assert (a + d) + e == a + (d + e);
  }

  /** XRCE datagrams leave in the order they were accepted, across any mode changes; each refused one is counted. */
  lemma {:induction false} XrceIsFifo(es: seq<Event>)
    ensures AcceptedXrce(es) == XrcePayloads(Sent(es)) + After(es).queue
    ensures After(es).overflows == RefusedXrce(es)
  {
    hide Step, Sent, After, WithinMtu;
    AfterStep(es);
    if es != [] {
      hide XrcePayloads;
      var before, e := es[..|es| - 1], es[|es| - 1];
      var c := After(before);
      XrceIsFifo(before);
      StepMovesXrce(c, e);
      SentGrows(es);
      Regroup(XrcePayloads(Sent(before)), c.queue, Queued(c, e), Departed(Step(c, e).1), Step(c, e).0.queue);
    }
  }

  // ---- Commands and counters ----

  /** Commands the slot took: valid ones that found it empty. */
  function AcceptedCommands(es: seq<Event>): seq<Byte> {
    if es == [] then []
    else
      var before, e := es[..|es| - 1], es[|es| - 1];
      AcceptedCommands(before) + if e.QueueCommand? && 1 <= e.command <= 3 && After(before).command.None? then [e.command] else []
  }

  function ConfigCommands(frames: seq<Frame>): seq<Byte> {
    if frames == [] then []
    else
      var last := frames[|frames| - 1];
      ConfigCommands(frames[..|frames| - 1]) + if last.Config? then [last.command] else []
  }

  function InSlot(c: Coord): seq<Byte> { if c.command.Some? then [c.command.value] else [] }

  lemma StepMovesCommand(c: Coord, e: Event)
    ensures var (next, out) := Step(c, e);
      InSlot(c) + (if e.QueueCommand? && 1 <= e.command <= 3 && c.command.None? then [e.command] else []) ==
        (if out.Some? && out.value.Config? then [out.value.command] else []) + InSlot(next)
  {
    hide Track;
  }

  lemma SentCommands(frames: seq<Frame>, out: Option<Frame>)
    ensures ConfigCommands(frames + if out.Some? then [out.value] else []) ==
      ConfigCommands(frames) + if out.Some? && out.value.Config? then [out.value.command] else []
  {
    if out.Some? {
      assert (frames + [out.value])[..|frames|] == frames;
    } else {
      assert frames + [] == frames;
    }
  }

  /** Commands are sent once each, in the order the slot took them; at most one is waiting. */
  lemma {:induction false} CommandsAreSent(es: seq<Event>)
    ensures AcceptedCommands(es) == ConfigCommands(Sent(es)) + InSlot(After(es))
  {
    hide Step, Sent, After, InSlot;
    AfterStep(es);
    if es == [] {
      NothingInSlot();
    } else {
      hide ConfigCommands;
      var before, e := es[..|es| - 1], es[|es| - 1];
      var c := After(before);
      var out := Step(c, e).1;
      CommandsAreSent(before);
      StepMovesCommand(c, e);
      SentGrows(es);
      SentCommands(Sent(before), out);
      var queued := if e.QueueCommand? && 1 <= e.command <= 3 && c.command.None? then [e.command] else [];
      var sent := if out.Some? && out.value.Config? then [out.value.command] else [];
      Regroup(ConfigCommands(Sent(before)), InSlot(c), queued, sent, InSlot(After(es)));
    }
  }

  lemma NothingInSlot()
    ensures InSlot(INITIAL) == []
  {
  }

  /** A frame that is used: a confirmation the mode admits, new data in STREAMING that is taken, or a datagram that is taken. */
  predicate IsUsed(v: View, e: Event) {
    e.Receive? &&
    match e.frame
    case Config(command, status) => status == Some(command) && 1 <= command <= 3 && (command == 3 ==> !v.mode.Disabled?)
    case Data(sequence, _) => v.mode.Streaming? && IsAccepted(Track(v.tracking, sequence).1) && e.taken
    case Xrce(_) => e.taken
    case ReadAck(_) => false
  }

  function Count(es: seq<Event>, confirmation: bool, used: bool): nat {
    if es == [] then 0
    else
      var before, e := es[..|es| - 1], es[|es| - 1];
      Count(before, confirmation, used) +
        Bit(e.Receive? && (confirmation ==> e.frame.Config?) && IsUsed(ViewAfter(before), e) == used)
  }

  function Datagrams(es: seq<Event>): nat {
    if es == [] then 0 else Datagrams(es[..|es| - 1]) + Bit(es[|es| - 1].Receive? && es[|es| - 1].frame.Xrce?)
  }

  lemma StepCounts(c: Coord, v: View, e: Event)
    requires Agrees(c, v)
    ensures var next := Step(c, e).0;
      && next.rejected == c.rejected + Bit(e.Receive? && !IsUsed(v, e))
      && next.confirmations == c.confirmations + Bit(e.Receive? && e.frame.Config? && IsUsed(v, e))
      && next.xrceFrames == c.xrceFrames + Bit(e.Receive? && e.frame.Xrce?)
  {
    hide Track;
  }

  /** Every frame received is used or counted as rejected; confirmations and datagrams are counted truly. */
  lemma {:induction false} CountersAreTrue(es: seq<Event>)
    ensures After(es).rejected == Count(es, false, false)
    ensures After(es).confirmations == Count(es, true, true)
    ensures After(es).xrceFrames == Datagrams(es)
  {
    hide Step, IsUsed, Agrees, Consistent, NextView;
    if es != [] {
      var before, e := es[..|es| - 1], es[|es| - 1];
      CountersAreTrue(before);
      RunInvariant(before);
      StepCounts(After(before), ViewAfter(before), e);
    } else {
      assert After(es) == INITIAL;
    }
  }

  // ---- Frames reach the board ----

  predicate BoardSized(e: Event) { e.PublishOutput? ==> |e.payload| == FIRMWARE_DATA_SIZE }

  lemma StepIsReceivable(c: Coord, e: Event)
    requires Consistent(c) && BoardSized(e)
    requires c.link.mailbox.pending ==> |c.link.mailbox.payload| == FIRMWARE_DATA_SIZE
    ensures var (next, out) := Step(c, e);
      && (next.link.mailbox.pending ==> |next.link.mailbox.payload| == FIRMWARE_DATA_SIZE)
      && (out.Some? ==> Receivable(Firmware, out.value))
  {
    hide Track;
  }

  /** The board accepts the frames of a run whose outputs have the board's actuation size. */
  lemma {:induction false} SentIsReceivable(es: seq<Event>)
    requires forall i :: 0 <= i < |es| ==> BoardSized(es[i])
    ensures forall i :: 0 <= i < |Sent(es)| ==> Receivable(Firmware, Sent(es)[i])
    ensures After(es).link.mailbox.pending ==> |After(es).link.mailbox.payload| == FIRMWARE_DATA_SIZE
  {
    hide Step, Consistent, Receivable, BoardSized, Sent, After;
    AfterStep(es);
    if es != [] {
      var before, e := es[..|es| - 1], es[|es| - 1];
      SentIsReceivable(before);
      RunInvariant(before);
      StepIsReceivable(After(before), e);
      SentGrows(es);
    }
  }

  function Segments(frames: seq<Frame>): seq<Segment> {
    seq(|frames|, i requires 0 <= i < |frames| => Segment([], frames[i]))
  }

  lemma {:induction false} FramesOfSegments(frames: seq<Frame>)
    ensures Frames(Segments(frames)) == frames
  {
    if frames != [] {
      FramesOfSegments(frames[1..]);
      assert Segments(frames)[1..] == Segments(frames[1..]);
    }
  }

  /** End to end: however the line cuts the bytes of a run's frames, the board's parser hands over exactly those frames. */
  lemma SentReachesBoard(es: seq<Event>, chunks: seq<seq<Byte>>, accept: Callback)
    requires forall i :: 0 <= i < |es| ==> BoardSized(es[i])
    requires Concat(chunks) == Stream(Segments(Sent(es)), []) && AcceptsAll(accept)
    ensures FeedAll(Firmware, FRESH, chunks, accept).delivered == Sent(es)
  {
    SentIsReceivable(es);
    FramesOfSegments(Sent(es));
    EncodedFramesAreDelivered(Firmware, Segments(Sent(es)), [], chunks, accept);
  }

  /** With a board that may refuse, it hands over the frames sent up to and including the first it refuses. */
  lemma SentReachesBoardUpToRefusal(es: seq<Event>, chunks: seq<seq<Byte>>, accept: Callback)
    requires forall i :: 0 <= i < |es| ==> BoardSized(es[i])
    requires Concat(chunks) == Stream(Segments(Sent(es)), [])
    ensures FeedUntilRefused(Firmware, FRESH, chunks, accept).0.delivered == HandedOver(Sent(es), 0, accept)
  {
    SentIsReceivable(es);
    FramesOfSegments(Sent(es));
    EncodedFramesUpToRefusal(Firmware, Segments(Sent(es)), [], chunks, accept);
  }

  // ---- One whole transmission, undisturbed ----

  /** A call that no other thread interrupts: its four locked sections in order, up to the first that yields a frame. */
  function TransmitAll(c: Coord): (Coord, Option<Frame>) {
    var (c1, o1) := TransmitStep(c);
    if o1.Some? then (c1, o1) else
    var (c2, o2) := TransmitStep(c1);
    if o2.Some? then (c2, o2) else
    var (c3, o3) := TransmitStep(c2);
    if o3.Some? then (c3, o3) else TransmitStep(c3)
  }

  /** Commands go first, then acknowledgements, then outputs, then datagrams, and each fits the caller's buffer. */
  lemma TransmitPriority(c: Coord)
    requires Consistent(c) && c.stage.CheckCommand?
    ensures var (next, out) := TransmitAll(c);
      && next.stage.CheckCommand? && Consistent(next)
      && out == (if c.command.Some? then Some(Config(c.command.value, None))
                 else if c.link.ackPending then Some(ReadAck(c.link.latestAck))
                 else if c.link.mailbox.pending then Some(Data(c.link.mailbox.sequence, c.link.mailbox.payload))
                 else if c.queue != [] then Some(Xrce(c.queue[0]))
                 else None)
      && (out.Some? ==> |Encode(out.value)| <= TRANSMIT_CAPACITY)
  {
  }

  /** The bytes a transmission puts on the wire. */
  function Wire(frame: Option<Frame>): seq<Byte> {
    if frame.Some? then Encode(frame.value) else []
  }

  /** One locked section, entered with the state as it is between calls. */
  function Section(c: Coord, stage: Stage): (Coord, Option<Frame>) {
    var (next, out) := TransmitStep(c.(stage := stage));
    (next.(stage := CheckCommand), out)
  }

  /** A whole transmission is the first section that yields a frame; those before it change nothing. */
  lemma TransmitCascade(c: Coord)
    requires c.stage.CheckCommand?
    ensures Section(c, CheckCommand).1.Some? ==> TransmitAll(c) == Section(c, CheckCommand)
    ensures Section(c, CheckCommand).1.None? ==> Section(c, CheckCommand).0 == c
    ensures Section(c, CheckCommand).1.None? && Section(c, CheckAck).1.Some? ==> TransmitAll(c) == Section(c, CheckAck)
    ensures Section(c, CheckAck).1.None? ==> Section(c, CheckAck).0 == c
    ensures Section(c, CheckCommand).1.None? && Section(c, CheckAck).1.None? && Section(c, CheckOutput).1.Some? ==>
      TransmitAll(c) == Section(c, CheckOutput)
    ensures Section(c, CheckOutput).1.None? ==> Section(c, CheckOutput).0 == c
    ensures Section(c, CheckCommand).1.None? && Section(c, CheckAck).1.None? && Section(c, CheckOutput).1.None? ==>
      TransmitAll(c) == Section(c, CheckXrce)
  {
  }

  lemma TailMoves(head: nat, count: nat)
    ensures ((head + count) % QUEUE_DEPTH + 1) % QUEUE_DEPTH == (head + (count + 1)) % QUEUE_DEPTH
  {
  }

  lemma StepQueues(c: Coord, payload: seq<Byte>)
    ensures Step(c, QueueXrce(payload)).0 ==
      if |payload| > XRCE_MTU then c
      else if |c.queue| == QUEUE_DEPTH then c.(overflows := c.overflows + 1)
      else c.(queue := c.queue + [payload])
  {
  }

  // ---- The coordinator itself ----

  /** The datagrams of a ring, oldest first. */
  function RingContents(ring: seq<seq<Byte>>, head: nat, count: nat): seq<seq<Byte>>
    requires |ring| == QUEUE_DEPTH && count <= QUEUE_DEPTH
  {
    seq(count, i requires 0 <= i < count => ring[(head + i) % QUEUE_DEPTH])
  }

  lemma RingEnqueue(ring: seq<seq<Byte>>, head: nat, count: nat, payload: seq<Byte>)
    requires |ring| == QUEUE_DEPTH && head < QUEUE_DEPTH && count < QUEUE_DEPTH
    ensures RingContents(ring[(head + count) % QUEUE_DEPTH := payload], head, count + 1) == RingContents(ring, head, count) + [payload]
  {
  }

  lemma RingDequeue(ring: seq<seq<Byte>>, head: nat, count: nat)
    requires |ring| == QUEUE_DEPTH && head < QUEUE_DEPTH && 0 < count <= QUEUE_DEPTH
    ensures RingContents(ring, (head + 1) % QUEUE_DEPTH, count - 1) == RingContents(ring, head, count)[1..]
    ensures RingContents(ring, head, count)[0] == ring[head]
  {
  }

  datatype Status = Ok | InvalidArgument | Busy | BadState

  class DaqCoordinator {
    const link: L.LinkState
    var pendingCommand: Byte
    var commandPending: bool
    var xrceQueue: array<seq<Byte>>
    var queueHead: nat
    var queueTail: nat
    var queueCount: nat
    var queueOverflows: nat
    var rejectedFrames: nat
    var xrceFrames: nat
    var confirmations: nat

    constructor ()
      ensures Valid() && Abstract() == INITIAL && fresh(link) && fresh(xrceQueue)
    {
      link := new L.LinkState();
      xrceQueue := new seq<Byte>[QUEUE_DEPTH](_ => []);
      pendingCommand, commandPending := 0, false;
      queueHead, queueTail, queueCount, queueOverflows := 0, 0, 0, 0;
      rejectedFrames, xrceFrames, confirmations := 0, 0, 0;
    }

    ghost predicate WellFormed()
      reads this, xrceQueue
    {
      && xrceQueue.Length == QUEUE_DEPTH
      && queueHead < QUEUE_DEPTH && queueCount <= QUEUE_DEPTH
      && queueTail == (queueHead + queueCount) % QUEUE_DEPTH
    }

    ghost function Abstract(): Coord
      requires WellFormed()
      reads this, link, xrceQueue
    {
      Coord(link.Abstract(), if commandPending then Some(pendingCommand) else None,
            RingContents(xrceQueue[..], queueHead, queueCount), CheckCommand,
            rejectedFrames, xrceFrames, confirmations, queueOverflows)
    }

    ghost predicate Valid()
      reads this, link, xrceQueue
    {
      WellFormed() && Consistent(Abstract())
    }

    /** Called by the parser for every frame of the board; `taken` is the answer of the XRCE receiver or of acquisition. */
    method ProcessFrame(frame: Frame, taken: bool)
      requires Valid()
      modifies this, link
      ensures Valid() && xrceQueue == old(xrceQueue)
      ensures Abstract() == Process(old(Abstract()), frame, taken)
    {
      hide Track, Consistent, RingContents;
      ghost var before := Abstract();
      StepKeepsConsistent(before, Receive(frame, taken));
      match frame {
        case Config(command, None) =>
          rejectedFrames := rejectedFrames + 1;
        case Config(command, Some(status)) =>
          var result := link.ConfirmCommand(command, status);
          if result == L.Ok {
            confirmations := confirmations + 1;
          } else {
            rejectedFrames := rejectedFrames + 1;
          }
        case Data(sequence, _) =>
          var result, accepted := link.AcceptSequence(sequence);
          if result != L.Ok || !accepted {
            rejectedFrames := rejectedFrames + 1;
          } else if !taken {
            rejectedFrames := rejectedFrames + 1;
          }
        case Xrce(_) =>
          xrceFrames := xrceFrames + 1;
          if !taken {
            rejectedFrames := rejectedFrames + 1;
          }
        case ReadAck(_) =>
          rejectedFrames := rejectedFrames + 1;
      }
    }

    method Queue(command: Byte) returns (status: Status)
      requires Valid()
      modifies this
      ensures Valid() && xrceQueue == old(xrceQueue)
      ensures Abstract() == Step(old(Abstract()), QueueCommand(command)).0
      ensures status == if !L.IsCommand(command) then InvalidArgument else if old(commandPending) then Busy else Ok
    {
      if !L.IsCommand(command) {
        return InvalidArgument;
      }
      if commandPending {
        return Busy;
      }
      pendingCommand := command;
      commandPending := true;
      return Ok;
    }

    method Publish(sequence: Word16, payload: seq<Byte>) returns (status: Status)
      requires Valid()
      modifies link
      ensures Valid()
      ensures Abstract() == Step(old(Abstract()), PublishOutput(sequence, payload)).0
      ensures status == if |payload| > MAX_DATA_PAYLOAD then InvalidArgument else if old(link.mode).Streaming? then Ok else BadState
    {
      var result := link.PublishOutput(sequence, payload);
      return if result == L.Ok then Ok else if result == L.InvalidState then BadState else InvalidArgument;
    }

    method Enqueue(payload: seq<Byte>) returns (status: Status)
      requires Valid()
      modifies this, xrceQueue
      ensures Valid() && xrceQueue == old(xrceQueue)
      ensures Abstract() == Step(old(Abstract()), QueueXrce(payload)).0
      ensures status == if |payload| > XRCE_MTU then InvalidArgument else if old(queueCount) == QUEUE_DEPTH then Busy else Ok
    {
      if |payload| > XRCE_MTU {
        return InvalidArgument;
      }
      hide RingContents, Consistent, Step;
      StepKeepsConsistent(Abstract(), QueueXrce(payload));
      StepQueues(Abstract(), payload);
      if queueCount == QUEUE_DEPTH {
        queueOverflows := queueOverflows + 1;
        return Busy;
      }
      Append(payload);
      return Ok;
    }

    method Append(payload: seq<Byte>)
      requires WellFormed() && queueCount < QUEUE_DEPTH
      modifies this`queueTail, this`queueCount, xrceQueue
      ensures WellFormed()
      ensures Abstract() == old(Abstract()).(queue := old(Abstract()).queue + [payload])
    {
      hide RingContents;
      ghost var ring := xrceQueue[..];
      RingEnqueue(ring, queueHead, queueCount, payload);
      xrceQueue[queueTail] := payload;
      assert xrceQueue[..] == ring[queueTail := payload];
      TailMoves(queueHead, queueCount);
      queueTail := (queueTail + 1) % QUEUE_DEPTH;
      queueCount := queueCount + 1;
    }

    /** First locked section: the pending command. */
    method SendCommand(destination: array<Byte>) returns (frame: Option<Frame>, size: nat)
      requires Valid() && destination.Length >= TRANSMIT_CAPACITY
      modifies this, link, destination
      ensures Valid() && xrceQueue == old(xrceQueue)
      ensures (Abstract(), frame) == Section(old(Abstract()), CheckCommand)
      ensures size == |Wire(frame)| && destination[..] == Wire(frame) + old(destination[size..])
    {
      ghost var before := Abstract().(stage := CheckCommand);
      StepKeepsConsistent(before, Transmit);
      if commandPending {
        size := HostProtocol.EncodeConfig(destination, pendingCommand, false, 0);
        commandPending := size == 0;
        return Some(Config(pendingCommand, None)), size;
      }
      return None, 0;
    }

    /** Second locked section: the pending acknowledgement. */
    method SendAck(destination: array<Byte>) returns (frame: Option<Frame>, size: nat)
      requires Valid() && destination.Length >= TRANSMIT_CAPACITY
      modifies this, link, destination
      ensures Valid() && xrceQueue == old(xrceQueue)
      ensures (Abstract(), frame) == Section(old(Abstract()), CheckAck)
      ensures size == |Wire(frame)| && destination[..] == Wire(frame) + old(destination[size..])
    {
      ghost var before := Abstract().(stage := CheckAck);
      StepKeepsConsistent(before, Transmit);
      var sequence, available := link.TakeAck();
      if available {
        size := HostProtocol.EncodeReadAck(destination, sequence);
        return Some(ReadAck(sequence)), size;
      }
      return None, 0;
    }

    /** Third locked section: the latest output. */
    method SendOutput(destination: array<Byte>) returns (frame: Option<Frame>, size: nat)
      requires Valid() && destination.Length >= TRANSMIT_CAPACITY
      modifies this, link, destination
      ensures Valid() && xrceQueue == old(xrceQueue)
      ensures (Abstract(), frame) == Section(old(Abstract()), CheckOutput)
      ensures size == |Wire(frame)| && destination[..] == Wire(frame) + old(destination[size..])
    {
      ghost var before := Abstract().(stage := CheckOutput);
      StepKeepsConsistent(before, Transmit);
      var mailbox := link.TakeLatestOutput();
      if mailbox.pending {
        size := HostProtocol.EncodeData(destination, mailbox.sequence, mailbox.payload);
        return Some(Data(mailbox.sequence, mailbox.payload)), size;
      }
      return None, 0;
    }

    method Oldest() returns (payload: seq<Byte>)
      requires Valid() && queueCount > 0
      ensures Abstract().queue != [] && payload == Abstract().queue[0]
    {
      RingDequeue(xrceQueue[..], queueHead, queueCount);
      payload := xrceQueue[queueHead];
    }

    method RemoveOldest()
      requires WellFormed() && queueCount > 0
      modifies this`queueHead, this`queueCount
      ensures WellFormed()
      ensures old(Abstract()).queue != [] && Abstract() == old(Abstract()).(queue := old(Abstract()).queue[1..])
    {
      RingDequeue(xrceQueue[..], queueHead, queueCount);
      queueHead := (queueHead + 1) % QUEUE_DEPTH;
      queueCount := queueCount - 1;
    }

    /** Last locked section: the oldest datagram. */
    method SendXrce(destination: array<Byte>) returns (frame: Option<Frame>, size: nat)
      requires Valid() && destination.Length >= TRANSMIT_CAPACITY
      modifies this, link, destination
      ensures Valid() && xrceQueue == old(xrceQueue)
      ensures (Abstract(), frame) == Section(old(Abstract()), CheckXrce)
      ensures size == |Wire(frame)| && destination[..] == Wire(frame) + old(destination[size..])
    {
      ghost var before := Abstract().(stage := CheckXrce);
      StepKeepsConsistent(before, Transmit);
      if queueCount == 0 {
        return None, 0;
      }
      var payload := Oldest();
      size := HostProtocol.EncodeXrce(destination, payload);
      if size > 0 {
        RemoveOldest();
      }
      return Some(Xrce(payload)), size;
    }

    /** Writes the next frame into `destination`; the frame it wrote is returned beside its size. */
    method TakeTransmit(destination: array<Byte>) returns (status: Status, frame: Option<Frame>, size: nat)
      requires Valid()
      modifies this, link, destination
      ensures Valid() && xrceQueue == old(xrceQueue)
      ensures destination.Length < TRANSMIT_CAPACITY ==> status == InvalidArgument && frame == None && Abstract() == old(Abstract())
      ensures destination.Length >= TRANSMIT_CAPACITY ==>
        status == Ok && frame == TransmitAll(old(Abstract())).1 && Abstract() == TransmitAll(old(Abstract())).0
      ensures size == |Wire(frame)| && destination[..] == Wire(frame) + old(destination[size..])
    {
      if destination.Length < TRANSMIT_CAPACITY {
        return InvalidArgument, None, 0;
      }
      hide Wire, Consistent, TransmitStep, TransmitAll, RingContents;
      TransmitCascade(Abstract());
      status := Ok;
      frame, size := SendCommand(destination);
      if frame.Some? {
        return;
      }
      frame, size := SendAck(destination);
      if frame.Some? {
        return;
      }
      frame, size := SendOutput(destination);
      if frame.Some? {
        return;
      }
      frame, size := SendXrce(destination);
    }
  }
}
