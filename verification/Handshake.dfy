/**
 * The CONFIG handshake between host and board over two lossless FIFO channels, with retries and refusals.
 * The board starts in any state; the host's runtime issues commands in a fixed order of phases.
 */
module Handshake {
  import opened Bytes
  import L = LinkState

  const DISABLE := L.DISABLE
  const ENABLE := L.ENABLE
  const STREAM := L.STREAM

  type Command = c: Byte | L.IsCommand(c) witness 1

  /** The board's answer: the command it handled and the state it ended in. */
  datatype Reply = Reply(command: Command, state: Command)

  /** Where the runtime is: baseline DISABLE, ENABLE, STREAMING, and the DISABLE that stops a session. */
  datatype Phase = Baseline | Prepared | Enabling | Configured | Playing | Running | Stopping | Closed

  datatype Session = Session(
    phase: Phase, host: L.Mode, confirmations: nat, slot: Option<Command>,
    toBoard: seq<Command>, toHost: seq<Reply>, board: Command, applied: bool)

  /** How the board takes a command: applies it, finds its control busy, or (STREAMING only) cannot acquire. */
  datatype Outcome = Apply | Busy | NotConfigured

  datatype Event =
    | Attempt               // the runtime's retry loop queues its command
    | Advance               // the runtime moves on to its next phase
    | GiveUp                // a step fails or the session ends; the runtime stops the board
    | Transmit              // the queued command leaves
    | BoardHandles(outcome: Outcome)
    | HostReceives

  function Start(board: Command): Session {
    Session(Baseline, L.Disabled, 0, None, [], [], board, false)
  }

  function ModeOf(state: Command): L.Mode {
    if state == DISABLE then L.Disabled else if state == ENABLE then L.Enabled else L.Streaming
  }

  /** The command a phase keeps queueing. */
  function Issued(phase: Phase): Option<Command> {
    match phase
    case Baseline => Some(DISABLE)
    case Enabling => Some(ENABLE)
    case Playing => Some(STREAM)
    case Stopping => Some(DISABLE)
    case _ => None
  }

  /** A retry loop ends without queueing once it sees what it waits for. */
  predicate GoalSeen(s: Session) {
    match s.phase
    case Baseline => s.confirmations > 0 && s.host.Disabled?
    case Enabling => s.host.Enabled?
    case Playing => s.host.Streaming?
    case Stopping => s.host.Disabled?
    case _ => true
  }

  function NextPhase(s: Session): Phase {
    match s.phase
    case Baseline => if GoalSeen(s) then Prepared else Baseline
    case Prepared => if s.host.Disabled? then Enabling else Prepared
    case Enabling => if GoalSeen(s) then Configured else Enabling
    case Configured => if s.host.Enabled? then Playing else Configured
    case Playing => if GoalSeen(s) then Running else Playing
    case Stopping => Closed
    case _ => s.phase
  }

  /** What the host makes of a reply: its new mode and whether it counted as a confirmation. */
  function Receive(host: L.Mode, r: Reply): (L.Mode, bool) {
    if r.state != r.command then (host, false)
    else match L.ConfirmedMode(host, r.command)
      case None => (host, false)
      case Some(mode) => (mode, true)
  }

  /** The reduction of `L.Confirm` to the mode. */
  lemma ReceiveIsConfirm(link: L.Link, r: Reply)
    ensures var (next, status) := L.Confirm(link, r.command, r.state);
      Receive(link.mode, r) == (next.mode, status.Ok?)
  {
  }

  function Handle(board: Command, command: Command, outcome: Outcome): Command {
    if outcome.Apply? || (outcome.NotConfigured? && command != STREAM) then command else board
  }

  function Step(s: Session, e: Event): Session {
    match e
    case Attempt =>
      var command := Issued(s.phase);
      if command.Some? && !GoalSeen(s) && s.slot.None? then s.(slot := command) else s
    case Advance => s.(phase := NextPhase(s))
    case GiveUp =>
      if s.phase.Closed? || s.phase.Stopping? then s
      else s.(phase := if s.host.Disabled? then Closed else Stopping)
    case Transmit =>
      if s.slot.None? then s else s.(slot := None, toBoard := s.toBoard + [s.slot.value])
    case BoardHandles(outcome) =>
      if s.toBoard == [] then s
      else
        var command := s.toBoard[0];
        var board := Handle(s.board, command, outcome);
        s.(toBoard := s.toBoard[1..], toHost := s.toHost + [Reply(command, board)], board := board,
           applied := s.applied || !(outcome.Busy? || (outcome.NotConfigured? && command == STREAM)))
    case HostReceives =>
      if s.toHost == [] then s
      else
        var (host, counted) := Receive(s.host, s.toHost[0]);
        s.(host := host, confirmations := s.confirmations + (if counted then 1 else 0), toHost := s.toHost[1..])
  }

  function Run(s: Session, es: seq<Event>): Session
    decreases |es|
  {
    if es == [] then s else Run(Step(s, es[0]), es[1..])
  }

  /** The host mode after it has received all the replies in flight. */
  function Replay(host: L.Mode, replies: seq<Reply>): L.Mode
    decreases |replies|
  {
    if replies == [] then host else Replay(Receive(host, replies[0]).0, replies[1..])
  }

  lemma {:induction false} ReplayAppend(host: L.Mode, replies: seq<Reply>, r: Reply)
    ensures Replay(host, replies + [r]) == Receive(Replay(host, replies), r).0
    decreases |replies|
  {
    if replies == [] {
      assert ([] + [r])[1..] == [];
    } else {
      assert (replies + [r])[1..] == replies[1..] + [r];
      ReplayAppend(Receive(host, replies[0]).0, replies[1..], r);
    }
  }

  /** Host and board agree up to the replies in flight. */
  predicate Synced(s: Session) { Replay(s.host, s.toHost) == ModeOf(s.board) }

  // ---- What every step keeps ----

  function Commands(replies: seq<Reply>): seq<Command> {
    seq(|replies|, i requires 0 <= i < |replies| => replies[i].command)
  }

  /** Commands the board has not handled yet, oldest first. */
  function Ahead(s: Session): seq<Command> {
    s.toBoard + if s.slot.Some? then [s.slot.value] else []
  }

  /** Every command issued whose reply the host has not received, oldest first. */
  function Pipeline(s: Session): seq<Command> { Commands(s.toHost) + Ahead(s) }

  /** STREAMING only reaches a board that is enabled or streaming. */
  ghost predicate StreamSafe(board: Command, ahead: seq<Command>) {
    && (STREAM in ahead ==> board != DISABLE)
    && forall i, j :: 0 <= i < j < |ahead| && ahead[j] == STREAM ==> ahead[i] != DISABLE
  }

  ghost predicate DisablesFirst(p: seq<Command>) {
    && STREAM !in p
    && forall i, j :: 0 <= i < j < |p| && p[j] == DISABLE ==> p[i] == DISABLE
  }

  ghost predicate PhaseFacts(s: Session) {
    match s.phase
    case Baseline => s.host.Disabled? && forall c :: c in Pipeline(s) ==> c == DISABLE
    case Prepared => s.host.Disabled? && s.confirmations > 0 && forall c :: c in Pipeline(s) ==> c == DISABLE
    case Enabling =>
      s.confirmations > 0 && !s.host.Streaming? && DisablesFirst(Pipeline(s)) && (s.host.Enabled? ==> DISABLE !in Pipeline(s))
    case Closed => true
    case Stopping => s.confirmations > 0
    case _ => s.confirmations > 0 && !s.host.Disabled? && DISABLE !in Pipeline(s)
  }

  /** Before the first DISABLE takes effect the board is still in the state it started in, and the host has confirmed nothing. */
  ghost predicate BeforeBaseline(s: Session) {
    && s.host.Disabled? && s.confirmations == 0 && s.board != DISABLE && !s.applied
    && (s.phase.Baseline? || s.phase.Closed?)
    && (forall c :: c in Pipeline(s) ==> c == DISABLE)
    && forall i :: 0 <= i < |s.toHost| ==> s.toHost[i].state != DISABLE
  }

  ghost predicate Inv(s: Session) {
    && StreamSafe(s.board, Ahead(s))
    && PhaseFacts(s)
    && (BeforeBaseline(s) || (Synced(s) && (s.applied || s.board == DISABLE)))
  }

  lemma {:induction false} ReplayIgnored(host: L.Mode, replies: seq<Reply>)
    requires forall i :: 0 <= i < |replies| ==> replies[i].state != replies[i].command
    ensures Replay(host, replies) == host
    decreases |replies|
  {
    if replies != [] {
      ReplayIgnored(host, replies[1..]);
    }
  }

  lemma {:induction false} ReplayStaysUp(host: L.Mode, replies: seq<Reply>)
    requires !host.Disabled? && DISABLE !in Commands(replies)
    ensures !Replay(host, replies).Disabled?
    decreases |replies|
  {
    if replies != [] {
      assert Commands(replies)[0] == replies[0].command;
      assert Commands(replies[1..]) == Commands(replies)[1..];
      ReplayStaysUp(Receive(host, replies[0]).0, replies[1..]);
    }
  }

  lemma StartInv(board: Command)
    ensures Inv(Start(board))
  {
  }

  lemma AttemptKeeps(s: Session)
    requires Inv(s)
    ensures Inv(Step(s, Attempt))
  {
    var t := Step(s, Attempt);
    if t != s {
      var command := Issued(s.phase).value;
      assert Ahead(t) == Ahead(s) + [command];
      assert Pipeline(t) == Pipeline(s) + [command];
      if command == STREAM {
        assert !BeforeBaseline(s);
        ReplayStaysUp(s.host, s.toHost);
      }
    }
  }

  lemma OnlyDisables(p: seq<Command>)
    requires forall c :: c in p ==> c == DISABLE
    ensures DisablesFirst(p)
  {
    assert forall i :: 0 <= i < |p| ==> p[i] in p;
  }

  lemma PhaseKeeps(s: Session, e: Event)
    requires Inv(s) && (e.Advance? || e.GiveUp?)
    ensures Inv(Step(s, e))
  {
    var t := Step(s, e);
    assert Pipeline(t) == Pipeline(s) && Ahead(t) == Ahead(s);
    if s.phase.Prepared? {
      OnlyDisables(Pipeline(s));
    }
  }

  lemma TransmitKeeps(s: Session)
    requires Inv(s)
    ensures Inv(Step(s, Transmit))
  {
    assert Ahead(Step(s, Transmit)) == Ahead(s);
  }

  lemma StreamSafeTail(board: Command, c: Command, ahead: seq<Command>)
    requires StreamSafe(board, [c] + ahead)
    ensures StreamSafe(board, ahead) && StreamSafe(c, ahead)
    ensures c == STREAM ==> board != DISABLE
  {
    var all := [c] + ahead;
    assert all[0] == c && c in all;
    forall i, j | 0 <= i < j < |ahead| && ahead[j] == STREAM
      ensures ahead[i] != DISABLE
    {
      assert all[i + 1] == ahead[i] && all[j + 1] == ahead[j];
    }
    if STREAM in ahead {
      var j :| 0 <= j < |ahead| && ahead[j] == STREAM;
      assert all[j + 1] == STREAM && STREAM in all;
    }
  }

  lemma BoardReplySyncs(s: Session, outcome: Outcome)
    requires Inv(s) && s.toBoard != []
    ensures var t := Step(s, BoardHandles(outcome)); BeforeBaseline(t) || (Synced(t) && (t.applied || t.board == DISABLE))
  {
    var t := Step(s, BoardHandles(outcome));
    var reply := Reply(s.toBoard[0], t.board);
    assert Ahead(s) == [reply.command] + Ahead(t);
    StreamSafeTail(s.board, reply.command, Ahead(t));
    ReplayAppend(s.host, s.toHost, reply);
    if BeforeBaseline(s) {
      assert Pipeline(t) == Pipeline(s) by {
        assert Commands(t.toHost) == Commands(s.toHost) + [reply.command];
      }
      assert reply.command in Pipeline(s);
      forall i | 0 <= i < |s.toHost|
        ensures s.toHost[i].state != s.toHost[i].command
      {
        assert Commands(s.toHost)[i] in Pipeline(s);
      }
      ReplayIgnored(s.host, s.toHost);
    }
  }

  lemma BoardKeeps(s: Session, outcome: Outcome)
    requires Inv(s)
    ensures Inv(Step(s, BoardHandles(outcome)))
  {
    hide Synced, BeforeBaseline;
    var t := Step(s, BoardHandles(outcome));
    if s.toBoard != [] {
      var command := s.toBoard[0];
      BoardReplySyncs(s, outcome);
      assert Ahead(s) == [command] + Ahead(t);
      StreamSafeTail(s.board, command, Ahead(t));
      assert Commands(t.toHost) == Commands(s.toHost) + [command];
      assert Pipeline(t) == Pipeline(s);
    }
  }

  lemma DisablesFirstTail(c: Command, p: seq<Command>)
    requires DisablesFirst([c] + p)
    ensures DisablesFirst(p)
    ensures c != DISABLE ==> DISABLE !in p
  {
    var all := [c] + p;
    assert all[0] == c;
    assert forall i :: 0 <= i < |p| ==> all[i + 1] == p[i];
  }

  lemma HostKeeps(s: Session)
    requires Inv(s)
    ensures Inv(Step(s, HostReceives))
  {
    var t := Step(s, HostReceives);
    if s.toHost != [] {
      var reply := s.toHost[0];
      assert Commands(s.toHost) == [reply.command] + Commands(t.toHost);
      assert Pipeline(s) == [reply.command] + Pipeline(t);
      assert reply.command in Pipeline(s);
      assert forall c :: c in Pipeline(t) ==> c in Pipeline(s);
      if s.phase.Enabling? {
        DisablesFirstTail(reply.command, Pipeline(t));
      }
    }
  }

  lemma {:induction false} RunKeeps(s: Session, es: seq<Event>)
    requires Inv(s)
    ensures Inv(Run(s, es))
    decreases |es|
  {
    hide Inv, Step;
    if es != [] {
      match es[0] {
        case Attempt => AttemptKeeps(s);
        case Advance => PhaseKeeps(s, Advance);
        case GiveUp => PhaseKeeps(s, GiveUp);
        case Transmit => TransmitKeeps(s);
        case BoardHandles(outcome) => BoardKeeps(s, outcome);
        case HostReceives => HostKeeps(s);
      }
      RunKeeps(Step(s, es[0]), es[1..]);
    }
  }

  // ---- Host and board agree ----

  /** Receiving every reply in flight would bring the host to the board's state, from the first command the board applies on. */
  lemma RepliesInFlightLeadToBoard(board: Command, es: seq<Event>)
    ensures var s := Run(Start(board), es);
      Synced(s) <==> s.applied || board == DISABLE
  {
    StartInv(board);
    RunKeeps(Start(board), es);
    RunRemembers(Start(board), es);
    var s := Run(Start(board), es);
    if BeforeBaseline(s) {
      forall i | 0 <= i < |s.toHost|
        ensures s.toHost[i].state != s.toHost[i].command
      {
        assert Commands(s.toHost)[i] in Pipeline(s);
      }
      ReplayIgnored(s.host, s.toHost);
    }
  }

  lemma {:induction false} RunRemembers(s: Session, es: seq<Event>)
    ensures Run(s, es).applied || (Run(s, es).board == s.board && !s.applied)
    decreases |es|
  {
    if es != [] {
      RunRemembers(Step(s, es[0]), es[1..]);
    }
  }

  /** Once the baseline DISABLE is confirmed, whatever the board was doing before, a host with no reply in flight is in the board's mode. */
  lemma AgreeWhenQuiet(board: Command, es: seq<Event>)
    ensures var s := Run(Start(board), es);
      s.confirmations > 0 ==> Synced(s) && (s.toHost == [] ==> s.host == ModeOf(s.board))
  {
    StartInv(board);
    RunKeeps(Start(board), es);
  }

  /** Every phase after the baseline has that confirmation, and STREAMING never reaches a disabled board. */
  lemma PhasesAreSafe(board: Command, es: seq<Event>)
    ensures var s := Run(Start(board), es);
      && (!s.phase.Baseline? && !s.phase.Closed? ==> s.confirmations > 0)
      && (s.toBoard != [] && s.toBoard[0] == STREAM ==> s.board != DISABLE)
  {
    StartInv(board);
    RunKeeps(Start(board), es);
    var s := Run(Start(board), es);
    if s.toBoard != [] && s.toBoard[0] == STREAM {
      assert Ahead(s)[0] == STREAM;
    }
  }

  /** Before that confirmation the two may differ for good: a streaming board left over from another session, every DISABLE refused. */
  lemma BaselineIsNeeded()
    ensures var s := Run(Start(STREAM), [Attempt, Transmit, BoardHandles(Busy), HostReceives, GiveUp]);
      s.toHost == [] && s.toBoard == [] && s.phase.Closed? && s.host.Disabled? && s.board == STREAM
  {
    var s1 := Step(Start(STREAM), Attempt);
    assert s1.slot == Some(DISABLE);
    var s2 := Step(s1, Transmit);
    assert s2.toBoard == [DISABLE];
    var s3 := Step(s2, BoardHandles(Busy));
    assert s3.toHost == [Reply(DISABLE, STREAM)] && s3.toBoard == [];
    var s4 := Step(s3, HostReceives);
    assert s4.toHost == [];
    var s5 := Step(s4, GiveUp);
    assert Run(s5, []) == s5;
    assert Run(s4, [GiveUp]) == s5;
    assert [HostReceives, GiveUp][1..] == [GiveUp];
    assert Run(s3, [HostReceives, GiveUp]) == s5;
    assert [BoardHandles(Busy), HostReceives, GiveUp][1..] == [HostReceives, GiveUp];
    assert Run(s2, [BoardHandles(Busy), HostReceives, GiveUp]) == s5;
    assert [Transmit, BoardHandles(Busy), HostReceives, GiveUp][1..] == [BoardHandles(Busy), HostReceives, GiveUp];
    assert Run(s1, [Transmit, BoardHandles(Busy), HostReceives, GiveUp]) == s5;
    assert [Attempt, Transmit, BoardHandles(Busy), HostReceives, GiveUp][1..] == [Transmit, BoardHandles(Busy), HostReceives, GiveUp];
  }

  // ---- Sessions get somewhere ----

  lemma {:induction false} RunsJoin(s: Session, a: seq<Event>, b: seq<Event>)
    ensures Run(s, a + b) == Run(Run(s, a), b)
    decreases |a|
  {
    hide Step;
    if a == [] {
      assert a + b == b;
    } else {
      assert (a + b)[1..] == a[1..] + b;
      RunsJoin(Step(s, a[0]), a[1..], b);
    }
  }

  /** No command and no reply is under way. */
  predicate Quiet(s: Session) { s.slot.None? && s.toBoard == [] && s.toHost == [] }

  /** One attempt: queue, send, handle, hear back. */
  function Attempted(outcome: Outcome): seq<Event> { [Attempt, Transmit, BoardHandles(outcome), HostReceives] }

  lemma FourSteps(s: Session, a: Event, b: Event, c: Event, d: Event)
    ensures Run(s, [a, b, c, d]) == Step(Step(Step(Step(s, a), b), c), d)
  {
    hide Step;
    assert [a, b, c, d][1..] == [b, c, d] && [b, c, d][1..] == [c, d] && [c, d][1..] == [d] && [d][1..] == [];
    var s3 := Step(Step(Step(s, a), b), c);
    assert Run(s3, [d]) == Run(Step(s3, d), []);
    assert Run(Step(Step(s, a), b), [c, d]) == Run(s3, [d]);
    assert Run(Step(s, a), [b, c, d]) == Run(Step(Step(s, a), b), [c, d]);
  }

  /** A quiet session's attempt, applied by the board, brings board and host to the command's state. */
  lemma AppliedAttempt(s: Session)
    requires Quiet(s) && !GoalSeen(s) && Issued(s.phase).Some?
    requires Issued(s.phase) == Some(STREAM) ==> !s.host.Disabled?
    ensures var command := Issued(s.phase).value; var t := Run(s, Attempted(Apply));
      && Quiet(t) && t.phase == s.phase && t.board == command && t.host == ModeOf(command)
      && t.confirmations == s.confirmations + 1 && t.applied
  {
    var command := Issued(s.phase).value;
    FourSteps(s, Attempt, Transmit, BoardHandles(Apply), HostReceives);
    var s1 := Step(s, Attempt);
    assert s1 == s.(slot := Some(command));
    var s2 := Step(s1, Transmit);
    assert s2 == s.(toBoard := [command]);
    var s3 := Step(s2, BoardHandles(Apply));
    assert s3 == s.(toHost := [Reply(command, command)], board := command, applied := true);
  }

  /** Attempts the board refuses, while it is in another state, change nothing: any number of them can come first. */
  lemma {:induction false} RefusedAttempts(s: Session, outcome: Outcome, n: nat) returns (es: seq<Event>)
    requires outcome.Busy? || (outcome.NotConfigured? && Issued(s.phase) == Some(STREAM))
    requires Quiet(s) && !GoalSeen(s) && Issued(s.phase).Some? && s.board != Issued(s.phase).value
    ensures Run(s, es) == s && |es| == 4 * n
  {
    if n == 0 {
      es := [];
    } else {
      var command := Issued(s.phase).value;
      FourSteps(s, Attempt, Transmit, BoardHandles(outcome), HostReceives);
      var s1 := Step(s, Attempt);
      assert s1 == s.(slot := Some(command));
      var s2 := Step(s1, Transmit);
      assert s2 == s.(toBoard := [command]);
      var s3 := Step(s2, BoardHandles(outcome));
      assert s3 == s.(toHost := [Reply(command, s.board)]);
      assert Step(s3, HostReceives) == s;
      var rest := RefusedAttempts(s, outcome, n - 1);
      es := Attempted(outcome) + rest;
      RunsJoin(s, Attempted(outcome), rest);
    }
  }

  function Advances(n: nat): seq<Event> { if n == 0 then [] else [Advance] + Advances(n - 1) }

  lemma TwoAdvances(s: Session)
    ensures Run(s, Advances(1)) == Step(s, Advance) && Run(s, Advances(2)) == Step(Step(s, Advance), Advance)
  {
    hide Step;
    assert Advances(1) == [Advance] && Advances(2)[1..] == Advances(1) && Advances(1)[1..] == [];
    assert Run(Step(s, Advance), []) == Step(s, Advance);
  }

  /** The ordinary session: whatever state the board was left in, if it applies commands the session runs and both stream. */
  function OrdinarySession(): seq<Event> {
    (Attempted(Apply) + Advances(2)) + ((Attempted(Apply) + Advances(2)) + (Attempted(Apply) + Advances(1)))
  }

  lemma SessionsReachRunning(board: Command)
    ensures var s := Run(Start(board), OrdinarySession());
      Quiet(s) && s.phase.Running? && s.host.Streaming? && s.board == STREAM
  {
    hide Step, Run;
    var s0 := Start(board);
    var first, last := Attempted(Apply) + Advances(2), Attempted(Apply) + Advances(1);
    PhaseReached(s0, Enabling);
    var s1 := Run(s0, first);
    PhaseReached(s1, Playing);
    var s2 := Run(s1, first);
    RunsJoin(s0, first, first + last);
    RunsJoin(s1, first, last);
    LastPhaseReached(s2);
  }

  lemma PhaseReached(s: Session, next: Phase)
    requires Quiet(s) && !GoalSeen(s)
    requires (s.phase.Baseline? && next.Enabling?) || (s.phase.Enabling? && next.Playing?)
    ensures var t := Run(s, Attempted(Apply) + Advances(2));
      && Quiet(t) && t.phase == next && !GoalSeen(t)
      && t.board == Issued(s.phase).value && t.host == ModeOf(t.board)
  {
    hide Run;
    AppliedAttempt(s);
    var t := Run(s, Attempted(Apply));
    RunsJoin(s, Attempted(Apply), Advances(2));
    TwoAdvances(t);
  }

  lemma LastPhaseReached(s: Session)
    requires Quiet(s) && !GoalSeen(s) && s.phase.Playing? && s.host.Enabled?
    ensures var t := Run(s, Attempted(Apply) + Advances(1)); Quiet(t) && t.phase.Running? && t.host.Streaming? && t.board == STREAM
  {
    hide Run;
    AppliedAttempt(s);
    RunsJoin(s, Attempted(Apply), Advances(1));
    TwoAdvances(Run(s, Attempted(Apply)));
  }

  /** And from the stop, whatever the board was doing, to a disabled board and a closed session. */
  lemma StoppingReachesDisabled(s: Session)
    requires Quiet(s) && s.phase.Stopping? && !s.host.Disabled?
    ensures var t := Run(s, Attempted(Apply) + Advances(1)); Quiet(t) && t.phase.Closed? && t.host.Disabled? && t.board == DISABLE
  {
    hide Run;
    AppliedAttempt(s);
    RunsJoin(s, Attempted(Apply), Advances(1));
    TwoAdvances(Run(s, Attempted(Apply)));
  }
}
