/** Host view of the board: confirmed mode, the latest-wins output mailbox, acquisition tracking and the pending read acknowledgement. */
module LinkState {
  import opened Bytes
  import opened FrameGrammar
  import opened SequenceTracking

  const DISABLE: Byte := 1
  const ENABLE: Byte := 2
  const STREAM: Byte := 3

  datatype Mode = Disabled | Enabled | Streaming

  datatype Mailbox = Mailbox(sequence: Word16, payload: seq<Byte>, pending: bool)

  datatype Link = Link(mode: Mode, mailbox: Mailbox, acquisition: Tracking, latestAck: Word16, ackPending: bool, coalesced: nat)

  const INITIAL := Link(Disabled, Mailbox(0, [], false), UNTRACKED, 0, false, 0)

  datatype Status = Ok | InvalidArgument | InvalidState

  predicate IsCommand(command: Byte) { DISABLE <= command <= STREAM }

  /** The mode a confirmed command leads to, or None when the host does not accept it in its mode. */
  function ConfirmedMode(mode: Mode, command: Byte): Option<Mode>
    requires IsCommand(command)
  {
    if command == DISABLE then Some(Disabled)
    else if command == ENABLE then Some(Enabled)
    else if mode.Disabled? then None
    else Some(Streaming)
  }

  function Confirm(l: Link, command: Byte, status: Byte): (Link, Status) {
    if !IsCommand(command) || status != command then (l, InvalidArgument)
    else match ConfirmedMode(l.mode, command)
      case None => (l, InvalidState)
      case Some(Streaming) => (l.(mode := Streaming, acquisition := UNTRACKED), Ok)
      case Some(mode) =>
        (l.(mode := mode, mailbox := l.mailbox.(pending := false), ackPending := false, acquisition := UNTRACKED), Ok)
  }

  function Publish(l: Link, sequence: Word16, payload: seq<Byte>): (Link, Status) {
    if |payload| > MAX_DATA_PAYLOAD then (l, InvalidArgument)
    else if !l.mode.Streaming? then (l, InvalidState)
    else
      (l.(mailbox := Mailbox(sequence, payload, true), coalesced := l.coalesced + if l.mailbox.pending then 1 else 0), Ok)
  }

  function TakeOutput(l: Link): (Link, Mailbox) {
    (l.(mailbox := l.mailbox.(pending := false)), l.mailbox)
  }

  function AcceptAcquisition(l: Link, sequence: Word16): (Link, Status, bool) {
    if !l.mode.Streaming? then (l, InvalidState, false)
    else
      var (tracking, relation) := Track(l.acquisition, sequence);
      var tracked := l.(acquisition := tracking);
      if IsAccepted(relation) then (tracked.(latestAck := sequence, ackPending := true), Ok, true)
      else (tracked, Ok, false)
  }

  function TakeReadAck(l: Link): (Link, Word16, bool) {
    (l.(ackPending := false), l.latestAck, l.ackPending)
  }

  /** Outside STREAMING nothing is pending, and a pending payload fits a DATA frame. */
  predicate Consistent(l: Link) {
    && (!l.mode.Streaming? ==> !l.mailbox.pending && !l.ackPending)
    && |l.mailbox.payload| <= MAX_DATA_PAYLOAD
  }

  class LinkState {
    var mode: Mode
    var outputMailbox: Mailbox
    var acquisitionSequence: Tracking
    var latestReadAck: Word16
    var readAckPending: bool
    var outputCoalesced: nat

    constructor ()
      ensures Abstract() == INITIAL
    {
      mode, outputMailbox, acquisitionSequence := Disabled, Mailbox(0, [], false), UNTRACKED;
      latestReadAck, readAckPending, outputCoalesced := 0, false, 0;
    }

    ghost function Abstract(): Link
      reads this
    {
      Link(mode, outputMailbox, acquisitionSequence, latestReadAck, readAckPending, outputCoalesced)
    }

    method ConfirmCommand(command: Byte, status: Byte) returns (result: Status)
      modifies this
      ensures (Abstract(), result) == Confirm(old(Abstract()), command, status)
    {
      if command < DISABLE || command > STREAM || status != command {
        return InvalidArgument;
      }
      if command == DISABLE || command == ENABLE {
        mode := if command == DISABLE then Disabled else Enabled;
        outputMailbox := outputMailbox.(pending := false);
        readAckPending := false;
        acquisitionSequence := UNTRACKED;
      } else if mode == Enabled || mode == Streaming {
        mode := Streaming;
        acquisitionSequence := UNTRACKED;
      } else {
        return InvalidState;
      }
      return Ok;
    }

    method PublishOutput(sequence: Word16, payload: seq<Byte>) returns (result: Status)
      modifies this
      ensures (Abstract(), result) == Publish(old(Abstract()), sequence, payload)
    {
      if |payload| > MAX_DATA_PAYLOAD {
        return InvalidArgument;
      }
      if mode != Streaming {
        return InvalidState;
      }
      if outputMailbox.pending {
        outputCoalesced := outputCoalesced + 1;
      }
      outputMailbox := Mailbox(sequence, payload, true);
      return Ok;
    }

    method TakeLatestOutput() returns (mailbox: Mailbox)
      modifies this
      ensures (Abstract(), mailbox) == TakeOutput(old(Abstract()))
    {
      mailbox := outputMailbox;
      outputMailbox := outputMailbox.(pending := false);
    }

    method AcceptSequence(sequence: Word16) returns (result: Status, accepted: bool)
      modifies this
      ensures (Abstract(), result, accepted) == AcceptAcquisition(old(Abstract()), sequence)
    {
      if mode != Streaming {
        return InvalidState, false;
      }
      var (tracking, relation) := Track(acquisitionSequence, sequence);
      acquisitionSequence := tracking;
      accepted := relation == First || relation == Expected || relation == Gap;
      if accepted {
        latestReadAck := sequence;
        readAckPending := true;
      }
      result := Ok;
    }

    method TakeAck() returns (sequence: Word16, available: bool)
      modifies this
      ensures (Abstract(), sequence, available) == TakeReadAck(old(Abstract()))
    {
      available := readAckPending;
      sequence := latestReadAck;
      readAckPending := false;
    }
  }
}
