/** The board side of the wire protocol: an independently written parser for the same frames. */
module BoardProtocol {
  import opened Bytes
  import opened FrameGrammar
  import opened FrameFeeding

  /** The board's parser keeps no counters; `discarded` and `invalid` exist for the specification. */
  class Parser {
    var buffer: array<Byte>
    var bufferedSize: nat
    ghost var discarded: nat
    ghost var invalid: nat
    var delivered: seq<Frame>

    constructor ()
      ensures Valid() && Abstract() == FRESH && fresh(buffer)
    {
      buffer := new Byte[FIRMWARE_CAPACITY];
      bufferedSize, discarded, invalid, delivered := 0, 0, 0, [];
    }

    ghost predicate Valid()
      reads this
    {
      buffer.Length == FIRMWARE_CAPACITY && bufferedSize <= buffer.Length
    }

    ghost function Abstract(): State
      requires Valid()
      reads this, buffer
    {
      State(buffer[..bufferedSize], discarded, invalid, delivered)
    }

    method Discard(count: nat)
      requires Valid()
      modifies this`bufferedSize, this`discarded, buffer
      ensures Valid()
      ensures var n := if count > old(bufferedSize) then old(bufferedSize) else count;
        && bufferedSize == old(bufferedSize) - n
        && Abstract() == old(Abstract()).(held := old(Abstract()).held[n..], discarded := old(discarded) + n)
    {
      if count >= bufferedSize {
        discarded := discarded + bufferedSize;
        bufferedSize := 0;
        return;
      }
      forall i | 0 <= i < bufferedSize - count {
        buffer[i] := buffer[i + count];
      }
      bufferedSize := bufferedSize - count;
      discarded := discarded + count;
      assert buffer[..bufferedSize] == old(buffer[..bufferedSize])[count..];
    }

    method FrameSize() returns (size: nat)
      requires Valid()
      ensures size == FirmwareFrameSize(buffer[..bufferedSize])
    {
      if bufferedSize < 3 {
        return 0;
      } else if buffer[2] == MID_CONFIG {
        return 4;
      } else if buffer[2] == MID_DATA {
        return 5 + FIRMWARE_DATA_SIZE;
      } else if buffer[2] == MID_READ_ACK {
        return 5;
      } else if buffer[2] == MID_XRCE {
        if bufferedSize < 5 {
          return 0;
        }
        var payloadSize := Le16(buffer[3], buffer[4]);
        return if payloadSize <= XRCE_MTU then 5 + payloadSize else 1;
      }
      return 1;
    }

    method ReadFrame(size: nat) returns (frame: Frame)
      requires Valid() && Judge(Firmware, buffer[..bufferedSize]) == Take(size)
      ensures frame == FrameAt(Firmware, buffer[..bufferedSize])
    {
      ghost var s := buffer[..bufferedSize];
      assert forall i :: 0 <= i < |s| ==> s[i] == buffer[i];
      assert size >= 5 ==> buffer[5..size] == s[5..size];
      if buffer[2] == MID_CONFIG {
        frame := Config(buffer[3], None);
      } else if buffer[2] == MID_DATA {
        frame := Data(Le16(buffer[3], buffer[4]), buffer[5..5 + FIRMWARE_DATA_SIZE]);
      } else if buffer[2] == MID_READ_ACK {
        frame := ReadAck(Le16(buffer[3], buffer[4]));
      } else {
        frame := Xrce(buffer[5..size]);
      }
    }

    /** The header checks of one turn of the inner loop. */
    method InspectHeader() returns (verdict: Verdict)
      requires Valid()
      ensures verdict == Judge(Firmware, buffer[..bufferedSize])
    {
      if bufferedSize < 3 {
        return Wait;
      }
      if buffer[0] != SYNC_FIRST || buffer[1] != SYNC_SECOND {
        return Drop(false);
      }
      var frameSize := FrameSize();
      if frameSize == 1 || frameSize > FIRMWARE_CAPACITY {
        return Drop(true);
      }
      return if frameSize == 0 || bufferedSize < frameSize then Wait else Take(frameSize);
    }

    /** Drops the first byte; `bad` tells the specification whether its header was rejected. */
    method DropOne(ghost bad: bool)
      requires Valid() && bufferedSize > 0
      modifies this`bufferedSize, this`discarded, this`invalid, buffer
      ensures Valid()
      ensures Abstract() == DropFirst(old(Abstract()), bad)
    {
      invalid := invalid + if bad then 1 else 0;
      Discard(1);
    }

    /** Hands the frame at the front to the callback and, if it accepts, removes it. */
    method HandOver(size: nat, accept: Callback) returns (accepted: bool)
      requires Valid() && Judge(Firmware, buffer[..bufferedSize]) == Take(size)
      modifies this`bufferedSize, this`discarded, this`delivered, buffer
      ensures Valid()
      ensures accepted == accept(|old(delivered)|)
      ensures Abstract() == if accepted then Consume(Firmware, old(Abstract())) else Deliver(Firmware, old(Abstract()))
    {
      hide Judge, FrameAt;
      var frame := ReadFrame(size);
      accepted := accept(|delivered|);
      delivered := delivered + [frame];
      if accepted {
        Discard(size);
      }
    }

    method TakeFrames(accept: Callback) returns (stopped: bool)
      requires Valid()
      modifies this`bufferedSize, this`discarded, this`invalid, this`delivered, buffer
      ensures Valid()
      ensures (Abstract(), stopped) == Drain(Firmware, old(Abstract()), accept)
    {
      hide Judge, FrameAt, Drain;
      ghost var goal := Drain(Firmware, Abstract(), accept);
      while true
        invariant Valid()
        invariant Drain(Firmware, Abstract(), accept) == goal
        decreases bufferedSize
      {
        DrainStep(Firmware, Abstract(), accept);
        var verdict := InspectHeader();
        match verdict {
          case Wait =>
            return false;
          case Drop(bad) =>
            DropOne(bad);
          case Take(frameSize) =>
            var accepted := HandOver(frameSize, accept);
            if !accepted {
              return true;
            }
        }
      }
    }

    method Append(byte: Byte)
      requires Valid() && bufferedSize < buffer.Length
      modifies this`bufferedSize, buffer
      ensures Valid()
      ensures Abstract() == old(Abstract()).(held := old(Abstract()).held + [byte])
    {
      buffer[bufferedSize] := byte;
      bufferedSize := bufferedSize + 1;
    }

    /** A full buffer gives up its first byte. */
    method MakeRoom()
      requires Valid()
      modifies this`bufferedSize, this`discarded, this`invalid, buffer
      ensures Valid() && bufferedSize < buffer.Length
      ensures Abstract() == if |old(Abstract()).held| == FIRMWARE_CAPACITY then DropFirst(old(Abstract()), true) else old(Abstract())
    {
      if bufferedSize == FIRMWARE_CAPACITY {
        DropOne(true);
      }
    }

    method FeedOne(byte: Byte, accept: Callback) returns (stopped: bool)
      requires Valid()
      modifies this`bufferedSize, this`discarded, this`invalid, this`delivered, buffer
      ensures Valid()
      ensures (Abstract(), stopped) == FeedByte(Firmware, old(Abstract()), byte, accept)
    {
      hide Judge, FrameAt, Drain;
      MakeRoom();
      Append(byte);
      stopped := TakeFrames(accept);
    }

    method Feed(bytes: seq<Byte>, accept: Callback) returns (completed: bool)
      requires Valid()
      modifies this`bufferedSize, this`discarded, this`invalid, this`delivered, buffer
      ensures Valid()
      ensures (Abstract(), !completed) == FeedBytes(Firmware, old(Abstract()), bytes, accept)
    {
      hide Judge, FrameAt, Drain, FeedByte;
      ghost var goal := FeedBytes(Firmware, Abstract(), bytes, accept);
      for index := 0 to |bytes|
        invariant Valid()
        invariant FeedBytes(Firmware, Abstract(), bytes[index..], accept) == goal
      {
        assert bytes[index..][1..] == bytes[index + 1..];
        var stopped := FeedOne(bytes[index], accept);
        if stopped {
          return false;
        }
      }
      completed := true;
    }
  }

  // ---- Encoders ----

  const ACQUISITION_SIZE := 28

  /** Unlike the host's encoder, the board's answers with any command byte. */
  method EncodeConfig(destination: array<Byte>, command: Byte, includeStatus: bool, status: Byte) returns (size: nat)
    modifies destination
    ensures var f := Config(command, if includeStatus then Some(status) else None);
      && size == (if destination.Length < |Encode(f)| then 0 else |Encode(f)|)
      && destination[..] == Encode(f)[..size] + old(destination[size..])
  {
    var frameSize := if includeStatus then 5 else 4;
    if destination.Length < frameSize {
      return 0;
    }
    size := WriteFrame(destination, [SYNC_FIRST, SYNC_SECOND, MID_CONFIG, command], if includeStatus then [status] else []);
  }

  method EncodeData(destination: array<Byte>, sequence: Word16, payload: seq<Byte>) returns (size: nat)
    modifies destination
    ensures var f := Data(sequence, payload);
      && size == (if |payload| != ACQUISITION_SIZE || destination.Length < |Encode(f)| then 0 else |Encode(f)|)
      && destination[..] == Encode(f)[..size] + old(destination[size..])
  {
    if |payload| != ACQUISITION_SIZE || destination.Length < 5 + |payload| {
      return 0;
    }
    size := WriteFrame(destination, Prefix(MID_DATA, sequence), payload);
  }

  method EncodeReadAck(destination: array<Byte>, sequence: Word16) returns (size: nat)
    modifies destination
    ensures size == if destination.Length < 5 then 0 else 5
    ensures destination[..] == Encode(ReadAck(sequence))[..size] + old(destination[size..])
  {
    if destination.Length < 5 {
      return 0;
    }
    size := WriteFrame(destination, Prefix(MID_READ_ACK, sequence), []);
  }

  method EncodeXrce(destination: array<Byte>, payload: seq<Byte>) returns (size: nat)
    modifies destination
    ensures var f := Xrce(payload);
      && size == (if |payload| > XRCE_MTU || destination.Length < |Encode(f)| then 0 else |Encode(f)|)
      && destination[..] == Encode(f)[..size] + old(destination[size..])
  {
    if |payload| > XRCE_MTU || destination.Length < 5 + |payload| {
      return 0;
    }
    size := WriteFrame(destination, Prefix(MID_XRCE, |payload|), payload);
  }
}
