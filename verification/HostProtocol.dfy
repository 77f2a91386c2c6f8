/** The host side of the wire protocol: the configurable incremental parser. */
module HostProtocol {
  import opened Bytes
  import opened FrameGrammar
  import opened FrameFeeding
  import L = LinkState

  lemma {:induction false} DrainSkips(r: Reader, st: State, n: nat, accept: Callback)
    requires r.Host? && n <= |st.held| - 1
    requires forall i :: 0 <= i < n ==> !Synced(st.held[i..])
    ensures Drain(r, st, accept) == Drain(r, st.(held := st.held[n..], discarded := st.discarded + n), accept)
    decreases n
  {
    if n == 0 {
      assert st.held[0..] == st.held;
    } else {
      assert !Synced(st.held[0..]) && st.held[0..] == st.held;
      var dropped := DropFirst(st, false);
      forall i | 0 <= i < n - 1
        ensures !Synced(dropped.held[i..])
      {
        assert dropped.held[i..] == st.held[i + 1..];
      }
      DrainSkips(r, dropped, n - 1, accept);
      assert dropped.held[n - 1..] == st.held[n..];
    }
  }

  class Parser {
    var buffer: array<Byte>
    var bufferedSize: nat
    var dataPayloadSize: nat
    var configHasStatus: bool
    var discardedBytes: nat
    var invalidFrames: nat
    var delivered: seq<Frame>

    constructor ()
      ensures fresh(buffer)
    {
      buffer := new Byte[0];
      bufferedSize, dataPayloadSize, configHasStatus := 0, 0, false;
      discardedBytes, invalidFrames := 0, 0;
      delivered := [];
    }

    ghost function Reader(): Reader
      reads this
    {
      Host(buffer.Length, dataPayloadSize, configHasStatus)
    }

    ghost predicate Valid()
      reads this
    {
      Reader().Valid() && bufferedSize <= buffer.Length
    }

    ghost function Abstract(): State
      requires bufferedSize <= buffer.Length
      reads this, buffer
    {
      State(buffer[..bufferedSize], discardedBytes, invalidFrames, delivered)
    }

    method Init(storage: array<Byte>, payloadSize: nat, hasStatus: bool) returns (ok: bool)
      modifies this
      ensures ok == Host(storage.Length, payloadSize, hasStatus).Valid()
      ensures ok <==> payloadSize <= 256 && storage.Length >= 5 + payloadSize
      ensures ok ==> Valid() && buffer == storage && Reader() == Host(storage.Length, payloadSize, hasStatus) && Abstract() == FRESH
      ensures !ok ==> unchanged(this)
    {
      if payloadSize > MAX_DATA_PAYLOAD || storage.Length < PREFIX_SIZE + payloadSize {
        return false;
      }
      buffer, dataPayloadSize, configHasStatus := storage, payloadSize, hasStatus;
      bufferedSize, discardedBytes, invalidFrames, delivered := 0, 0, 0, [];
      return true;
    }

    method DiscardPrefix(count: nat)
      requires Valid()
      modifies this`bufferedSize, this`discardedBytes, buffer
      ensures Valid()
      ensures var n := if count > old(bufferedSize) then old(bufferedSize) else count;
        && bufferedSize == old(bufferedSize) - n
        && Abstract() == old(Abstract()).(held := old(Abstract()).held[n..], discarded := old(discardedBytes) + n)
    {
      var n := if count > bufferedSize then bufferedSize else count;
      forall i | 0 <= i < bufferedSize - n {
        buffer[i] := buffer[i + n];
      }
      bufferedSize := bufferedSize - n;
      discardedBytes := discardedBytes + n;
      assert buffer[..bufferedSize] == old(buffer[..bufferedSize])[n..];
    }

    /** The index of the first sync pair; without one, the last byte is kept. */
    method FindSync() returns (index: nat)
      requires Valid()
      ensures bufferedSize < 2 ==> index == 0
      ensures bufferedSize >= 2 ==> index < bufferedSize
      ensures forall i :: 0 <= i < index ==> !Synced(buffer[..bufferedSize][i..])
      ensures Synced(buffer[..bufferedSize][index..]) || bufferedSize < 2 || index == bufferedSize - 1
    {
      if bufferedSize < 2 {
        return 0;
      }
      index := 0;
      while index + 1 < bufferedSize
        invariant index < bufferedSize
        invariant forall i :: 0 <= i < index ==> !Synced(buffer[..bufferedSize][i..])
      {
        if buffer[index] == SYNC_FIRST && buffer[index + 1] == SYNC_SECOND {
          return;
        }
        index := index + 1;
      }
    }

    /** Discards the bytes in front of the first sync pair. */
    method Resync(ghost accept: Callback)
      requires Valid()
      modifies this`bufferedSize, this`discardedBytes, buffer
      ensures Valid() && bufferedSize <= old(bufferedSize)
      ensures bufferedSize < 2 || Synced(buffer[..bufferedSize])
      ensures Drain(Reader(), Abstract(), accept) == Drain(Reader(), old(Abstract()), accept)
    {
      hide Judge, FrameAt, Drain;
      var syncIndex := FindSync();
      if syncIndex > 0 {
        DrainSkips(Reader(), Abstract(), syncIndex, accept);
        DiscardPrefix(syncIndex);
      } else {
        assert buffer[..bufferedSize][0..] == buffer[..bufferedSize];
      }
    }

    /** Reads the header at the front of the buffer, once unsynced bytes are gone. */
    method InspectHeader() returns (verdict: Verdict)
      requires Valid() && (bufferedSize < 2 || Synced(buffer[..bufferedSize]))
      ensures verdict == Judge(Reader(), buffer[..bufferedSize])
      ensures verdict != Drop(false)
    {
      if bufferedSize < HEADER_SIZE {
        return Wait;
      }
      if !KnownMid(buffer[2]) {
        return Drop(true);
      }
      var frameSize := FrameSize();
      if frameSize.None? {
        return Wait;
      }
      if frameSize.value > buffer.Length {
        return Drop(true);
      }
      return if bufferedSize < frameSize.value then Wait else Take(frameSize.value);
    }

    /** The inner loop of a feed: resynchronises and hands over complete frames until more input is needed. */
    method TakeFrames(accept: Callback) returns (stopped: bool)
      requires Valid()
      modifies this`bufferedSize, this`discardedBytes, this`invalidFrames, this`delivered, buffer
      ensures Valid()
      ensures (Abstract(), stopped) == Drain(Reader(), old(Abstract()), accept)
    {
      hide Judge, FrameAt, Drain;
      ghost var goal := Drain(Reader(), Abstract(), accept);
      while true
        invariant Valid() && Reader() == old(Reader())
        invariant Drain(Reader(), Abstract(), accept) == goal
        decreases bufferedSize
      {
        Resync(accept);
        var verdict := InspectHeader();
        ghost var before := Abstract();
        DrainStep(Reader(), before, accept);
        match verdict {
          case Wait =>
            return false;
          case Drop(_) =>
            DiscardPrefix(1);
            invalidFrames := invalidFrames + 1;
          case Take(frameSize) =>
            var frame := ReadFrame(frameSize);
            var accepted := accept(|delivered|);
            delivered := delivered + [frame];
            if !accepted {
              return true;
            }
            DiscardPrefix(frameSize);
            assert Abstract() == Consume(Reader(), before);
        }
      }
    }

    method FrameSize() returns (size: Option<nat>)
      requires Valid() && bufferedSize >= HEADER_SIZE && KnownMid(buffer[2])
      ensures size == FrameLength(Reader(), buffer[..bufferedSize])
    {
      if buffer[2] == MID_CONFIG {
        return Some(if configHasStatus then 5 else 4);
      } else if buffer[2] == MID_DATA {
        return Some(PREFIX_SIZE + dataPayloadSize);
      } else if buffer[2] == MID_READ_ACK {
        return Some(5);
      } else if bufferedSize < 5 {
        return None;
      }
      return Some(5 + Le16(buffer[3], buffer[4]));
    }

    method ReadFrame(size: nat) returns (frame: Frame)
      requires Valid() && Judge(Reader(), buffer[..bufferedSize]) == Take(size)
      ensures frame == FrameAt(Reader(), buffer[..bufferedSize])
    {
      ghost var s := buffer[..bufferedSize];
      assert forall i :: 0 <= i < |s| ==> s[i] == buffer[i];
      if buffer[2] == MID_CONFIG {
        frame := Config(buffer[3], if configHasStatus then Some(buffer[4]) else None);
      } else if buffer[2] == MID_DATA {
        assert buffer[PREFIX_SIZE..size] == s[5..size];
        frame := Data(Le16(buffer[3], buffer[4]), buffer[PREFIX_SIZE..size]);
      } else if buffer[2] == MID_READ_ACK {
        frame := ReadAck(Le16(buffer[3], buffer[4]));
      } else {
        assert buffer[5..size] == s[5..size];
        frame := Xrce(buffer[5..size]);
      }
    }

    method Append(byte: Byte)
      requires Valid() && bufferedSize < buffer.Length
      modifies this`bufferedSize, buffer
      ensures Valid()
      ensures Abstract() == old(Abstract()).(held := old(Abstract()).held + [byte])
    {
      buffer[bufferedSize] := byte;
      bufferedSize := bufferedSize + 1;
    }

    /** A full buffer gives up its first byte. */
    method MakeRoom()
      requires Valid()
      modifies this`bufferedSize, this`discardedBytes, this`invalidFrames, buffer
      ensures Valid() && bufferedSize < buffer.Length
      ensures Abstract() == if |old(Abstract()).held| == buffer.Length then DropFirst(old(Abstract()), true) else old(Abstract())
    {
      if bufferedSize == buffer.Length {
        DiscardPrefix(1);
        invalidFrames := invalidFrames + 1;
      }
    }

    method FeedOne(byte: Byte, accept: Callback) returns (stopped: bool)
      requires Valid()
      modifies this`bufferedSize, this`discardedBytes, this`invalidFrames, this`delivered, buffer
      ensures Valid()
      ensures (Abstract(), stopped) == FeedByte(Reader(), old(Abstract()), byte, accept)
    {
      hide Judge, FrameAt, Drain;
      MakeRoom();
      Append(byte);
      stopped := TakeFrames(accept);
    }

    method Feed(bytes: seq<Byte>, accept: Callback) returns (stopped: bool)
      requires Valid()
      modifies this`bufferedSize, this`discardedBytes, this`invalidFrames, this`delivered, buffer
      ensures Valid()
      ensures (Abstract(), stopped) == FeedBytes(Reader(), old(Abstract()), bytes, accept)
    {
      hide Judge, FrameAt, Drain, FeedByte;
      ghost var goal := FeedBytes(Reader(), Abstract(), bytes, accept);
      for index := 0 to |bytes|
        invariant Valid() && Reader() == old(Reader())
        invariant FeedBytes(Reader(), Abstract(), bytes[index..], accept) == goal
      {
        assert bytes[index..][1..] == bytes[index + 1..];
        stopped := FeedOne(bytes[index], accept);
        if stopped {
          return;
        }
      }
      stopped := false;
    }
  }

  // ---- Encoders ----

  method EncodeConfig(destination: array<Byte>, command: Byte, includeStatus: bool, status: Byte) returns (size: nat)
    modifies destination
    ensures var f := Config(command, if includeStatus then Some(status) else None);
      && size == (if destination.Length < |Encode(f)| || !L.IsCommand(command) then 0 else |Encode(f)|)
      && destination[..] == Encode(f)[..size] + old(destination[size..])
  {
    var frameSize := if includeStatus then 5 else 4;
    if destination.Length < frameSize || command < L.DISABLE || command > L.STREAM {
      return 0;
    }
    size := WriteFrame(destination, [SYNC_FIRST, SYNC_SECOND, MID_CONFIG, command], if includeStatus then [status] else []);
  }

  method EncodeData(destination: array<Byte>, sequence: Word16, payload: seq<Byte>) returns (size: nat)
    modifies destination
    ensures var f := Data(sequence, payload);
      && size == (if |payload| > MAX_DATA_PAYLOAD || destination.Length < |Encode(f)| then 0 else |Encode(f)|)
      && destination[..] == Encode(f)[..size] + old(destination[size..])
  {
    var frameSize := PREFIX_SIZE + |payload|;
    if |payload| > MAX_DATA_PAYLOAD || destination.Length < frameSize {
      return 0;
    }
    size := WriteFrame(destination, Prefix(MID_DATA, sequence), payload);
  }

  method EncodeReadAck(destination: array<Byte>, sequence: Word16) returns (size: nat)
    modifies destination
    ensures size == if destination.Length < 5 then 0 else 5
    ensures destination[..] == Encode(ReadAck(sequence))[..size] + old(destination[size..])
  {
    if destination.Length < 5 {
      return 0;
    }
    size := WriteFrame(destination, Prefix(MID_READ_ACK, sequence), []);
  }

  method EncodeXrce(destination: array<Byte>, payload: seq<Byte>) returns (size: nat)
    modifies destination
    ensures var f := Xrce(payload);
      && size == (if |payload| > XRCE_MTU || destination.Length < |Encode(f)| then 0 else |Encode(f)|)
      && destination[..] == Encode(f)[..size] + old(destination[size..])
  {
    if |payload| > XRCE_MTU || destination.Length < 5 + |payload| {
      return 0;
    }
    size := WriteFrame(destination, Prefix(MID_XRCE, |payload|), payload);
  }
}
