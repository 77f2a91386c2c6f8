# MICROHIL verification

A Dafny model of the parts of MICROHIL that have to be right whatever happens around them: the wire protocol between the
simulator host and the ESP32 board, the state machines on top of it, the logging pipeline, the fixed release grid, and the
path of values in and out of the FMU. `dafny verify dfyconfig.toml` checks everything.

**Wire protocol.** `FrameGrammar` defines one left-to-right reading of a whole byte stream, for the host's configurable
grammar and for the board's fixed one. `FrameFeeding` defines both incremental parsers on values, with a frame callback that
may refuse, and proves that any split of any stream ends as the whole-stream reading does. `HostProtocol` and
`BoardProtocol` are the two parsers as they are written, editing a buffer in place, and the encoders. `SequenceTracking`
relates the 16-bit tracker to unbounded numbers.

**Link and handshake.** `LinkState` and `Coordinator` model the host's link as atomic steps and as classes that refine them;
`Handshake` adds the board behind two FIFO channels; `StateControl` is the retry loop over an abstract clock.

**Logging.** `LoggerRing` interleaves the atomic loads and stores of the producer and the consumer of a ring of any
capacity; a load of the other thread's index may return a stale value. `LoggerSink` follows the calls the sink gets, and
`LoggerProgress` shows that no run is stuck. The same ring, without the sink, is the plot queue
of `src/sample_queue.c`. `Utf8`, `LogFormat` and `LogRecord` are the file's codec, and `LogLayout` says what its bytes
mean without going through the reader; `LogConverter` reads it back; `LoggedRun` joins the three. `Sha256` is the streaming
hash, and `Sha256Parts` states its functions and constants apart from how they are computed.

**Schedule.** `ReleaseSchedule` proves the accounting of the release grid over whole runs and the absence of overflow.

**Values.** `DaqSchema` and `Profile` build payload layouts; `InputState` and `Acquisition` carry frames into step
snapshots; `Actuation` packs outputs; `BoardProfile` has the board's checks on what arrives. Floating point is left open:
`Numbers` takes the arithmetic on doubles as arbitrary functions and asks of the conversion to single precision only that it
is monotone, keeps zero and one, and stays finite within range (`Numbers.RoundingExists` shows that this can be met).

Where the source and what one might expect of it differ, the source is followed and the difference is a lemma:

- A channel at the limit of invalid steps is listed by a trip only if it received data since the last step
  (`InputState.AtLimitButNotListed`, `InputState.ListedIffAtLimit`); the first trip of a run is exact
  (`InputState.FirstTripIsExact`).
- The reader accepts invalid reals with any NaN, the writer makes only one (`LogRecord.OtherNanIsRead`, `LogRecord.OtherNansAreNotKept`,
  `LogRecord.RecordIsRead`).
- The full-buffer branch of both parsers can be reached, but only behind a frame the callback keeps refusing
  (`FrameFeeding.FullAfterByte`, `FrameFeeding.RefusedOften`, with `FrameFeeding.HostBufferFills` and
  `FrameFeeding.BoardBufferFills` as witnesses); the frame is then lost (`FrameFeeding.FullBufferLosesFrame`). With a
  callback that always accepts it is never reached (`FrameFeeding.IncrementalParse`).
- The host starts by assuming a disabled board; the two agree only from the first confirmed DISABLE on
  (`Handshake.BaselineIsNeeded`, `Handshake.AgreeWhenQuiet`).
- Sixteen-bit tracking also classifies correctly some numbers older than half the range, so the half range is sufficient but
  not necessary (`SequenceTracking.StepRefines`).
- The converter's record counter can overflow in a file of 2^64 records with consecutive numbers from zero; its gap counter
  never can (`LogConverter.OverflowIffTooMany`, `LogConverter.ConvertRecords`).

## Model

| member | source | states |
|---|---|---|
| `FrameGrammar.ReadSplit` | src/daq_protocol.c:90-126 | Stopping a read of the stream at any byte and resuming from the unfinished rest gives the same frames, counters and rest as one pass. |
| `FrameGrammar.ReadConserves` | src/daq_protocol.c:19-126 | For every stream, discarded bytes plus held bytes is the stream's length; what is held is the stream's end, needs more bytes, and is shorter than the buffer. |
| `FrameGrammar.JudgeStable` | src/daq_protocol.c:34-126 | A header decision, once taken, is not changed by bytes that arrive later. |
| `FrameGrammar.ReadersAgree` | firmware/daqc_esp32/main/daqc_protocol.c:15-50 | On every stream the board's grammar and the host's (21-byte DATA, no CONFIG status, capacity 133) give the same frames and bad-header count; the host's rest is the board's without its unsynced prefix. |
| `FrameGrammar.JudgeEncoded` | src/daq_protocol.c:128-167 | An encoded frame at the front of any bytes is recognised with its exact length and decodes to itself. |
| `FrameGrammar.TakenReencodes` | src/daq_protocol.c:55-81 | A DATA, READ_ACK or XRCE frame taken off a stream encodes back to exactly the bytes it was taken from. |
| `FrameGrammar.TakenConfigReencodes` | src/daq_protocol.c:55-81 | So does a CONFIG frame, with or without its status. |
| `FrameGrammar.DataFits` | src/daq_protocol.c:34-81 | Every DATA frame read from any stream carries exactly the configured payload size. |
| `FrameGrammar.HeaderIsBad` | src/daq_protocol.c:34-126 | A bad header is exactly a sync pair with an unknown identifier or with a datagram longer than the buffer (128 bytes on the board); any other dropped byte starts no sync pair. |
| `FrameGrammar.ReadStream` | src/daq_protocol.c:90-167 | Encoded frames separated by noise without a sync pair are read back exactly, with no bad header, even when payloads contain sync bytes. |
| `FrameFeeding.FeedReads` | src/daq_protocol.c:90-126 | One feed call with an accepting callback reads the held bytes followed by the new ones as one stream. |
| `FrameFeeding.IncrementalParse` | src/daq_protocol.c:90-126 | For every stream and every split into calls with an always-true callback, frames, counters and held bytes are those of one left-to-right read; bytes are conserved and the buffer never fills. |
| `FrameFeeding.ChunkingIsIrrelevant` | src/daq_protocol.c:90-126 | The same from any state a call can leave behind, not only a fresh parser. |
| `FrameFeeding.ParsersAgree` | firmware/daqc_esp32/main/daqc_protocol.c:30-50 | With a callback that accepts every frame, and fed the same chunks, host and board parsers hand over the same frames, and the host holds the board's bytes with unsynced ones stripped. |
| `FrameFeeding.ParsersAgreeUpToRefusal` | firmware/daqc_esp32/main/daqc_protocol.c:30-50 | With any callback, they hand over the same frames up to and including the first refused one, and stop at it together. |
| `FrameFeeding.DeliversUpToRefusal` | src/daq_protocol.c:90-126 | With any callback, a call hands over the frames of the stream's reading up to and including the first it refuses, and is stopped exactly when there is one. |
| `FrameFeeding.HandedOverIsPrefix` | src/daq_protocol.c:90-126 | What is handed over is a prefix of the frames, all accepted but its last if that was refused. |
| `FrameFeeding.EncodedFramesAreDelivered` | src/daq_protocol.c:90-167 | With a callback that accepts every frame, any chunking of encoded frames and quiet noise delivers exactly those frames, for both parsers. |
| `FrameFeeding.EncodedFramesUpToRefusal` | src/daq_protocol.c:90-167 | With any callback, the encoded frames are delivered in order up to and including the first refused one. |
| `FrameFeeding.FullAfterByte` | src/daq_protocol.c:90-126 | For every callback and every state a call can leave, a byte leaves the buffer full if and only if it is the last to fit, a complete frame then stands at the front, and the callback refuses it. |
| `FrameFeeding.FillsAtOnce` | src/daq_protocol.c:90-126 | Without a refused frame in the buffer, one call fills it if and only if it stops on a frame as long as the buffer. |
| `FrameFeeding.RefusedAgain` | src/daq_protocol.c:90-126 | With room left, a frame refused again stays, is handed over once more, and exactly one byte is kept behind it. |
| `FrameFeeding.RefusedOften` | src/daq_protocol.c:90-126 | A refused frame of a buffer of n bytes leaves n + k bytes after k more refusals, full if and only if that is the capacity. |
| `FrameFeeding.FeedLeaves` | src/daq_protocol.c:90-126 | Whatever the callback answers, a call leaves bytes that wait for more or a refused frame at the front. |
| `FrameFeeding.FullBufferLosesFrame` | src/daq_protocol.c:94-98 | The byte after a full buffer removes the refused frame's sync pair at least, counts an invalid frame, and leaves room. |
| `FrameFeeding.AfterRefusal` | src/daq_protocol.c:90-126 | After a refusal, the next byte hands the frame over again while there is room, and destroys it when there is none. |
| `FrameFeeding.HostBufferFills` | src/daq_protocol.c:83-126 | A concrete host buffer that a single refused frame fills. |
| `FrameFeeding.BoardBufferFills` | firmware/daqc_esp32/main/daqc_protocol.c:30-50 | The board's buffer fills behind any frame: a frame of n bytes refused 262 - n times in all. |
| `FrameFeeding.OneCallNeverFillsBoard` | firmware/daqc_esp32/main/daqc_protocol.c:30-50 | One call never fills the board's buffer unless a refused frame is already in it. |
| `HostProtocol.Parser.Init` | src/daq_protocol.c:83-88 | Accepts exactly the buffers that hold a DATA frame of an admissible payload size, and starts empty. |
| `HostProtocol.Parser.DiscardPrefix` | src/daq_protocol.c:19-24 | Moving the buffer down removes exactly a prefix, at most everything held, and counts it. |
| `HostProtocol.Parser.FindSync` | src/daq_protocol.c:26-32 | Finds the first sync pair, or with none keeps the last byte. |
| `HostProtocol.Parser.TakeFrames` | src/daq_protocol.c:90-126 | The inner loop of the in-place parser terminates and does what the abstract drain does. |
| `HostProtocol.Parser.Feed` | src/daq_protocol.c:90-126 | The in-place parser does what the abstract feed does, including a call stopped by the callback. |
| `HostProtocol.EncodeConfig` | src/daq_protocol.c:128-137 | Writes the encoding of the frame and nothing beyond it, or nothing and size zero for a bad command or a short buffer. |
| `HostProtocol.EncodeData` | src/daq_protocol.c:139-148 | The same for DATA, up to 256 payload bytes. |
| `HostProtocol.EncodeReadAck` | src/daq_protocol.c:150-157 | The same for READ_ACK. |
| `HostProtocol.EncodeXrce` | src/daq_protocol.c:159-167 | The same for XRCE, up to the 128-byte MTU. |
| `BoardProtocol.Parser.Discard` | firmware/daqc_esp32/main/daqc_protocol.c:9-13 | Moving the board's buffer down removes exactly a prefix. |
| `BoardProtocol.Parser.Feed` | firmware/daqc_esp32/main/daqc_protocol.c:30-50 | The board's in-place parser does what the abstract feed does, including a call stopped by the handler. |
| `BoardProtocol.EncodeConfig` | firmware/daqc_esp32/main/daqc_protocol.c:52-58 | Writes the encoding of the frame for any command byte, or nothing when the buffer is short. |
| `BoardProtocol.EncodeData` | firmware/daqc_esp32/main/daqc_protocol.c:59-62 | Writes the encoding of a 28-byte acquisition frame, or nothing for any other size. |
| `BoardProtocol.EncodeReadAck` | firmware/daqc_esp32/main/daqc_protocol.c:63-63 | Writes the encoding of the acknowledgement, or nothing. |
| `BoardProtocol.EncodeXrce` | firmware/daqc_esp32/main/daqc_protocol.c:64-64 | Writes the encoding of the datagram up to the MTU, or nothing. |
| `SequenceTracking.StepRefines` | src/daq_protocol.c:169-190 | The 16-bit tracker classifies an arrival as integer comparison of true numbers would if and only if the distance is unambiguous (the half range, or older numbers that still wrap into it). |
| `SequenceTracking.RunRefines` | src/daq_protocol.c:169-190 | Over any run within the half range, 16-bit and unbounded tracking give the same relations and counters (section 3.2 of RFC 1982). |
| `SequenceTracking.TrackerCountsMissing` | src/daq_protocol.c:169-190 | From a fresh start, accepted true numbers strictly increase and the missing count is last minus first plus one minus accepted. |
| `SequenceTracking.Tracker.Update` | src/daq_protocol.c:169-190 | The updated fields and the returned relation are those of one step of the 16-bit tracker. |
| `SequenceTracking.IsNewerSequence` | firmware/daqc_esp32/main/main.c:40-43 | The board's comparison says newer exactly when the host's tracker would accept the number. |
| `SequenceTracking.AcknowledgementFollowsTracker` | firmware/daqc_esp32/main/main.c:87-94 | Over any run of acknowledgements, the one the board remembers is the last one the host's tracker would have accepted. |
| `LinkState.LinkState.ConfirmCommand` | src/daq_link_state.c:34-58 | The whole new link state and status of a confirmation: matching status only, STREAMING only from ENABLED or STREAMING, mailbox and acknowledgement cleared by DISABLE and ENABLE. |
| `LinkState.LinkState.PublishOutput` | src/daq_link_state.c:68-88 | The whole new state of a publish: latest wins, replaced outputs counted, refused outside STREAMING or above 256 bytes. |
| `LinkState.LinkState.TakeLatestOutput` | src/daq_link_state.c:90-99 | Takes the mailbox and leaves nothing pending. |
| `LinkState.LinkState.AcceptSequence` | src/daq_link_state.c:101-118 | Tracks the number and makes it the pending acknowledgement exactly when accepted in STREAMING. |
| `LinkState.LinkState.TakeAck` | src/daq_link_state.c:120-130 | Takes the latest acknowledgement once. |
| `Coordinator.RunInvariant` | src/daq_coordinator.c:7-211 | Over every interleaving of receives, publishes, commands, datagrams and locked transmit sections, the state stays consistent and equals what the history of accepted events determines. |
| `Coordinator.NothingPendingOutsideStreaming` | src/daq_link_state.c:34-130 | After any run, outside STREAMING neither an output nor an acknowledgement is pending. |
| `Coordinator.SentIsLatest` | src/daq_coordinator.c:150-211 | A DATA frame sent carries the latest output accepted since the last ENABLE or DISABLE confirmation, a READ_ACK the latest acquisition; both only in STREAMING, and every frame fits the transmit buffer. |
| `Coordinator.OutputsAreConserved` | src/daq_link_state.c:68-99 | Accepted publishes equal DATA frames sent plus coalesced plus cleared plus pending. |
| `Coordinator.XrceIsFifo` | src/daq_coordinator.c:131-211 | Accepted datagrams are those sent, in order, followed by those queued, across any mode changes; refused ones are counted. |
| `Coordinator.CommandsAreSent` | src/daq_coordinator.c:104-169 | Commands are sent once each, in the order the slot took them, with at most one waiting. |
| `Coordinator.CountersAreTrue` | src/daq_coordinator.c:7-37 | Every frame received is used, by the mode and tracking the history gives, or counted as rejected; confirmations and datagrams are counted truly. |
| `Coordinator.TransmitPriority` | src/daq_coordinator.c:150-211 | An undisturbed transmission sends the command, else the acknowledgement, else the output, else the oldest datagram; no encoder can fail. |
| `Coordinator.SentIsReceivable` | src/daq_coordinator.c:150-211 | When outputs have the board's 21 bytes, every frame sent is one the board's parser accepts. |
| `Coordinator.SentReachesBoard` | src/daq_coordinator.c:150-211 | End to end: however the line cuts the bytes of a run's frames, the board's parser, with a handler that accepts every frame, hands over exactly those frames. |
| `Coordinator.SentReachesBoardUpToRefusal` | src/daq_coordinator.c:150-211 | With any handler, it hands them over in order up to and including the first refused one. |
| `Coordinator.RingEnqueue` | src/daq_coordinator.c:131-148 | Writing at the tail slot appends to the ring's contents. |
| `Coordinator.RingDequeue` | src/daq_coordinator.c:194-201 | Advancing the head removes the oldest datagram and nothing else. |
| `Coordinator.DaqCoordinator.ProcessFrame` | src/daq_coordinator.c:7-37 | The class moves as the model does on every frame from the board, for any answer of the receiver it passes the frame on to, and keeps its invariant. |
| `Coordinator.DaqCoordinator.Queue` | src/daq_coordinator.c:104-118 | One command slot: taken, busy or invalid, with the model's new state. |
| `Coordinator.DaqCoordinator.Publish` | src/daq_coordinator.c:120-129 | Publishing moves the link as the model does and reports why it could not. |
| `Coordinator.DaqCoordinator.Enqueue` | src/daq_coordinator.c:131-148 | The 64-slot ring appends, or counts an overflow when full. |
| `Coordinator.DaqCoordinator.TakeTransmit` | src/daq_coordinator.c:150-211 | The bytes written are the encoding of the frame the model picks, and the state after is the model's. |
| `Handshake.RepliesInFlightLeadToBoard` | src/daqc_runtime.c:84-102 | From any board state and over any run with retries and refusals, replaying the replies in flight onto the host mode gives the board's state if and only if the board has applied a command or started disabled. |
| `Handshake.AgreeWhenQuiet` | src/daq_state_control.c:26-79 | Once the baseline DISABLE is confirmed, host and board are equal whenever no reply is in flight. |
| `Handshake.PhasesAreSafe` | src/daqc_runtime.c:84-104 | Every phase after the baseline has that confirmation, and STREAMING never reaches a disabled board. |
| `Handshake.SessionsReachRunning` | src/daqc_runtime.c:58-108 | Whatever state the board was left in, if it applies commands the ordinary sequence of attempts leads to a running session with host and board streaming. |
| `Handshake.StoppingReachesDisabled` | src/daqc_runtime.c:43-56 | From the stop, an applied DISABLE leads to a closed session and a disabled board and host. |
| `Handshake.AppliedAttempt` | src/daq_state_control.c:26-79 | In any quiet session an attempt the board applies brings board and host to the command's state, counted once. |
| `Handshake.RefusedAttempts` | firmware/daqc_esp32/main/daqc_control.c:30-41 | Any number of attempts the board refuses, while it is in another state, change nothing. |
| `Handshake.BaselineIsNeeded` | src/daq_state_control.c:53-71 | Without it they can stay apart for good: a concrete run with a board left streaming and every DISABLE refused. |
| `Handshake.ReceiveIsConfirm` | src/daq_link_state.c:34-58 | The handshake's host step is the link's confirmation, reduced to the mode. |
| `StateControl.Retry` | src/daq_state_control.c:26-71 | The polling loop ends as its first poll that sees the goal or the deadline decides, the goal winning a tie; attempts are at least five milliseconds apart, none after the deadline, and no poll is further than that from the last attempt. |
| `StateControl.CommandModeIsConfirmed` | src/daq_state_control.c:20-24 | The mode waited for is the one a confirmation of the command leads to, wherever the link admits it. |
| `StateControl.Transition` | src/daq_state_control.c:26-51 | Invalid arguments and an unexpected mode end it without an attempt; otherwise all of the loop's promise, for the command's mode. |
| `StateControl.ConfirmDisable` | src/daq_state_control.c:53-71 | All of the loop's promise, for a confirmation newer than those counted at the start, in the disabled mode. |
| `StateControl.WaitEnds` | src/daq_state_control.c:26-71 | With a clock that moves at every poll, the wait ends within one poll per millisecond of the timeout. |
| `LoggerRing.SlotsAreSafe` | src/binary_logger.c:27-35 | Under every interleaving of atomic loads and stores, with stale index loads, the producer never writes an unread slot or the one being read, and pops come in publish order. |
| `LoggerRing.RefusedWhenFull` | src/binary_logger.c:193-211 | A publish is refused if and only if the ring, as far as the producer can see, holds one sample less than its capacity. |
| `LoggerRing.Join` | src/binary_logger.c:53-118 | When the consumer has finished, every accepted sample was popped, the persisted ones are a prefix of the accepted, persisted plus discarded is accepted plus saturation drops, and a complete report means everything offered was written. |
| `LoggerRing.PersistedIsOffered` | src/binary_logger.c:71-117 | Persisted samples are offered ones in order, skipping at most as many as were dropped. |
| `LoggerSink.SinkIsFinalized` | src/binary_logger.c:43-118 | When the consumer has finished, a sink that opened was asked to flush exactly once and then to close exactly once, last of all; a sink that did not open was asked nothing more; the reported stage is that of the first call that went wrong. |
| `LoggerProgress.EveryRunCanFinish` | src/binary_logger.c:53-118 | No run is stuck: from wherever it stands the log can be closed and the consumer finishes, whatever the sink answers. |
| `LoggerRing.StepKeeps` | src/binary_logger.c:27-216 | The ring, counter and report invariant is kept by every atomic step of either thread. |
| `LoggerRing.RunKeeps` | src/binary_logger.c:27-216 | Hence by every run, for any ring capacity (the plot queue is the same ring). |
| `Utf8.AcceptsIsWellFormed` | src/log_format.c:98-137 | The check accepts a byte string if and only if it encodes some text of non-zero Unicode scalar values (sections 3 and 4 of RFC 3629). |
| `Utf8.AcceptedHasNoNul` | src/log_format.c:98-137 | Accepted text contains no zero byte. |
| `Utf8.IsValid` | src/log_format.c:98-137 | The scanning loop decides exactly that, without reading past the end. |
| `LogFormat.HeaderReadsBack` | src/log_format.c:182-263 | Decoding the header of a valid descriptor gives it back and leaves what follows untouched. |
| `LogFormat.HeaderIsRead` | src/log_format.c:215-263 | Any bytes the reader accepts are the encoding of the valid descriptor it returns. |
| `LogFormat.HeaderCodecIsBijection` | src/log_format.c:182-263 | The reader accepts exactly the byte strings the writer can produce. |
| `LogLayout.HeaderLayout` | src/log_format.c:182-203 | Position by position: magic, version, size, hash, start, step and count stand at fixed offsets, least significant byte first. |
| `LogLayout.HeaderOutputs` | src/log_format.c:203-213 | Behind them, each output's index, reference, type, name length and name, one output after another. |
| `LogLayout.CutHeaderIsTruncated` | src/log_format.c:215-263 | A header cut anywhere, even to nothing, reads as truncated. |
| `LogLayout.WrongMagicOrVersion` | src/log_format.c:215-232 | A wrong magic or version decides before anything else. |
| `LogLayout.LimitsOfDescriptors` | src/log_format.c:150-157 | The limits in terms of the count and of sign, exponent and fraction: one to sixty-four outputs, finite start, finite step above zero. |
| `LogLayout.FirstObjection` | src/log_format.c:150-171 | A descriptor within the limits is refused for the first output that is not valid, and for what is wrong with it. |
| `LogFormat.HeaderLength` | src/log_format.c:178-213 | The header size field is the number of bytes written. |
| `LogFormat.ValidateIsValid` | src/log_format.c:150-171 | Validation succeeds exactly on descriptors within limits, with increasing indices, known types and well-formed names. |
| `LogFormat.CheckDescriptor` | src/log_format.c:139-171 | The loop returns the first complaint in order and the exact header size; its overflow branch cannot be taken. |
| `LogFormat.WriteHeader` | src/log_format.c:182-213 | Appends the encoded header of a valid descriptor, or nothing. |
| `LogFormat.ReadHeader` | src/log_format.c:215-263 | Returns what decoding the rest of the stream gives, with its exact failure status. |
| `LogRecord.RecordReadsBack` | src/log_format.c:289-370 | A written record reads back as its normal form: unusable values marked invalid, and nothing after it touched. |
| `LogLayout.WrittenIsRead` | src/log_format.c:289-370 | A value reads back flagged exactly if the caller flagged it or the wire cannot carry it, and otherwise as the value given; flagged ones read as NaN or zero. |
| `LogLayout.RecordLayout` | src/log_format.c:298-321 | Position by position: number, time, one quality bit per output, and each value in its width. |
| `LogRecord.RecordIsRead` | src/log_format.c:340-370 | What the reader accepts re-encodes to the bytes read if and only if its invalid reals are the canonical NaN. |
| `LogRecord.RecordReencodes` | src/log_format.c:289-370 | Re-encoding what was read from written records gives the same bytes. |
| `LogRecord.OtherNanIsRead` | src/log_format.c:328-370 | Any record of one invalid real with a NaN that is not the writer's is read, and written back differently. |
| `LogRecord.OtherNansAreNotKept` | src/log_format.c:280-370 | A concrete valid descriptor and record of that kind. |
| `LogRecord.RecordConsumes` | src/log_format.c:340-370 | Every record of a descriptor takes the same number of bytes. |
| `LogRecord.CutRecordIsTruncated` | src/log_format.c:340-370 | A record cut anywhere inside reads as truncated. |
| `LogLayout.LongRecordIsDecided` | src/log_format.c:340-370 | With enough bytes for a record, the reader takes it or calls it inconsistent. |
| `LogRecord.CutStream` | src/log_format.c:340-370 | Cutting a stream of records at any byte, the reader returns exactly the records before the cut, then end of file on a boundary and truncated elsewhere. |
| `LogRecord.PackUnpack` | src/log_format.c:265-278 | The quality bitmap loses nothing: packing unpacked bytes gives them back. |
| `LogRecord.UnpackPack` | src/log_format.c:265-278 | And unpacking packed flags gives them back. |
| `LogLayout.PackedBit` | src/log_format.c:265-278 | The flag of output i is bit i modulo 8 of byte i divided by 8. |
| `LogRecord.ValueReadsBack` | src/log_format.c:280-338 | A typed value written with its quality reads back as its normal value. |
| `LogRecord.WriteRecord` | src/log_format.c:289-321 | Appends the encoded record exactly for a valid descriptor and a finite time, otherwise nothing with the exact status. |
| `LogRecord.ReadRecord` | src/log_format.c:340-370 | Returns what decoding the rest of the stream gives, with its exact failure status. |
| `LogConverter.DescriptorsMatch` | src/log_converter.c:150-181 | True exactly for equal hash and outputs; otherwise names the first field of the first output that differs. |
| `LogConverter.ConvertRecords` | src/log_converter.c:245-286 | Converts every record exactly when their numbers strictly rise and the file ends cleanly or truncated, with the gaps counted exactly, and otherwise reports the offending record; the gap counter cannot overflow. |
| `LogConverter.ReportIsUnique` | src/log_converter.c:245-286 | That promise admits only one report and one list of rows. |
| `LogConverter.OverflowIffTooMany` | src/log_converter.c:278-281 | The record counter overflows if and only if the file has 2^64 rising records, and then they are numbered from zero without a gap. |
| `LogConverter.Convert` | src/log_converter.c:183-318 | The whole conversion: refused while running or for an invalid descriptor, bad header exactly when decoding fails, and rows published exactly on complete or truncated files. |
| `LoggedRun.MissingAreAbsent` | src/log_converter.c:263-272 | The gap count is the number of sequence numbers between the first and last record that no record carries. |
| `LoggedRun.WrittenRise` | src/binary_logger.c:71-117 | The records a run writes have rising numbers and miss at most as many as saturation dropped. |
| `LoggedRun.RunConverts` | src/log_converter.c:245-286 | Any report on a run's records, cut at any byte, exports exactly the persisted samples before the cut, in order and normal form, with at most the saturation drops missing. |
| `LoggedRun.FileConverts` | src/log_converter.c:183-318 | The same for the whole file, header included, through the whole conversion to the published rows. |
| `Sha256.PadIsInjective` | src/sha256.c:112-120 | Two messages within the limit never share a padded form. |
| `Sha256.ZeroCountIsLeast` | src/sha256.c:112-119 | Padding fills whole blocks with the fewest zeros (section 5.1.1 of FIPS 180-4). |
| `Sha256.Absorb` | src/sha256.c:96-110 | Buffering a chunk hashes a full block and otherwise keeps the tail: the hash of whole blocks and the tail always describe the message so far. |
| `Sha256.PadBlocks` | src/sha256.c:112-121 | The one or two last blocks that finishing builds are the padded end of the message. |
| `Sha256.RunRounds` | src/sha256.c:66-80 | Sixty-four rounds on eight working variables compute the hash's round function (section 6.2.2 of FIPS 180-4). |
| `Sha256.BuildSchedule` | src/sha256.c:59-65 | The schedule array holds the words the standard defines by recursion. |
| `Sha256.Context.Transform` | src/sha256.c:53-90 | The new state is the compression of the old one with the block. |
| `Sha256.Context.Update` | src/sha256.c:96-110 | After any sequence of updates the context stands for the concatenation of the chunks, whatever their sizes. |
| `Sha256.Context.Finish` | src/sha256.c:112-125 | The digest is the one-shot hash of everything taken in. |
| `Sha256.HashFile` | src/sha256.c:127-149 | Reading through a 4096-byte buffer gives the one-shot hash of the file. |
| `Sha256Parts.ConstantsAreCubeRoots` | src/sha256.c:14-23 | Each round constant is the first 32 bits of the fractional part of the cube root of the prime of its number, by integer inequalities (section 4.2.2 of FIPS 180-4). |
| `Sha256Parts.InitialIsSquareRoots` | src/sha256.c:92-94 | The initial hash value is made of square roots of the first eight primes (section 5.3.3). |
| `Sha256Parts.ChooseBits` | src/sha256.c:29-31 | Every bit of a choice comes from the word the selector names. |
| `Sha256Parts.MajorityBits` | src/sha256.c:33-35 | Every bit of a majority is that on which two words agree. |
| `Sha256Parts.Sigma0Rotates` | src/sha256.c:37-39 | The function is the exclusive or of the word's rotations by 2, 13 and 22. |
| `Sha256Parts.Sigma1Rotates` | src/sha256.c:41-43 | Of the rotations by 6, 11 and 25. |
| `Sha256Parts.Gamma0Rotates` | src/sha256.c:45-47 | Of the rotations by 7 and 18 and the shift by 3. |
| `Sha256Parts.Gamma1Rotates` | src/sha256.c:49-51 | Of the rotations by 17 and 19 and the shift by 10. |
| `Sha256Parts.WordOfBytes` | src/sha256.c:122-124 | A digest word is its four bytes, most significant first. |
| `ReleaseSchedule.CeilIsLeast` | src/release_schedule.c:34-35 | Rounding up gives the first grid point not before the time. |
| `ReleaseSchedule.RunAccounts` | src/release_schedule.c:29-59 | Over any run, the release index is completed steps plus unused releases, late steps are counted truly and never exceed unused releases, and the recorded maximum lateness is the true maximum. |
| `ReleaseSchedule.ReleasesAreEarliest` | src/release_schedule.c:29-59 | Over any run, steps are released at strictly increasing grid points, and the next release is the first one after the last step and not before the last completion or any wake-up since. |
| `ReleaseSchedule.CompletionMeans` | src/release_schedule.c:42-59 | A completion is refused exactly when its deadline does not fit in 64 bits, however late it is; otherwise lateness, unused releases and the next index are what the deadline and the grid say. |
| `ReleaseSchedule.AdvanceMeans` | src/release_schedule.c:29-40 | A wake-up is refused exactly when the release it would move to is out of range; otherwise the next release is the first grid point not before it. |
| `ReleaseSchedule.StepsAreCompletions` | src/release_schedule.c:42-59 | Over any run, the steps are exactly the completions whose deadline fits, in order, late ones included. |
| `ReleaseSchedule.EveryCompletionCounts` | src/release_schedule.c:42-59 | Over a run whose deadlines fit, every completion is a step. |
| `ReleaseSchedule.EarlyTimesFit` | src/release_schedule.c:42-46 | Times that leave room for one step per call and one more make every deadline fit. |
| `ReleaseSchedule.ReleaseNs` | src/release_schedule.c:24-27 | The release time when it fits in 64 bits, all ones otherwise. |
| `ReleaseSchedule.Schedule.AdvanceToEarliestRelease` | src/release_schedule.c:29-40 | In 64-bit fields, without overflow, does what the unbounded counters do, and refuses exactly for a release out of range. |
| `ReleaseSchedule.Schedule.CompleteStep` | src/release_schedule.c:42-59 | The same for completing a step, refused exactly when step is zero or the deadline exceeds 64 bits. |
| `InputState.ValuesSuitTypes` | src/input_state.c:8-93 | Whatever the history, the value a snapshot shows suits the channel's type. |
| `InputState.FreshIsLatest` | src/input_state.c:46-67 | Fresh data is exactly the last publication of the channel since the last step. |
| `InputState.AcceptedIsLatest` | src/input_state.c:69-85 | The value kept is that of the last step that found fresh valid data. |
| `InputState.NothingAccepted` | src/input_state.c:80-88 | Before the first such step there is none, and the initial value shows. |
| `InputState.InvalidStepsAreFailed` | src/input_state.c:69-74 | The invalid count is the number of steps with fresh invalid data since the last with fresh valid data. |
| `Acquisition.ValidIsCarried` | src/input_state.c:8-18 | A candidate is valid exactly if the transport says so and it is a finite double, zero or one, or a number of 32 signed bits, by its type. |
| `InputState.AbsentDataChangesNothing` | src/input_state.c:65-80 | A step without fresh data leaves value and count of a channel alone. |
| `InputState.ListedIffAtLimit` | src/input_state.c:72-77 | A step lists a channel if and only if its count is at the limit, protection is on, and the channel received data since the last step. |
| `InputState.AtLimitButNotListed` | src/input_state.c:67-77 | Without that data a channel at the limit is not listed: a concrete history. |
| `InputState.FirstTripIsExact` | src/input_state.c:59-93 | On the first trip of a run, listed channels are exactly those at the limit, and none is above it. |
| `InputState.ReceiveTracks` | src/input_state.c:46-57 | A channel's fields follow the history through a publication. |
| `InputState.ConsumeTracks` | src/input_state.c:66-79 | And through a step boundary. |
| `InputState.Inputs.Init` | src/input_state.c:20-38 | Succeeds exactly when every channel has a name and a valid initial value, and then starts an empty history. |
| `InputState.Inputs.Publish` | src/input_state.c:46-57 | Changes one channel's candidate and nothing else, or refuses an unknown channel. |
| `InputState.Inputs.PrepareStep` | src/input_state.c:59-93 | The snapshot shows each channel's last fresh valid value or its initial one, lists the channels the history says, trips exactly when one is listed, and never lacks a reference. |
| `Acquisition.OnePublication` | src/daq_acquisition.c:30-42 | A frame publishes each mapped channel exactly once, and afterwards that value is the fresh one. |
| `Acquisition.CountsOnce` | src/daq_acquisition.c:30-42 | Every channel's publication count grows by one if it is mapped and not at all otherwise. |
| `Acquisition.BelievedIffUsable` | src/daq_acquisition.c:30-42 | The input state believes exactly the values the schema could decode. |
| `Acquisition.FrameReachesStep` | src/daq_acquisition.c:23-44 | The step after a frame shows each usable value, and counts one more invalid step where there is none. |
| `Acquisition.PayloadReachesStep` | src/daq_schema.c:77-115 | The same from the payload's own bytes: a digital input shows its byte, an analog one its scaled word, an integer its scaled signed word, and anything unusable leaves the value before. |
| `Acquisition.Acquisition.Init` | src/daq_acquisition.c:8-21 | Accepts a schema exactly when each field is an input with a channel of its type, and is valid for any schema that a build produced. |
| `Acquisition.Acquisition.Apply` | src/daq_acquisition.c:23-44 | Takes every frame of the right size, advances each mapped channel's generation by exactly one and counts unusable values; publishing cannot fail. |
| `Actuation.AllOrNothing` | src/daq_actuation.c:65-91 | Nothing is held until a round is accepted; from then on every field holds something. |
| `Actuation.NoValueStopsLater` | src/daq_actuation.c:76-87 | Once a round has been accepted, a later one succeeds if and only if every field has an output; no value can stop it. |
| `Actuation.HoldsMostRecent` | src/daq_actuation.c:76-90 | Each field holds the encoding of its value in the last accepted round that offered a sendable one. |
| `Actuation.EncodedMeans` | src/daq_actuation.c:30-46 | A value is encoded exactly if it is zero or one, or finite with a quotient within single precision and the function's range; the bytes then carry its low byte or the single of its quotient. |
| `Actuation.FirstRoundNeedsAll` | src/daq_actuation.c:76-87 | The first round is accepted exactly when every field has an output with a value it can send. |
| `Actuation.PayloadCarries` | src/daq_actuation.c:65-91 | Each field of the packed payload carries the value of the last accepted round to offer it one it can send. |
| `Actuation.WriteField` | src/daq_actuation.c:30-46 | Writing one field of a canonical layout changes what that field shows and nothing else. |
| `Actuation.ShownIsUnique` | src/daq_actuation.c:65-91 | What is held determines every byte of the payload, uncovered ones being zero. |
| `Actuation.Actuation.Init` | src/daq_actuation.c:56-63 | Accepts exactly actuation schemas within 256 bytes, starts with nothing held, and is valid for any schema that a build produced. |
| `Actuation.Actuation.Pack` | src/daq_actuation.c:65-91 | A round is packed whole, payload and memory showing what the whole history of rounds makes every field hold, or fails with the first stopping field's status and changes neither. |
| `Actuation.Actuation.Zero` | src/daq_actuation.c:93-96 | Zeroes the payload's bytes and leaves memory and the rest of the buffer alone. |
| `Actuation.FindOutputValue` | src/daq_actuation.c:48-54 | Finds the first output that matches index, reference and type. |
| `BoardProfile.RoundedIsWithin` | firmware/daqc_esp32/main/daqc_profile.c:154-159 | A value within the host's range rounds to a single within the board's, given only that rounding is monotone. |
| `BoardProfile.ChecksAreByChannel` | firmware/daqc_esp32/main/daqc_profile.c:150-159 | The board's checks are one check for each actuation channel of the profile, no more and no less. |
| `BoardProfile.BoardTakesPayload` | firmware/daqc_esp32/main/daqc_profile.c:150-159 | Every payload the host builds on any ESP32 schema, after any rounds, passes the board's checks. |
| `BoardProfile.BoardTakesMemory` | src/daq_actuation.c:65-91 | So do the bytes the packer remembers, and hands out, after any sequence of its calls. |
| `DaqSchema.Build` | src/daq_schema.c:37-71 | Builds a schema if and only if the fields, in the order given, are a canonical layout: sound, offset-ordered, disjoint, unique in pin and variable, within the payload. |
| `DaqSchema.CheckField` | src/daq_schema.c:44-65 | The first complaint about a field, in the order of the checks. |
| `DaqSchema.ComplaintIsJust` | src/daq_schema.c:37-71 | No complaint is ever raised about a layout that could be built. |
| `DaqSchema.SoundMeans` | src/daq_schema.c:10-31 | Sound fields are singles for reals, words for integers and enumerations, and plain unscaled bytes for Booleans, with a finite scale that is not zero. |
| `DaqSchema.DecodedSuitsType` | src/daq_schema.c:77-115 | A sound field inside the payload always decodes, and what is called valid suits the FMU type, whatever the arithmetic. |
| `DaqSchema.DecodedMeans` | src/daq_schema.c:77-115 | A Boolean is its byte, valid when zero or one; a float its little-endian word scaled, valid when finite; an integer its signed word scaled, valid when that is an integer of 32 bits. |
| `Profile.SortFieldsByOffset` | src/profile_config.c:225-235 | Sorts the first fields by offset in place: a permutation in order, nothing beyond them touched. |
| `Profile.Insert` | src/profile_config.c:227-233 | One turn moves one field down past exactly the fields with a larger offset. |
| `Profile.BuildField` | src/profile_config.c:178-223 | A mapping becomes a field of the table's channel of that name, if there is one. |
| `Profile.AcquisitionIsTable` | src/profile_config.c:169-176 | The acquisition channels lie one after another on pins of their own within 28 bytes. |
| `Profile.ActuationIsTable` | src/profile_config.c:197-204 | The actuation channels lie one after another on pins of their own within 21 bytes. |
| `Profile.AcquisitionIsNamed` | src/profile_config.c:169-176 | Each acquisition channel is called GPIO, its pin in decimal, and AI or DI for what it does. |
| `Profile.ActuationIsNamed` | src/profile_config.c:197-204 | Each actuation channel likewise, with AO, DO or PWM. |
| `Profile.CanonicalIffAcceptable` | src/profile_config.c:303-331 | Sorted fields make a canonical layout if and only if the mappings are sound and no channel and no variable is mapped twice. |
| `Profile.OrderDoesNotMatter` | src/profile_config.c:303-331 | Two profiles with the same mappings in any order build the identical schema, or both build none. |
| `Profile.AcceptableFits` | src/profile_config.c:305-312 | Buildable mappings never outnumber the channels, so the count limit refuses nothing that could be built. |
| `Profile.BuildSchema` | src/profile_config.c:303-331 | A schema exactly for acceptable mappings, holding their fields and no other in canonical order. |
| `Profile.BuiltCarriesMappings` | src/profile_config.c:178-223 | In a built schema every mapping has a field with its channel's place and its own type, scale, offset and variable, and every field a mapping. |
| `Profile.BuildAcquisitionSchema` | src/profile_config.c:303-316 | The same for the inputs of profile 1 and 28 bytes. |
| `Profile.BuildActuationSchema` | src/profile_config.c:318-331 | The same for the outputs of profile 1 and 21 bytes. |

## Left out

- Null-pointer arguments, uninitialized objects where a constructor stands for initialization, and the texts of status and error messages.
- Failures of mutexes, threads, allocation, files and renames; a logger sink's answers, the polls of a clock and a callback's answers are inputs.
- Drivers, sockets, UART and termios: byte channels that neither lose nor reorder; bytes and replies left over from an earlier session on the line are not modelled.
- The board's watchdog, which disables a streaming board without a CONFIG frame, its ROS setup commands, and its task scheduling.
- Weak memory appears in the logger only as stale loads of the other thread's index; release and acquire order is taken for the rest.
- LoggerRing: a state machine on values instead of a class, because two threads share its fields; the sleep between polls, the counter of empty polls and the sink's status codes beyond good or bad are not modelled.
- Coordinator: 64-bit statistics counters are unbounded numbers, as in the parser, the tracker, the input state and acquisition; a channel published 2^64 times between two steps is therefore not modelled.
- Coordinator.DaqCoordinator.ProcessFrame: whether acquisition takes the payload of an accepted DATA frame is an answer given to it, as for the XRCE receiver; `Acquisition` has the taking. A frame the parser delivers has the schema's size (`FrameGrammar.DataFits`), so the answer is always yes.
- FrameFeeding.ParsersAgree: a callback that accepts every frame; likewise `FrameFeeding.EncodedFramesAreDelivered` and `Coordinator.SentReachesBoard`. The board's handler can refuse, and its task then drops the rest of the bytes it had read. The statements for any callback reach up to the first refusal; what the two parsers do differently after it follows from their buffer sizes and is modelled for each alone.
- LogConverter.Convert: rows are the samples read, not CSV text; opening, writing and renaming files cannot fail.
- LogFormat: a name is the bytes before its NUL; doubles are their 64-bit patterns; unions are read on a little-endian machine.
- LogRecord.CutStream: records with a finite time, as the writer demands.
- DaqSchema.Build: a refused build leaves an empty schema; the fields copied before the refusal, which no caller reads, are not modelled.
- DaqSchema.DecodeInput: fields whose width is not that of their wire type, which no build lets through, are refused instead of read past their end.
- Actuation.Actuation.Pack: layouts that `DaqSchema.Build` would refuse; every schema in use comes from a build. The same holds for `Acquisition.Acquisition.Apply`.
- Numbers.SingleValue: positive and negative zero are the same number.
- Actuation.Actuation.TakeRound: the flags of the fields that hold a value are a sequence that is replaced, not an array.
- ReleaseSchedule.Schedule: starts from a step in nanoseconds; the conversion from seconds is floating point.
- Profile: YAML parsing and the checks made while loading; a profile here is its list of mappings.
- StateControl: a clock that wraps or goes back.
- The GUI, plotting, ROS control, FMU calls, the simulation loop itself, run results and the Python tools.
