# Wiremark: a verified model of record and replay

Wiremark records what a process exchanges with its peers (system calls and TLS calls captured in
the kernel), assembles the bytes of each connection, decodes HTTP and Redis (RESP2) out of them,
stores a test case, and later stands in for Redis by replaying the recorded replies. This project
models that path in Dafny and proves what it promises over every input, every trace and every
schedule.

The parts, in the order data flows through them:

- `Events`, `Layout`, `Kernel`: one captured event, its record layout on the ring, how much payload
  it carries, and the stash that carries a read's arguments from entry to exit.
- `Streamer`, `StreamerLaws`: byte streams per connection, decoded at close or at the end of the
  trace. `Correlator`, `CorrelatorLaws`, `ConnsTab`: one record per connect, its snapshots, and the
  table that shows them. `Accounting` relates the two.
- `Stages`, `Instances`, `TracePipeline`, `RecordPipeline`, `Pipelines`: the goroutines and bounded
  channels of the two commands, as a transition system with every blocking point a separate step.
- `Bytes`, `Resp`, `RespLaws`, `RespReader`, `RedisCalls`: the codec, as functions of the unread
  bytes, as laws, and as the running reader with its cursor.
- `Exchanges`, `Recorder`, `Proxy`, `Replay`, `EndToEnd`, `Schedules`: the recording, the proxy, what a
  client sees on replay against what was captured, and when the scheduling of a recording shows there.

Code that changes state step by step is modelled as classes and loops (`RespReader.Reader`,
`Streamer.Assembler` with its `ConnBufs` objects, `Correlator.Tracker` with its `Tracked` objects,
`ConnsTab.Tab`, `Proxy.Server`, the stashes in `Kernel`), each proved equal to a function; the laws
are about those functions. Byte strings are Dafny strings whose characters stand for bytes.

## What the proofs show about the code

- A reply whose display contains a line feed cannot be replayed: the proxy writes it as one line, the
  client takes the first part as the whole reply and is out of step from then on
  (`Proxy.OneValuePerReplyExactly`, `Proxy.ConnectionIsFaithfulExactly`); a value of two lines is enough
  (`EndToEnd.TwoLineValueBreaksReplay`). A trailing carriage return is lost
  (`EndToEnd.TrailingCRIsLost`). These are the only two ways a text fails to replay
  (`RespLaws.DisplayReplaysExactly`).
- Commands are matched without regard to case in keys and values as well, and by their joined text, so
  different commands can share a reply (`Replay.KeysThatDifferInCaseCollide`,
  `Replay.KeysThatJoinAlikeCollide`); the exact condition for a recording to reproduce itself is
  `Replay.RecordReplayRecordExactly`.
- `record` never receives the streamer's raw events. A trace of more than 64 events therefore hangs
  before the flush, whatever the schedule (`Pipelines.RecordingEndsExactly`), and by then the receiver
  has the exchanges of the closes among the first 64 events (`Pipelines.LongRecordingHangs`).
- The documentation of `ReadCommand` promises `io.EOF` for a connection closed between commands. That
  holds, but the error also comes up for a connection closed inside a command, in or right after a
  header line, or between two strings (`RedisCalls.EofDoesNotMeanBetweenCommands`). It means "between
  commands" if and only if the peer closed there or inside the body of a string
  (`RedisCalls.EofMeansBetweenCommandsExactly`); a cut value never reads as malformed, and the error it
  does read as is known exactly (`RespLaws.CutErrorExactly`).
- Losing the end of a command capture normally loses the last calls, but it can also gain calls, when
  what is lost held a value that is not a command (`RedisCalls.LosingTheEndCanGainACall`,
  `RedisCalls.CutCommandsExactly`).
- The recording keeps displays, not values: a captured bulk string or array never comes back in its wire
  form, and errors, integers, null bulk strings and simple strings that look like none of these do
  (`EndToEnd.CapturedReplyComesBackExactly`).
- The order in which the flush visits the connections that are still open can show on replay: two of
  them that asked the same and got different replies race for the answer
  (`Schedules.OpenConnectionsRace`, `Schedules.TwoClientsRace`). A command is answered alike from every
  recording of the same events if and only if it is never looked up, or a connection closed during the
  recording already answers it, or the open connections that answer it agree on how
  (`Schedules.RepliesAlikeExactly`). The merge of the two event sources never shows.
- An event without captured bytes, from a payload that could not be read or a write of length zero,
  still makes its connection one that is decoded (`StreamerLaws.EmptyPayloadIsTraffic`); apart from
  that, only the bytes of each stretch count (`StreamerLaws.ChunkingDoesNotMatter`).

## Model

| member | source | states |
|---|---|---|
| RespLaws.RoundTripExactly | internal/decoder/resp.go:60-143 | for every value tree and every following bytes, parsing its encoding gives the tree back and leaves exactly those bytes, if and only if line texts fit on a line and lengths fit an int |
| RespLaws.DecodeEncode | internal/decoder/resp.go:60-143 | the round trip itself, for arbitrary nesting, bulk bytes and nulls, including decimal lengths |
| RespLaws.ParsedIsWellFormed | internal/decoder/resp.go:52-109 | everything the parser produces can be encoded and read back |
| RespLaws.ParsedSize | internal/decoder/resp.go:60-109 | a successful parse consumes at least two bytes per value node, nested nodes included |
| RespLaws.StreamIsMaximal | internal/decoder/resp.go:165-180 | over a whole capture twice the nodes plus the unread bytes fit in the input, and the unread bytes start no complete value |
| RespLaws.ParseStable | internal/decoder/resp.go:60-109 | bytes arriving later never change a value already parsed, they only follow it |
| RespLaws.StreamPrefix | internal/decoder/resp.go:165-180 | the values of a truncated capture are a prefix of those of the full one |
| RespLaws.PrefixCode | internal/decoder/resp.go:60-143 | a concatenation of encodings splits in only one way |
| RespLaws.CutEncodingFails | internal/decoder/resp.go:52-109 | a strict prefix of one encoding holds no complete value |
| RespLaws.CutErrorExactly | internal/decoder/resp.go:52-109 | a value cut anywhere reads as an end of file, never as malformed; an unexpected one if and only if the cut is inside the body of a bulk string, at any depth |
| RespLaws.TruncatedCapture | internal/decoder/resp.go:165-180 | encodings followed by part of one more decode to exactly the complete ones, leaving the part |
| RespLaws.StreamNormalises | internal/decoder/resp.go:165-180 | re-encoding a decoded capture decodes to the same values with nothing left |
| RespLaws.BadLineExactly | internal/decoder/resp.go:60-108 | the parser fails as malformed having read one line if and only if that line is empty, of unknown kind, or carries a length that is no number |
| Bytes.AtoiSigned | internal/decoder/resp.go:74-96 | a length in decimal with either sign reads as that number, within the range of an int and not beyond |
| Bytes.AtoiShape | internal/decoder/resp.go:74-96 | only an optional sign and digits read as a number |
| RespLaws.WireShows | internal/decoder/resp.go:26-50 | what each kind of reply shows as, from its bytes on the wire to the text |
| RespLaws.ArrayShows | internal/decoder/resp.go:42-46 | an array shows its elements' displays in order, separated by a comma and a space, in brackets: told for no element, for one, and for two arrays put together |
| RespLaws.RecordedForms | internal/decoder/resp.go:145-163 | the wire bytes of each kind of recorded display |
| RespLaws.WireFormExactly | internal/decoder/resp.go:145-163 | a display is encoded as the wire form of a value if and only if it is that value's own display and the value is an error, an integer, a null bulk, or a simple string that looks like none of these |
| RespLaws.EncodeReplyInjective | internal/decoder/resp.go:145-163 | different displays have different wire forms |
| RespLaws.DisplayRoundTripExactly | internal/decoder/resp.go:26-50 | exactly which values get their own wire form back from their display |
| RespLaws.ReplyReads | internal/decoder/resp.go:145-163 | an encoded display without LF is one value, whatever follows, and shows as the display less trailing CRs |
| RespLaws.ReplyWithLFLeavesBytes | internal/decoder/resp.go:145-163 | with an LF inside, a shorter value is read and bytes of the reply are left over |
| RespLaws.DisplayReplaysExactly | internal/decoder/resp.go:145-163 | a display replays as itself if and only if it has no LF and no trailing CR |
| RespReader.Reader.ReadString | internal/decoder/resp.go:53-53 | reads through the first delimiter, or consumes everything and reports end of file |
| RespReader.Reader.ReadFull | internal/decoder/resp.go:82-85 | reads exactly n bytes, or consumes everything and tells an empty from a partial read |
| RespReader.ReadLineFrom | internal/decoder/resp.go:52-58 | leaves reader and result as the line function of the unread bytes says |
| RespReader.ReadValue | internal/decoder/resp.go:60-109 | the recursive parser on a shared cursor computes the parser function, errors and cursor included |
| RespReader.ReadItems | internal/decoder/resp.go:96-104 | the element loop computes the items function |
| RespReader.ParseRESPStream | internal/decoder/resp.go:165-180 | the loop returns exactly the complete values, ok when there is at least one |
| RedisCalls.ReadCommand | internal/decoder/resp.go:111-131 | reads one value and accepts only an array, leaving the cursor after it |
| RedisCalls.AnyValueAsCommand | internal/decoder/resp.go:118-131 | any value read as a command: an array gives its elements' texts, empty for nulls and nested arrays, a null array the empty command, anything else is malformed with the value consumed |
| RedisCalls.CommandReadsBack | internal/decoder/resp.go:118-131 | a command a client encoded is read as that command, whatever follows |
| RedisCalls.CommandsReadBack | internal/decoder/resp.go:118-131 | a connection's commands are read as sent, and one cut short at the end is not read |
| RedisCalls.StreamingAgreesWithBatch | internal/decoder/resp.go:118-180 | reading commands until an error gives the commands of the leading arrays of the batch decoding, for any bytes |
| RedisCalls.StreamOfArraysReadsAll | internal/decoder/resp.go:219-229 | on a stream of arrays both readings are the same list |
| RedisCalls.CutCommandError | internal/decoder/resp.go:118-131 | a command cut short fails as an unexpected end of file if and only if it is cut inside the body of a string, as a plain one everywhere else |
| RedisCalls.EofMeansBetweenCommandsExactly | internal/decoder/resp.go:111-131 | for any commands followed by part of another: closing between commands reads as `io.EOF`, and `io.EOF` means that if and only if the peer closed there or inside the body of a string |
| RedisCalls.EofDoesNotMeanBetweenCommands | internal/decoder/resp.go:111-117 | the failing case: a connection closed after an array header reports the same end of file as one closed between commands |
| RedisCalls.AdminIgnoresCase | internal/decoder/resp.go:182-197 | whether a name is administrative does not depend on its case |
| RedisCalls.AdminExactly | internal/decoder/resp.go:182-197 | exactly the names equal to one of the five setup commands up to case are administrative |
| Bytes.FoldingExactly | internal/replay/proxy.go:107-109 | both case mappings identify exactly the texts that are equal up to ASCII case |
| RedisCalls.PairedExactly | internal/decoder/resp.go:231-240 | the calls are exactly the non-empty, non-administrative commands in order, each with the display of the reply at its own original position, or "?" beyond the last reply |
| RedisCalls.TryRESP | internal/decoder/resp.go:205-242 | the loops compute the paired calls, none at all if any top-level value is not an array |
| RedisCalls.CutReplies | internal/decoder/resp.go:212-242 | losing the end of the reply capture turns exactly those replies into "?" that are not complete in what is left |
| RedisCalls.CutCommandsExactly | internal/decoder/resp.go:212-242 | losing the end of the command capture yields a prefix of the calls if and only if the full capture is all arrays, or the cut one is not, or the cut one holds no data command |
| RedisCalls.LosingTheEndCanGainACall | internal/decoder/resp.go:219-229 | the failing case: a data command followed by a value that is not an array is recorded only while that value is missing |
| Events.FdSurvivesWidening | internal/streamer/streamer.go:128-170 | every int32 descriptor is recovered from its widened id |
| Events.ConversionsWrap | internal/streamer/streamer.go:128-170 | both 32-bit conversions keep a value up to a multiple of 2 to the 32 |
| Layout.RecordReadsBack | internal/collector/collector.go:236-242 | decoding the C record gives every field back whatever the padding and trailing bytes; any shorter record is an error |
| Layout.ByteOfField | internal/collector/collector.go:39-53 | the bytes of a field are its digits in base 256, the lowest first |
| Kernel.CaptureLen | bpf/syscall.bpf.c:84-93 | clamp and mask give the smaller of the total and one less than the capacity |
| Kernel.MaskIsRemainder | bpf/syscall.bpf.c:91-91 | masking with capacity minus one is the remainder by the capacity |
| Kernel.ClampingToCapacityLosesData | bpf/syscall.bpf.c:84-91 | clamping to the capacity itself would empty a full buffer; clamping one below keeps it |
| Kernel.Submit | bpf/common.bpf.h:15-29 | a submitted event carries the given identity, none of the stale fields of its slot, and the front of the user's buffer |
| Kernel.PidMatchesExactly | bpf/syscall.bpf.c:14-20 | the check passes for exactly the threads of the traced process, whichever thread it is, and for none without a target |
| Kernel.TraceEnterWrite | bpf/syscall.bpf.c:64-97 | a write of any thread of the traced process, and of no other, is reported when a slot is free, with its thread, payload and true length |
| Kernel.TraceSslWrite | bpf/tls.bpf.c:49-73 | the same for SSL_write, identified by the SSL pointer and descriptor -1 |
| Kernel.StashHoldsOwnLastEnter | bpf/syscall.bpf.c:99-129 | under any interleaving and any fill level an entry holds the thread's own last arguments, no entry survives an exit, and the stash never exceeds its capacity |
| Kernel.EntryKeptUntilExit | bpf/syscall.bpf.c:99-129 | a thread has an entry exactly when its last probe was an entry that found room |
| Kernel.SyscallReads.TraceEnterRead | bpf/syscall.bpf.c:99-112 | stashes the arguments of any thread of the traced process that finds room, and changes nothing else |
| Kernel.SyscallReads.TraceExitRead | bpf/syscall.bpf.c:114-152 | a reported read carries the descriptor and the buffer contents of the thread's immediately preceding entry, and exactly that thread's entry is gone |
| Kernel.SslReads.TraceSslReadEnter | bpf/tls.bpf.c:76-89 | stashes the arguments of any thread of the traced process that finds room, and changes nothing else |
| Kernel.SslReads.TraceSslReadExit | bpf/tls.bpf.c:91-127 | the same for SSL_read, with the entry removed before the pid check |
| Streamer.AppendCapped | internal/streamer/streamer.go:86-95 | appending in pieces under the cap is capping the concatenation |
| Streamer.Assembler.Handle | internal/streamer/streamer.go:122-155 | one pass of the event loop over the shared buffer objects is one step on their contents, and emits what that step decodes |
| Streamer.Assembler.Flush | internal/streamer/streamer.go:157-174 | the flush decodes every remaining buffer once, in some order |
| Streamer.Run | internal/streamer/streamer.go:97-178 | passes every event through and emits the exchanges of the trace for some order of the flush |
| StreamerLaws.BuffersAreLastRun | internal/streamer/streamer.go:86-155 | after any trace a key has buffers exactly when it had traffic since its last close, holding the first 65536 bytes per direction, with the flag telling whether an event was cut |
| StreamerLaws.RunsPartition | internal/streamer/streamer.go:135-153 | a key's stretches joined together are its traffic, and there is one more of them than closes |
| StreamerLaws.DecodedExactlyOnce | internal/streamer/streamer.go:144-174 | over a whole trace decode is called exactly once for each non-empty stretch of a key, in order, at its close or at the flush |
| StreamerLaws.ClosedRunsDecoded | internal/streamer/streamer.go:144-153 | the closes decode exactly the stretches they end |
| StreamerLaws.DescriptorDecodedExactlyOnce | internal/streamer/streamer.go:125-174 | told by event fields: the reads and writes of a process on a descriptor, cut at its closes, are decoded at those closes and the rest at the flush, always with that descriptor |
| StreamerLaws.SslDecodedExactlyOnce | internal/streamer/streamer.go:129-174 | told by event fields: the reads and writes of a process through an SSL pointer are decoded together at the flush |
| StreamerLaws.TlsDecodedOnlyAtFlush | internal/streamer/streamer.go:145-170 | TLS traffic is decoded once, at the flush, with descriptor -1 |
| StreamerLaws.ChunkingDoesNotMatter | internal/streamer/streamer.go:86-174 | over two whole traces and any flush orders, a connection's calls of decode agree one by one in descriptor and bytes if and only if its non-empty stretches agree in number and in capped bytes per direction |
| StreamerLaws.SameCallsSameExchanges | internal/streamer/streamer.go:38-55 | such calls emit exchanges that differ at most in the truncation flag |
| StreamerLaws.EmptyPayloadIsTraffic | internal/streamer/streamer.go:128-174 | a connection whose only event carries no bytes is decoded at the flush, one without events is not |
| StreamerLaws.NonInterference | internal/streamer/streamer.go:122-174 | what is decoded for a key is the same on its own events alone |
| StreamerLaws.KeysNeverCollide | internal/streamer/streamer.go:62-79 | two events share a key exactly when process, kind, and descriptor or SSL pointer agree |
| StreamerLaws.FlushRecoversFd | internal/streamer/streamer.go:166-170 | the flush passes on the very descriptor of the events, or -1 |
| StreamerLaws.InterleavesExactly | internal/collector/collector.go:270-296 | the merges of the two rings are exactly the sequences whose system call events are the one and whose TLS events are the other |
| StreamerLaws.MergesLeaveSameBuffers | internal/collector/collector.go:270-296 | any two merges of the same two rings leave the same buffers |
| StreamerLaws.ClosesIgnoreTls | internal/streamer/streamer.go:126-153 | what closes decode depends on the system call ring alone |
| StreamerLaws.ScheduleDoesNotMatter | internal/collector/collector.go:270-296 | for any two merges and any two flush orders the close-time exchanges are equal, and all exchanges and all dependencies are equal as multisets |
| Correlator.Tracker.Handle | internal/correlator/correlator.go:58-97 | one pass of the event loop over the shared records is one step on their values, and emits at most one snapshot |
| Correlator.Run | internal/correlator/correlator.go:42-101 | passes every event through and emits the snapshots of the trace |
| CorrelatorLaws.ConnectionHistory | internal/correlator/correlator.go:55-97 | the snapshots numbered n are exactly the record of the nth connect followed by one per event of its lifetime |
| CorrelatorLaws.SnapshotsExactly | internal/correlator/correlator.go:55-97 | every snapshot of the nth connect, field by field: process, descriptor, endpoint, name and open time of its connect event, bytes counted so far, and closed at the time of its close event |
| CorrelatorLaws.TrajectoryExactly | internal/correlator/correlator.go:76-94 | every snapshot keeps its identity and counts the bytes so far; only the last can be closed, exactly when its event is the close |
| CorrelatorLaws.FinalCounts | internal/correlator/correlator.go:55-97 | the last snapshot counts every byte from the connect to the close or the next connect on the descriptor |
| ConnsTab.Tab.Update | internal/tui/tui.go:336-358 | updates the row of a known number in place, or appends one |
| ConnsTab.TabShowsLatest | internal/tui/tui.go:336-358 | whatever part of the stream was delivered, there is exactly one row per connection that appeared, in order of connects, showing its latest snapshot |
| ConnsTab.RowsExactly | internal/tui/tui.go:336-376 | column by column, from events to rows: the identity of the connect, the bytes written and read among the delivered events, and whether there was a close |
| Accounting.BufferedAgainstCounted | internal/correlator/correlator.go:76-88 | on a descriptor whose connects are quiet the buffered bytes never exceed the counted ones, and equal them up to the cap when nothing was cut |
| Stages.StepOnTrack | internal/streamer/streamer.go:107-175 | no step of a pass-through goroutine loses, repeats or reorders what it passes on or sends |
| Stages.OnlyHeldUp | internal/streamer/streamer.go:104-175 | such a goroutine waits only on a full channel or on an empty open input |
| TracePipeline.MoveKeepsRunning | cmd/wiremark/main.go:82-84 | every move of source, correlator, streamer and receivers preserves the run |
| TracePipeline.NeverStuck | cmd/wiremark/main.go:82-84 | no unfinished state of the tracing pipeline is stuck |
| TracePipeline.MoveProgresses | cmd/wiremark/main.go:82-84 | every move lowers the number of moves that can still follow |
| TracePipeline.EveryScheduleCompletes | cmd/wiremark/main.go:82-84 | every schedule is bounded, can be continued unless finished, and in the end delivers the sequential outputs |
| TracePipeline.ChannelsStayBounded | internal/correlator/correlator.go:48-49 | no schedule puts more than 16 exchanges, or 64 of anything else, into a channel |
| Pipelines.TracingDeliversEverything | internal/tui/tui.go:557-563 | with the real correlator and streamer the receivers end up with the trace, the snapshots and the exchanges of the sequential runs |
| RecordPipeline.EndsExactlyWhenTraceFits | cmd/wiremark/main.go:138-144 | without a receiver of raw events the end of the trace is ever noticed if and only if the trace fits in the raw channel |
| RecordPipeline.LongTraceHangs | cmd/wiremark/main.go:138-144 | with a longer trace every schedule stops with the next event in hand and the raw channel full, the receiver having exactly what the events before it gave rise to |
| Pipelines.LongRecordingHangs | cmd/wiremark/main.go:138-144 | a recording of more than 64 events never reaches the flush; where it stops, the receiver has the exchanges of the closes among the first 64 |
| RecordPipeline.ShortTraceCompletes | cmd/wiremark/main.go:138-144 | a trace that fits is recorded completely under every schedule |
| RecordPipeline.ChannelsStayBounded | internal/streamer/streamer.go:104-105 | the same for recording |
| Pipelines.RecordingEndsExactly | cmd/wiremark/main.go:138-144 | a recording reaches the flush if and only if its trace has at most 64 events |
| Pipelines.ShortRecordingDeliversExchanges | cmd/wiremark/main.go:138-144 | a short recording delivers the exchanges of the sequential run |
| Recorder.Build | internal/recorder/recorder.go:50-92 | the first HTTP exchange is under test, all Redis calls are dependencies in order, and it fails exactly without an HTTP exchange |
| Recorder.RecordedCallsAreDependencies | internal/recorder/recorder.go:77-84 | the dependencies are exactly the calls of the Redis exchanges, each of kind "redis" with its joined command and its reply |
| Recorder.DependenciesIgnoreOrder | internal/recorder/recorder.go:61-86 | reordering exchanges only reorders dependencies |
| Proxy.Server.Reply | internal/replay/proxy.go:90-114 | the search answers with the first match, the admin error or the fallback |
| Proxy.FirstRecordedAnswers | internal/replay/proxy.go:107-112 | a data command is answered by the first dependency whose request equals the joined command up to case |
| Proxy.OthersAreRefused | internal/replay/proxy.go:99-114 | the wire bytes of the three refusals: for an empty, a setup, and an unrecorded command |
| Proxy.Server.HandleConn | internal/replay/proxy.go:76-88 | writes one reply per command read, in order, until a read fails, or a write does after sending any part of its reply |
| Proxy.ServedIsAPrefix | internal/replay/proxy.go:76-88 | whatever fails, the client receives a prefix of the replies to its commands |
| Proxy.ReplyIsADisplay | internal/replay/proxy.go:99-114 | every reply is an encoded display, the error branches included |
| Proxy.OneValuePerReplyExactly | internal/replay/proxy.go:99-114 | a reply is one whole RESP value if and only if no LF gets in from the matched response or an echoed unrecorded command |
| Proxy.ConnectionStaysInStep | internal/replay/proxy.go:76-88 | without LFs the output is one value per command, in order, each showing its display |
| Proxy.ConnectionIsFaithfulExactly | internal/replay/proxy.go:76-88 | the client sees exactly the intended displays and nothing more if and only if each is safe on a line |
| Proxy.ProxyStaysInStep | internal/replay/proxy.go:76-114 | k encoded LF-free commands and part of another get exactly k values, the ith answering the ith |
| Replay.RecordedCallReplaysExactly | internal/replay/proxy.go:99-114 | a recorded call is matched, answered by the first call with its folded text, and shows its recorded reply if and only if that answer has no LF and equals it without trailing CRs |
| Replay.ConsistentRecordingReplays | internal/replay/proxy.go:99-114 | in a consistent recording a call replays as recorded if and only if its reply is safe on a line |
| Replay.RecordReplayRecordExactly | internal/decoder/resp.go:212-242 | replaying a recorded connection and recording that gives the same calls again if and only if every reply is safe on a line and no earlier call with the same folded text was answered differently |
| Replay.OrderIrrelevantExactly | internal/replay/proxy.go:107-112 | a command is answered alike from every permutation of a list of dependencies if and only if it is never looked up or all requests that match it have one response |
| Replay.SameTextSharesReply | internal/replay/proxy.go:107-112 | two data commands with one folded text are answered with the reply recorded first, so the second is not reproducible unless both replies agree |
| Replay.KeysThatDifferInCaseCollide | internal/replay/proxy.go:107-112 | the failing case: two keys that differ only in case replay with the first one's reply |
| Replay.KeysThatJoinAlikeCollide | internal/recorder/recorder.go:77-84 | the failing case: one key with a space in it replays as two keys |
| EndToEnd.ExchangesExactly | internal/streamer/streamer.go:38-55 | the exchanges of a trace are exactly what its non-empty stretches make: HTTP where the sniffer accepts, otherwise the Redis calls if there are any, with their process, descriptor and truncation flag |
| EndToEnd.RequestUnderTestExactly | internal/recorder/recorder.go:61-91 | a recording has a request under test if and only if some stretch of traffic is taken for HTTP |
| EndToEnd.SessionDecodes | internal/decoder/resp.go:205-242 | the captured bytes of a session decode into exactly its data commands and replies, also with a last reply cut |
| RespLaws.CutCaptureDecodes | internal/decoder/resp.go:165-180 | a capture that stops anywhere in a row of encodings decodes to exactly those it holds in full |
| EndToEnd.CutSessionDecodes | internal/decoder/resp.go:205-242 | bytes of a session that stop anywhere in the commands and anywhere in the replies are recorded as the complete commands paired with the complete replies |
| EndToEnd.CutSessionExactly | internal/decoder/resp.go:205-242 | against the whole session: the calls of the complete commands in order, each with its own reply if that is complete and "?" otherwise |
| EndToEnd.CapturedSessionIsRecorded | internal/streamer/streamer.go:38-55 | events that wrote any part of encoded commands and read any part of encoded replies, of any length, end up as the calls complete within the buffer cap, with their process, descriptor and truncation flag |
| EndToEnd.CapturedCallReplaysExactly | internal/replay/proxy.go:99-114 | from the events of a connection to the replayed reply: shown as recorded if and only if the first matching recorded reply survives |
| EndToEnd.CapturedReplyComesBackExactly | internal/decoder/resp.go:145-163 | for a call captured in full, the proxy sends the very bytes the server sent if and only if the first matching recorded display is the captured value's and the value keeps its wire form |
| EndToEnd.CapturedLFBreaksReplay | internal/replay/proxy.go:107-112 | any data command answered by a bulk string with an LF is captured and recorded as it was, and replayed as more than one value |
| EndToEnd.TwoLineValueBreaksReplay | internal/replay/proxy.go:107-112 | the failing case: a GET of a two-line value |
| EndToEnd.CapturedTrailingCRIsLost | internal/decoder/resp.go:52-58 | any data command answered by a bulk string that ends in a CR is recorded as it was, and replayed as a value that shows without it |
| EndToEnd.TrailingCRIsLost | internal/decoder/resp.go:52-58 | the failing case: a GET of a letter and a CR |
| Schedules.AnswerAppend | internal/replay/proxy.go:107-112 | the first match in a recording made of two parts is that of the first part, or of the second if the first has none |
| Schedules.RepliesAlikeExactly | internal/streamer/streamer.go:157-174 | over all merges and flush orders of the same two rings, a command is answered alike if and only if it is never looked up, or a closed connection answers it, or the open connections that answer it agree |
| Schedules.OpenConnectionsRace | internal/streamer/streamer.go:157-174 | the failing case: two open connections that ask any same command, each flush order replaying the reply of the one visited first |
| Schedules.TwoClientsRace | internal/streamer/streamer.go:157-174 | one trace, two flush orders, and two different replies to one GET |

## Left out

- Bytes.Lower: only ASCII letters are folded; Go also folds other letters and replaces invalid UTF-8.
- Bytes.Upper: only ASCII letters are folded, as for `Bytes.Lower`.
- RespReader.ReadValue: a declared length too large for Go to allocate panics there and reads as an error or an end of file here.
- RespReader.Reader.ReadString: the reader is over all bytes a peer sends before closing; a peer that sends nothing and stays connected is not modelled.
- Correlator.Tracker.Handle: byte counters and numbers are naturals and do not wrap at 64 bits.
- Stages.StepOnTrack: a goroutine updates its buffers when it has passed an event on, while the source updates them between the sends that follow; no other goroutine can tell.
- RecordPipeline.EndsExactlyWhenTraceFits: the trace is finite; the interrupt that ends a recording is the closing of the source.
- HTTP parsing: the HTTP sniff is an arbitrary function of the two buffers; its parser is library code.
- JSON body decoding and the YAML file: bodies are carried as bytes and recorded strings are taken to be read back unchanged.
- Loading and attaching kernel programs, sockets, subprocesses and signals: foreign calls.
- Connect and close probes, address formatting and the text form of table rows: fields copied or formatted, with no state kept.
- The listener's accept loop and its shutdown: connections share only the read-only dependencies.
- Decode and read errors of the collector's read loop: the events that arrive are the trace.
- Wall-clock conversion and process names: arbitrary functions of the event, carried through.
