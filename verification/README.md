# A model of KCP and of RapidJSON's readers, writer, big integers and regular expressions

The game server of this repository sends everything over KCP and reads and prints JSON with
RapidJSON. This project models both and proves what they promise.

**KCP** (`external/kcp/ikcp.c`) is a selective-repeat protocol over datagrams. `ControlBlock`
gives every operation as a function on the state of a control block, with 32-bit serial numbers that
wrap and are compared as in section 3.2 of RFC 1982; `Kcp` is the control block as the source has it,
an object whose queues, counters and timers change in place, each method proved to compute its
function. `Wire` is the 28-byte header with conversation and token, as the code writes it
(`external/kcp/protocol.txt` still shows the 24-byte one). `Life` runs one control block through any
calls and any input bytes. `Network` runs two over a network that may lose, duplicate, delay and
reorder every datagram ever sent, for fewer than 2^31 fragments a side. On top of these stand the
theorems about what an operation or a run means, stated without the functions of `ControlBlock` where
there is another way to say it: which bytes are taken and which refused (`Reception`), what the calls
return (`Codes`), what acknowledgements take out of the send buffer and what they count
(`Acknowledging`), when and why a segment is sent again, against an ideal life in unbounded numbers
(`Retransmission`, `Timers`), what a flush numbers and how loss and acknowledgements move the
congestion window (`Windows`, `Growth`), the round-trip estimate (`Probing`) and that what it is fed
are round trips (`Echo`), questions about a closed window and their answers (`Polling`), scheduling
(`Schedule`) and progress (`Progress`). The queues are sequences in all of these. `IntrusiveQueue` has
the linked rings of the source, rewired in place, and `SegmentQueues` ties them to the control block:
the scans over the linked send buffer and receive buffer, with their deletions, insertions and moves,
do to the segments what `ControlBlock` says of the sequences.

**RapidJSON** (`external/rapidjson-1.1.0`): `JsonText` is the lexical layer, `JsonGrammar` the two
parsers as functions, with the state and prediction table of the second, `JsonReader` the reader as
an object with a cursor. `JsonSpace`, `JsonStrings`, `JsonNumbers` and `JsonSyntax` write down the
grammar of RFC 8259 on its own, and `Utf8Form` the encoding of RFC 3629; both parsers accept exactly
the texts of that grammar and report what they hold (`JsonSyntax.AcceptsExactly`). `JsonTree` and `JsonWriter` are the writer; `Itoa` prints integers;
`BigInteger` builds integers of thousands of bits from decimal text. The regular expressions of the
schema validator (`internal/regex.h`) are compiled to an automaton and simulated: `RegexLanguage`
says which words an expression stands for, `RegexSyntax` how a pattern is read with three stacks,
`RegexPattern` that reading the text of a pattern gives its meaning, `RegexRefusal` which texts are
refused, `RegexNfa` that the automaton
accepts exactly those words, `RegexBuild` that patching, appending and cloning states builds it,
`RegexSearch` that running it on all active states at once reports what is accepted, `RegexTame`
when following its splits ends, and `Regex` is the compiler and the simulator as an object with
arrays and lists updated in place, from the text of a pattern to the answer (`Regex.MatchPattern`).

Six statements that one would expect turned out false of the code. Each has a concrete
counterexample and the exact condition under which it is true:

- Equal windows do not keep a receiver from refusing data (`Overrun.DataRefused`). A segment of the
  send buffer is refused exactly when the sender has numbered past the receive window of the peer,
  or the oldest number in flight lies more than 2^31 before its end (`Progress.RefusedIff`); while
  the receive queue has room only the second can happen, and only with a receive window above
  2^31 - 65535 (`Progress.NotRefusedWhileRoom`).
- `ikcp_update` can flush once more than (b - a) / interval + 1 times in a stretch of time
  (`Schedule.LateFlush`). It keeps to that bound exactly from instants at which no flush is overdue
  by less than an interval (`Schedule.SeldomIff`); `Schedule.FlushRate` holds in any case.
- A big integer of more than one limb shifted by a multiple of 64 is wrong
  (`BigInteger.WholeLimbShiftWrong`), except when the limbs left in place agree
  (`BigInteger.MovedExact`).
- A search does not find every match: a* is not found in b (`RegexSearch.StarMissed`). It misses what
  occurs exactly when the text is not empty, an end is not anchored, the expression matches the empty
  word, and no longer part occurs (`RegexSearch.SearchMisses`).
- A search need not end: for (a*)* the recursion over splits goes on for ever
  (`RegexTame.NestedStarLoops`). It ends exactly for expressions in which no body that is repeated
  without bound matches the empty word (`RegexTame.TameIff`).
- A repetition count that does not fit 32 bits is not always refused: some are read as their low 32
  bits (`RegexPattern.CountTooLarge`). Counts are read as what they say exactly when they fit
  (`RegexPattern.CountExact`).

Verify everything with `dafny verify dfyconfig.toml`.

## Model

| member | source | states |
|---|---|---|
| Network.EndToEnd | external/kcp/ikcp.c:359-538 | In every run of two endpoints over a network that may lose, duplicate, delay and reorder datagrams, what each side has received is a prefix of what the other side has had accepted: each message whole, once, in order |
| Network.NothingForgotten | external/kcp/ikcp.c:572-608 | In every run, a serial number that has left the send buffer has arrived at the peer; every acknowledgement queued or in flight names a number that has arrived, and no `una` in flight is ahead of the receiver |
| Network.Conservation | external/kcp/ikcp.c:1021-1048 | In every run of two endpoints, the fragments of the accepted messages are exactly those numbered so far and those queued, and what is in flight stays within the send window |
| Network.NoReceiveDeadlock | external/kcp/ikcp.c:442-464 | Whenever the receive queue is full, a whole message is at its head, a buffer of the size that ikcp_peeksize reports receives it, and it is the next message that the peer accepted |
| Progress.RefusedIff | external/kcp/ikcp.c:690-694 | In every run, some segment of the send buffer fails the comparison of the code with the end of the receive window of the peer if and only if the sender has numbered past that end, or the oldest number in flight lies more than 2^31 before it |
| Progress.NotRefusedWhileRoom | external/kcp/ikcp.c:829-831 | With a send window no larger than the receive window of the peer, while the receive queue of the peer has room: a segment of the send buffer is refused only when it lies more than 2^31 before the end of the window, and never if that window is at most 2^31 - 65535 |
| Progress.NumberedIsSent | external/kcp/ikcp.c:1026-1116 | In every run, every number that has been assigned has been sent in some datagram |
| Overrun.DataRefused | external/kcp/ikcp.c:690-694 | A run with equal windows in which a segment of the send buffer fails that comparison: the unconditional form of the property is false, because stale window announcements let the sender overtake a receive queue that is full |
| Progress.ExchangeEmpties | external/kcp/ikcp.c:961-971 | One flush with every timer expired, delivered in full, and the flush of the peer, delivered in full, empty the send buffer, when the window of the peer reaches past everything in it |
| Progress.ExchangeInRun | external/kcp/ikcp.c:1055-1087 | The same in any run, while the receive queue of the peer has room and the send window is no larger than its receive window |
| Life.AnyRunFromStart | external/kcp/ikcp.c:561-608 | Under any calls and any input bytes, across wrap-around: the send buffer is strictly increasing inside [snd_una, snd_nxt), no more than snd_wnd is in flight, the receive buffer is strictly increasing inside its window, and neither it nor the receive queue exceeds rcv_wnd |
| Life.AnyRun | external/kcp/ikcp.c:1026-1048 | The invariant of a control block holds through every sequence of calls from any state that has it |
| Life.Conservation | external/kcp/ikcp.c:1291-1294 | Under any input bytes, fragments ever accepted are those acknowledged plus ikcp_waitsnd; acknowledged are the numbers that leave the send buffer on the input of a datagram that names them |
| Life.GoneIsNamed | external/kcp/ikcp.c:572-608 | A number leaves the send buffer only on the input of a datagram with an acknowledgement of that number, or with a cumulative acknowledgement beyond it |
| Acknowledging.AcknowledgedLeaves | external/kcp/ikcp.c:572-608 | Whatever else a datagram holds and however its reading ends, a number that one of its headers acknowledges, by name or by a cumulative acknowledgement ahead of the window start and beyond it, is not in the send buffer afterwards |
| Acknowledging.OvertakenOnce | external/kcp/ikcp.c:610-633 | A segment that stays in the send buffer is counted as overtaken exactly once by a datagram that is read to its end, acknowledges a later number by name and none that was never sent, and not by any other; nothing else of it changes |
| Acknowledging.NewestIs | external/kcp/ikcp.c:805-816 | The newest acknowledgement of a datagram is one of those in it and the greatest of them, as long as they lie less than 2^31 apart |
| Life.UnaOnlyAdvances | external/kcp/ikcp.c:561-570 | Under any input bytes, over any number of calls and across wrap-around, snd_una only advances: it moves by a count of numbers, snd_nxt by the fragments numbered, and they stay apart by what is in flight |
| Life.SegmentStep | external/kcp/ikcp.c:1055-1087 | What one call does to one segment that stays in the send buffer: its timers, counters and acknowledgement skips |
| Timers.Backoff | external/kcp/ikcp.c:1055-1087 | With nodelay 0 and a clock that never goes back, the n-th timeout of a segment comes no earlier than its first sending plus rto * (2^n - 1), up to a minute below 2^31; fast retransmissions in between do not bring it forward |
| Timers.BackoffLife | external/kcp/ikcp.c:1065-1077 | The same for a segment in any stage of its life |
| Timers.FastRetransmit | external/kcp/ikcp.c:1078-1086 | Over the whole life of a segment: at most fastlimit fast retransmissions, and each paid for by `resend` input datagrams whose newest acknowledgement lay beyond the segment |
| Timers.FastSpacing | external/kcp/ikcp.c:1078-1086 | Between two fast retransmissions of a segment lie at least `resend` overtaking datagrams |
| Timers.FastLimited | external/kcp/ikcp.c:1079-1081 | A segment sent once already is fast-retransmitted at most as often as the limit still allows |
| Timers.FirstSend | external/kcp/ikcp.c:1026-1048 | Only a flush puts numbers into the send buffer, and it sends them at once with a fresh counter and timer |
| Timers.SegmentLife | external/kcp/ikcp.c:1055-1087 | The segment whose life the timer theorems follow is the one in the send buffer |
| Retransmission.WholeLife | external/kcp/ikcp.c:1055-1087 | From the flush that numbers a segment on, in every mode and as long as 32 bits can compare its counters and times: a call sends it exactly when an ideal life in unbounded numbers does, for a timeout or for enough overtakings, and its data is then in the datagrams of the call |
| Retransmission.LifeIsIdeal | external/kcp/ikcp.c:1055-1087 | The same from any stage of a life, with the timeout growing by itself, by half of itself or by half of the estimate in force as the mode says |
| Retransmission.DueIsSent | external/kcp/ikcp.c:1065-1077 | A flush no earlier than the end of the timer sends the segment, in every mode, and its timeout grows as the mode says |
| Retransmission.QuickBackoff | external/kcp/ikcp.c:1071-1074 | With nodelay 1, the n-th timeout of a segment comes no earlier than its first sending plus n waits, the first the timeout it was born with and each longer than the one before by half of itself; with a larger nodelay each is longer by half of the estimate in force |
| Schedule.CheckIsSafe | external/kcp/ikcp.c:1189-1225 | ikcp_check returns a time within one interval, before which no ikcp_update flushes and no resend timer expires |
| Schedule.CheckIsTight | external/kcp/ikcp.c:1202-1224 | At the returned time something is due, unless it is a whole interval away |
| Schedule.SeldomIff | external/kcp/ikcp.c:1152-1176 | All updates from an instant on flush at most (b - a) / interval + 1 times if and only if no flush is overdue at that instant by less than an interval |
| Schedule.FlushRate | external/kcp/ikcp.c:1152-1176 | In any case, with a clock that never goes back, n flushes within the instants a..b take more than n - 2 intervals |
| Schedule.LateFlush | external/kcp/ikcp.c:1165-1174 | A run that flushes once more than (b - a) / interval + 1, so the smaller bound is false |
| Schedule.ClockOfUpdate | external/kcp/ikcp.c:1152-1176 | An update moves the clock by the schedule that the rate theorem counts, and a flush leaves it alone |
| Growth.CongestionRun | external/kcp/ikcp.c:1122-1143 | In every run under any input bytes: ssthresh is at least 2, (cwnd - 1) * mss < incr < (cwnd + 1) * mss, and cwnd is at least 1 from the first flush on |
| Growth.GrowExact | external/kcp/ikcp.c:878-900 | Growing the window in 32 bits computes what unbounded integers would, keeps the balance of cwnd and incr, and never passes the window of the peer |
| Growth.CreepExact | external/kcp/ikcp.c:886-893 | The congestion-avoidance step does not overflow |
| Growth.ReactExact | external/kcp/ikcp.c:1122-1143 | A reaction to loss keeps the balance, leaves at least one segment and does not overflow |
| Growth.DefaultFits | external/kcp/ikcp.c:254-255 | The default mtu with 16-bit windows meets the size condition of the congestion theorems |
| Windows.FlushAdmits | external/kcp/ikcp.c:1021-1048 | A flush numbers the fragments at the front of the send queue, in order, until what is in flight fills the least of the own window, the window of the peer and, unless it is off, the congestion window, or until the queue is empty; and no more |
| Windows.FlushReacts | external/kcp/ikcp.c:1118-1143 | What a flush does to the congestion window: after a timeout one segment, and half of the window allowed as threshold; after a fast retransmission without timeout half of what is in flight as threshold, and as much more as acknowledgements overtook; otherwise nothing |
| Windows.InputGrows | external/kcp/ikcp.c:878-900 | The congestion window opens if and only if a datagram is read to its end, acknowledges something new and the window is below that of the peer: by one segment below the threshold, by the ideal step above |
| Windows.FlushCounts | external/kcp/ikcp.c:1065-1113 | A flush counts the segments that timed out, and takes the link for dead if and only if it was, or a segment it sends has been sent as often as a live link allows |
| Wire.PackRoundTrip | external/kcp/ikcp.c:909-921 | Reading the packed datagrams gives exactly the messages that were packed, in order, and each datagram has between 28 and mtu bytes and is read with code 0 |
| Wire.TakeFrontOfEncode | external/kcp/ikcp.c:764-790 | The first message of an encoding followed by anything is the message encoded |
| Wire.TakeFrontExtended | external/kcp/ikcp.c:764-790 | More bytes after a complete message do not change how it is read |
| Reception.ReadByHeader | external/kcp/ikcp.c:764-790 | What the input loop makes of any bytes that hold a header, byte by byte: -1 unless the first eight are the identifiers of the connection, else -2 if the length is negative or more than what is left, else -3 for an unknown command; otherwise it takes the message whose fields are those bytes and goes on behind it |
| Reception.ForeignRefused | external/kcp/ikcp.c:770-772 | An encoded message of another conversation or with another token, followed by anything, is refused with -1 |
| Reception.ForeignAfter | external/kcp/ikcp.c:770-772 | Messages of the connection in front of a foreign one are read all the same, in order, and the reading ends with -1 |
| Reception.RefusedUnchanged | external/kcp/ikcp.c:760-790 | ikcp_input returns -1 for too few bytes or foreign ones, -2 for a bad length, -3 for an unknown command, in that order, when its first header is so, and changes nothing |
| Reception.ForeignUnchanged | external/kcp/ikcp.c:770-772 | A datagram of another connection, or of another session, returns -1 and leaves the control block as it was |
| Echo.EchoIsHonest | external/kcp/ikcp.c:825-832 | In every run of two endpoints, every acknowledgement said or about to be said carries the number of a segment that the other side sent together with the reading of its clock at one of these sendings, so a round trip measured is one that took place |
| Codes.SendCodes | external/kcp/ikcp.c:472-532 | A message is accepted if and only if 127 segments can hold it; an accepted one joins the end of the send queue in pieces that make it up again and count down to zero, a refused one returns -2 and changes nothing |
| Codes.RecvCodes | external/kcp/ikcp.c:359-440 | In every run, receiving returns -1 if no fragment of the next message is ready, -2 if one is missing, -3 if it is longer than the room, and otherwise the message that the peer had accepted next, with its length |
| Endpoint.FlushReadBack | external/kcp/ikcp.c:935-1120 | The datagrams of a flush, read back, are the acknowledgements, probes and data segments that the flush chose, in order, with each queued acknowledgement once |
| Endpoint.FlushMsgsFit | external/kcp/ikcp.c:935-1120 | Everything that a flush says fits a datagram |
| Endpoint.InputInv | external/kcp/ikcp.c:750-903 | Input of any bytes keeps the invariant, and the numbers only advance |
| Endpoint.SendKeepsInv | external/kcp/ikcp.c:470-538 | Sending keeps the invariant |
| Endpoint.RecvKeepsInv | external/kcp/ikcp.c:359-437 | Receiving keeps the invariant |
| Endpoint.FlushInv | external/kcp/ikcp.c:935-1143 | A flush keeps the invariant |
| Endpoint.UpdateInv | external/kcp/ikcp.c:1152-1176 | An update keeps the invariant |
| Endpoint.ParseAckInv | external/kcp/ikcp.c:572-592 | Acknowledging a number keeps the invariant of the send side, and snd_una does not go back |
| Endpoint.ParseUnaInv | external/kcp/ikcp.c:594-608 | A cumulative acknowledgement keeps the invariant of the send side, and snd_una does not go back |
| Endpoint.WithoutMembers | external/kcp/ikcp.c:572-592 | The removal of a number leaves exactly the segments with another number |
| Endpoint.DropBeforeSuffix | external/kcp/ikcp.c:594-608 | A cumulative acknowledgement leaves a suffix of the send buffer |
| Endpoint.DropBeforeKeeps | external/kcp/ikcp.c:594-608 | What it drops lies before its number |
| Endpoint.InsertWindow | external/kcp/ikcp.c:696-718 | Inserting a segment keeps the receive buffer strictly increasing and free of duplicates |
| Endpoint.PromoteShape | external/kcp/ikcp.c:721-733 | Exactly the longest run of consecutive numbers from rcv_nxt that the queue has room for moves to it |
| Endpoint.ParseDataInv | external/kcp/ikcp.c:684-733 | Storing a segment keeps the receive side in order |
| Endpoint.OutWindowSize | external/kcp/ikcp.c:1021-1048 | A buffer strictly increasing inside a window holds no more than the window |
| Endpoint.FragmentsCountDown | external/kcp/ikcp.c:508-529 | The fragments of a message count down to zero and hold no more than mss bytes each |
| Network.JoinFragments | external/kcp/ikcp.c:508-529 | Joined, the fragments of a message give the message |
| ControlBlock.SoonestTimerIs | external/kcp/ikcp.c:1207-1216 | The scan of ikcp_check finds a lower bound of the times left on the resend timers |
| Schedule.SoonestAttained | external/kcp/ikcp.c:1207-1216 | Which one of the timers attains, unless it is the bound given |
| Kcp.ControlBlockObject.PeekSize | external/kcp/ikcp.c:442-464 | The size that ikcp_peeksize reports |
| Kcp.ControlBlockObject.Recv | external/kcp/ikcp.c:359-437 | Delivers, peeks or refuses as ikcp_recv, merges the fragments of the head message and moves on what has become consecutive |
| Kcp.ControlBlockObject.Send | external/kcp/ikcp.c:470-538 | Cuts and queues a message or refuses it |
| Kcp.ControlBlockObject.ShrinkBuf | external/kcp/ikcp.c:561-570 | Recomputes snd_una |
| Kcp.ControlBlockObject.ParseAck | external/kcp/ikcp.c:572-592 | The scan with its early exit is removal of the number |
| Kcp.ControlBlockObject.ParseUna | external/kcp/ikcp.c:594-608 | The scan with its early exit removes a prefix |
| Kcp.ControlBlockObject.ParseFastack | external/kcp/ikcp.c:610-632 | Every segment before the newest acknowledged number is skipped once |
| Kcp.ControlBlockObject.ParseData | external/kcp/ikcp.c:684-733 | The backward scan is sorted insertion without duplicates, followed by promotion |
| Kcp.ControlBlockObject.Input | external/kcp/ikcp.c:750-903 | Reads any bytes, applies every message up to the first bad one, and returns the code |
| Kcp.ControlBlockObject.InputLoop | external/kcp/ikcp.c:763-868 | Reads message after message until the bytes end or are bad |
| Kcp.ControlBlockObject.OpenWindow | external/kcp/ikcp.c:878-900 | The congestion window after progress |
| Kcp.ControlBlockObject.AdmitFragments | external/kcp/ikcp.c:1026-1048 | Numbers fragments while the window lets it |
| Kcp.ControlBlockObject.TouchSegment | external/kcp/ikcp.c:1055-1091 | Decides whether a segment is sent and why, and updates its timers |
| Kcp.ControlBlockObject.EmitData | external/kcp/ikcp.c:1055-1119 | Sends what is due in the send buffer, in order |
| Kcp.ControlBlockObject.ReactToLoss | external/kcp/ikcp.c:1122-1143 | The congestion window after a flush |
| Kcp.ControlBlockObject.Flush | external/kcp/ikcp.c:935-1143 | The whole flush: the datagrams and the new state |
| Kcp.ControlBlockObject.Update | external/kcp/ikcp.c:1152-1176 | Moves the clock and flushes when it is time |
| Kcp.ControlBlockObject.Check | external/kcp/ikcp.c:1189-1225 | The next time to update |
| Kcp.ControlBlockObject.WaitSnd | external/kcp/ikcp.c:1291-1294 | How many fragments wait |
| Probing.SampleBetween | external/kcp/ikcp.c:544-559 | A sample moves the smoothed round trip and its variation towards itself and never past it; the timeout stays within its limits and at least one flush interval above the round trip |
| Probing.FirstSample | external/kcp/ikcp.c:547-549 | The first sample becomes the smoothed round trip and half of it the variation; the timeout is the round trip plus the greater of the flush interval and four times the variation, within its limits |
| Probing.FirstRoundTrip | external/kcp/ikcp.c:799-802 | The first acknowledgement that a connection receives, stamped that long before now, sets the smoothed round trip |
| Probing.InputSamples | external/kcp/ikcp.c:799-802 | The estimate after a datagram is that after one sample for each acknowledgement in it whose timestamp is not in the future, in order |
| Probing.SampleExact | external/kcp/ikcp.c:550-558 | A later sample enters with a weight of an eighth, its distance from the estimate with a quarter, in the values that unbounded integers would have |
| Probing.SteadyTimeout | external/kcp/ikcp.c:544-559 | Equal samples at the smoothed round trip bring the variation to zero and the timeout to one round trip and one flush interval, within its limits |
| Probing.ProbeRun | external/kcp/ikcp.c:975-995 | In every run under any input bytes, the probe timer is off or runs for between 7 and 120 seconds, and no question is left pending after a flush |
| Probing.AsksSpaced | external/kcp/ikcp.c:975-1006 | With a clock that never goes back, the flushes that ask for the window are at least seven seconds apart |
| Polling.AskedIff | external/kcp/ikcp.c:975-1006 | A question for the window is in the datagrams of a call if and only if the call flushes, the window of the peer is closed, and the probe timer runs and has run out |
| Polling.ClosedSchedule | external/kcp/ikcp.c:975-995 | While the window stays closed, the flush that first sees it asks nothing, the first flush seven seconds later asks, and then the first flush after each wait: half as long again as the one before, up to two minutes |
| Polling.ClosedIsAsked | external/kcp/ikcp.c:975-1006 | A closed window is asked for by the first flush that comes seven seconds after one that saw it closed |
| Polling.AskedAgain | external/kcp/ikcp.c:982-989 | From one question on, a flush two minutes later comes no earlier than the next question, while the window stays closed |
| Polling.QuestionIsAnswered | external/kcp/ikcp.c:855-862 | A question that arrives is answered by a window announcement in the next flush, whatever is sent and received in between |
| Polling.ToldIff | external/kcp/ikcp.c:1008-1018 | Of two successive flushes, the second announces the window if and only if a question arrived in between or room was made in a full receive queue |
| Polling.RoomIsTold | external/kcp/ikcp.c:428-437 | Taking a message out of a full receive queue makes the next flush announce the window unasked |
| Polling.FlushTellsWindow | external/kcp/ikcp.c:926-949 | Every message of a flush carries the free places of the receive queue and the next expected number |
| Polling.InputLearns | external/kcp/ikcp.c:792 | After a datagram the window of the peer is taken to be what its last message says |
| Polling.WindowReopens | external/kcp/ikcp.c:975-1018 | A question delivered and its answer delivered leave the sender with the free window of its peer |
| IntrusiveQueue.Add | external/kcp/ikcp.h:165-167 | A node is added behind any node of a ring, and the ring stays whole |
| IntrusiveQueue.AddTail | external/kcp/ikcp.h:169-171 | A node is added at the end of a ring |
| IntrusiveQueue.Del | external/kcp/ikcp.h:175-178 | A node is taken out of a ring, and the others close it |
| IntrusiveQueue.RemovedInserted | external/kcp/ikcp.h:165-178 | What is deleted after it has been added leaves the ring as it was |
| IntrusiveQueue.MoveFirst | external/kcp/ikcp.c:1030-1033 | The first node of one ring goes to the end of another; both stay whole |
| IntrusiveQueue.EmptyIs | external/kcp/ikcp.h:183 | The test for emptiness holds exactly of a head that is alone |
| IntrusiveQueue.Count | external/kcp/ikcp.h:193-196 | Following the references from the head visits every node once |
| SegmentQueues.SendBuffer.ParseUna | external/kcp/ikcp.c:594-608 | On the linked send buffer: the scan from the front, which deletes nodes while it follows them, leaves what the cumulative acknowledgement of the control block leaves |
| SegmentQueues.SendBuffer.ParseAck | external/kcp/ikcp.c:572-592 | The same for the scan for one number with its early exit |
| SegmentQueues.ReceiveQueues.ParseData | external/kcp/ikcp.c:684-733 | On the linked receive buffer and queue: the backward scan, the insertion behind the node where it stops and the moves to the queue do what the control block does with a segment |
| SegmentQueues.ReceiveQueues.MoveAvailable | external/kcp/ikcp.c:721-733 | The moves alone |
| SegmentQueues.ReceiveQueues.FindPlace | external/kcp/ikcp.c:696-706 | The backward scan finds the node behind which a number belongs, or that the number is there |
| JsonGrammar.ParsersAgree | external/rapidjson-1.1.0/include/rapidjson/reader.h:1482-1854 | For every text and every set of flags, the recursive parser and the table-driven parser accept the same texts, leave the same rest, and report the same events with the same counts |
| JsonGrammar.ValueAgrees | external/rapidjson-1.1.0/include/rapidjson/reader.h:1649-1797 | From any state that expects a value, the automaton does on a value what the recursive parser does, and resumes where its stack says |
| JsonGrammar.MembersAgree | external/rapidjson-1.1.0/include/rapidjson/reader.h:589-654 | The same for the members of an object, from any member on |
| JsonGrammar.ElementsAgree | external/rapidjson-1.1.0/include/rapidjson/reader.h:657-702 | The same for the elements of an array |
| JsonSyntax.AcceptsExactly | external/rapidjson-1.1.0/include/rapidjson/reader.h:484-522 | Both parsers accept exactly the texts of the grammar of RFC 8259, with comments and trailing commas where the flags allow them and no double that is too big, and report exactly the values, keys and 32-bit counts that such a text holds |
| JsonSyntax.ReadsDoc | external/rapidjson-1.1.0/include/rapidjson/reader.h:1391-1403 | Every value of the grammar, before anything that cannot continue a number, is accepted with its events and that rest |
| JsonSyntax.DocIs | external/rapidjson-1.1.0/include/rapidjson/reader.h:1391-1403 | Whatever is accepted as a value is a value of the grammar followed by the rest that is left, and what is reported is its events |
| JsonSyntax.ReadsMembers | external/rapidjson-1.1.0/include/rapidjson/reader.h:589-654 | Members of an object are read from any name on, with the keys, values and the count that they have |
| JsonSyntax.ReadsElements | external/rapidjson-1.1.0/include/rapidjson/reader.h:657-702 | Elements of an array are read from any element on, with the values and the count that they have |
| JsonSpace.SkipsGap | external/rapidjson-1.1.0/include/rapidjson/reader.h:560-586 | Blanks and, where they are allowed, block comments and line comments are skipped up to the next token |
| JsonSpace.GapIs | external/rapidjson-1.1.0/include/rapidjson/reader.h:560-586 | What the reader skips is a sequence of these, and what it stops at is a token or the end |
| JsonStrings.ReadsString | external/rapidjson-1.1.0/include/rapidjson/reader.h:840-905 | Every string of section 7 of RFC 8259 is read to its closing quote, as the bytes that its characters and escapes stand for |
| JsonStrings.StringIsItems | external/rapidjson-1.1.0/include/rapidjson/reader.h:840-905 | Whatever is read as a string is one of that grammar, and its bytes are those that the grammar says |
| JsonStrings.EscapeIsRead | external/rapidjson-1.1.0/include/rapidjson/reader.h:863-882 | The escape of every character of Unicode, in digits of either case and as a pair of surrogates where it needs two, is reported as the shortest UTF-8 form of that character |
| JsonNumbers.ReadsNumeral | external/rapidjson-1.1.0/include/rapidjson/reader.h:1133-1387 | Every number of section 6 of RFC 8259 is read to its end |
| JsonNumbers.NumberIsNumeral | external/rapidjson-1.1.0/include/rapidjson/reader.h:1133-1387 | Whatever is read as a number is one of that grammar, followed by the rest that is left |
| JsonNumbers.ClassifyMeans | external/rapidjson-1.1.0/include/rapidjson/reader.h:1330-1387 | An integer that fits 64 bits is reported by its value in the first of four types that holds it, any other number by its text; only such a one can be refused, for its size |
| Utf8Form.Utf8Decodes | external/rapidjson-1.1.0/include/rapidjson/encodings.h:103-122 | Decoding what is written for a code point, by the bit layout of section 3 of RFC 3629, gives that code point, whatever follows, and the form is the shortest |
| Utf8Form.Utf8Only | external/rapidjson-1.1.0/include/rapidjson/encodings.h:103-122 | No other bytes of the shortest length decode to the code point |
| Utf8Form.Utf8WellFormed | external/rapidjson-1.1.0/include/rapidjson/encodings.h:103-122 | The form is one of the byte ranges of section 4 of RFC 3629 if and only if the code point is no surrogate |
| JsonReader.BothParse | external/rapidjson-1.1.0/include/rapidjson/reader.h:484-522 | Two readers of the same text, one of each kind, end with the same events, the same verdict and, if they accept, at the same position |
| JsonReader.Reader.Parse | external/rapidjson-1.1.0/include/rapidjson/reader.h:484-522 | The recursive parse of a whole text |
| JsonReader.Reader.IterativeParse | external/rapidjson-1.1.0/include/rapidjson/reader.h:1822-1854 | The table-driven parse of a whole text |
| JsonReader.Reader.SkipWhitespaceAndComments | external/rapidjson-1.1.0/include/rapidjson/reader.h:560-585 | White space and both kinds of comment |
| JsonReader.Reader.ParseObject | external/rapidjson-1.1.0/include/rapidjson/reader.h:589-654 | An object: events, count and errors |
| JsonReader.Reader.ParseArray | external/rapidjson-1.1.0/include/rapidjson/reader.h:657-702 | An array: events, count and errors |
| JsonReader.Reader.ParseName | external/rapidjson-1.1.0/include/rapidjson/reader.h:705-740 | The literal names |
| JsonReader.Reader.ParseHex4 | external/rapidjson-1.1.0/include/rapidjson/reader.h:755-772 | Four hexadecimal digits |
| JsonReader.Reader.ParseUnicode | external/rapidjson-1.1.0/include/rapidjson/reader.h:865-880 | A \u escape, with surrogate pairs |
| JsonReader.Reader.ParseStringToStream | external/rapidjson-1.1.0/include/rapidjson/reader.h:840-905 | The characters of a string, unescaped |
| JsonReader.Reader.ParseNumber | external/rapidjson-1.1.0/include/rapidjson/reader.h:1133-1387 | A number of any length: the exact integer and its kind, or a double literal |
| JsonReader.Reader.ScanInteger | external/rapidjson-1.1.0/include/rapidjson/reader.h:1157-1229 | The digits before the point, without overflow in the 32-bit and 64-bit loops |
| JsonReader.Reader.ParseValue | external/rapidjson-1.1.0/include/rapidjson/reader.h:1392-1402 | Any value |
| JsonReader.Reader.TransitTo | external/rapidjson-1.1.0/include/rapidjson/reader.h:1649-1797 | One transition of the automaton |
| JsonTree.WriteRead | external/rapidjson-1.1.0/include/rapidjson/writer.h:172-235 | Writing any tree of null, booleans, integers, byte strings, arrays and objects is permitted at every step and completes; reading the text gives back the same events, integers equal by value |
| JsonTree.WritesValue | external/rapidjson-1.1.0/include/rapidjson/writer.h:437-455 | The level stack puts every comma and colon where the tree needs it |
| JsonTree.PermitsValue | external/rapidjson-1.1.0/include/rapidjson/writer.h:437-455 | No assertion of the writer fails on a tree |
| JsonTree.ReadsValue | external/rapidjson-1.1.0/include/rapidjson/reader.h:589-702 | Reading the text of a tree before any text that ends a value gives its events and that rest |
| JsonTree.CharsOfEscaped | external/rapidjson-1.1.0/include/rapidjson/reader.h:840-905 | Unescaping undoes escaping, for every byte string |
| JsonTree.EscapedIs | external/rapidjson-1.1.0/include/rapidjson/writer.h:345-413 | The writer escapes exactly the bytes that a string may not hold, with the short escape if there is one and four upper-case digits otherwise |
| JsonWriter.Writer.WriteString | external/rapidjson-1.1.0/include/rapidjson/writer.h:345-416 | The escaped text of a string, through the escape table |
| JsonWriter.Writer.Prefix | external/rapidjson-1.1.0/include/rapidjson/writer.h:437-455 | The comma or colon before a value |
| JsonWriter.Writer.Int | external/rapidjson-1.1.0/include/rapidjson/writer.h:174 | A signed integer |
| JsonWriter.Writer.Uint64 | external/rapidjson-1.1.0/include/rapidjson/writer.h:177 | An unsigned integer |
| JsonWriter.Writer.Key | external/rapidjson-1.1.0/include/rapidjson/writer.h:210 | A member name |
| JsonWriter.Writer.StartObject | external/rapidjson-1.1.0/include/rapidjson/writer.h:204-208 | Opens an object |
| JsonWriter.Writer.EndObject | external/rapidjson-1.1.0/include/rapidjson/writer.h:212-218 | Closes an object |
| JsonWriter.Writer.StartArray | external/rapidjson-1.1.0/include/rapidjson/writer.h:220-224 | Opens an array |
| JsonWriter.Writer.EndArray | external/rapidjson-1.1.0/include/rapidjson/writer.h:226-232 | Closes an array |
| Itoa.NumberOfDigits | external/rapidjson-1.1.0/include/rapidjson/reader.h:1371-1383 | The canonical literal of an integer of any length is read exactly, as the narrowest kind that holds it, if and only if it fits 64 bits |
| Itoa.DigitsRead | external/rapidjson-1.1.0/include/rapidjson/internal/itoa.h:39-111 | The decimal digits of a number denote it, without a leading zero |
| Itoa.DigitsSplit | external/rapidjson-1.1.0/include/rapidjson/internal/itoa.h:123-289 | The digits of a number are those of its quotient by a power of ten and the padded ones of its remainder |
| Itoa.U32ToA | external/rapidjson-1.1.0/include/rapidjson/internal/itoa.h:39-111 | 32-bit numbers printed as their canonical digits, at the place given in the buffer |
| Itoa.I32ToA | external/rapidjson-1.1.0/include/rapidjson/internal/itoa.h:113-121 | Signed 32-bit numbers, the least one included printed as their canonical digits, at the place given in the buffer |
| Itoa.U64ToA | external/rapidjson-1.1.0/include/rapidjson/internal/itoa.h:123-289 | 64-bit numbers printed as their canonical digits, at the place given in the buffer |
| Itoa.I64ToA | external/rapidjson-1.1.0/include/rapidjson/internal/itoa.h:291-299 | Signed 64-bit numbers, the least one included printed as their canonical digits, at the place given in the buffer |
| BigInteger.MulAdd64 | external/rapidjson-1.1.0/include/rapidjson/internal/biginteger.h:249-277 | The portable double-word product: high * 2^64 + low is exactly a * b + k |
| BigInteger.Big.FromDecimal | external/rapidjson-1.1.0/include/rapidjson/internal/biginteger.h:40-53 | Any string of digits for which the source stays inside its buffer is held exactly |
| BigInteger.Big.DigitsFit | external/rapidjson-1.1.0/include/rapidjson/internal/biginteger.h:279-280 | That is so for up to 19 digits for each limb of the buffer but one: 7885 digits |
| BigInteger.Big.AppendDecimal64 | external/rapidjson-1.1.0/include/rapidjson/internal/biginteger.h:224-232 | Appending n digits multiplies by 10^n and adds them |
| BigInteger.Big.AddU64 | external/rapidjson-1.1.0/include/rapidjson/internal/biginteger.h:70-85 | Exact addition with its carry chain |
| BigInteger.Big.MulU64 | external/rapidjson-1.1.0/include/rapidjson/internal/biginteger.h:87-103 | Exact multiplication by a 64-bit number |
| BigInteger.Big.MulU32 | external/rapidjson-1.1.0/include/rapidjson/internal/biginteger.h:105-126 | Exact multiplication by a 32-bit number through half words |
| BigInteger.Big.ShiftLeft | external/rapidjson-1.1.0/include/rapidjson/internal/biginteger.h:128-152 | Exact multiplication by a power of two for every shift that is not a multiple of 64, and for every shift of a single limb; the limbs left by the others |
| BigInteger.MovedExact | external/rapidjson-1.1.0/include/rapidjson/internal/biginteger.h:134-139 | A shift of more than one limb by whole limbs is exact if and only if the limbs it leaves in place are those that belong there |
| BigInteger.WholeLimbShiftWrong | external/rapidjson-1.1.0/include/rapidjson/internal/biginteger.h:134-139 | A number that such a shift makes wrong |
| BigInteger.Big.MultiplyPow5 | external/rapidjson-1.1.0/include/rapidjson/internal/biginteger.h:162-182 | Exact multiplication by 5^n through 5^27, 5^13 and a table |
| BigInteger.ShiftedValue | external/rapidjson-1.1.0/include/rapidjson/internal/biginteger.h:140-150 | The limbs of a shift within a limb denote the product by the power of two |
| Regex.MatchPattern | external/rapidjson-1.1.0/include/rapidjson/internal/regex.h:106-114 | Matching the text of any pattern of the supported syntax against any text answers whether the whole text is a word of the language that the pattern stands for |
| Regex.SearchPattern | external/rapidjson-1.1.0/include/rapidjson/internal/regex.h:116-124 | Searching answers whether a part of the text, at the ends that are anchored, is such a word, and not an empty one unless the text is empty |
| RegexPattern.CompileText | external/rapidjson-1.1.0/include/rapidjson/internal/regex.h:202-319 | Reading the text of a pattern, with groups, classes, escapes, alternatives and counted repetitions, gives the expression it stands for and its anchors |
| RegexPattern.CountExact | external/rapidjson-1.1.0/include/rapidjson/internal/regex.h:485-497 | A repetition count is read as what it says if and only if it fits 32 bits |
| RegexPattern.CountTooLarge | external/rapidjson-1.1.0/include/rapidjson/internal/regex.h:490-494 | One whose digits but the last fit is refused if and only if that last digit is above five, and otherwise read as its low 32 bits |
| RegexPattern.EscapesRead | external/rapidjson-1.1.0/include/rapidjson/internal/regex.h:577-604 | A backslash and a character are read as one character, alone or in a class, exactly as a table of nineteen says; in a class, the letter b besides |
| RegexRefusal.UnopenedRefused | external/rapidjson-1.1.0/include/rapidjson/internal/regex.h:235-244 | After any pattern, a parenthesis that closes nothing makes the pattern invalid, whatever follows |
| RegexRefusal.UnclosedRefused | external/rapidjson-1.1.0/include/rapidjson/internal/regex.h:311-313 | A parenthesis that is opened before any pattern and not closed makes it invalid |
| RegexRefusal.NothingRefused | external/rapidjson-1.1.0/include/rapidjson/internal/regex.h:222-228 | An empty pattern, an empty group and an alternative that lacks its first or its second half are invalid |
| RegexRefusal.NothingToRepeat | external/rapidjson-1.1.0/include/rapidjson/internal/regex.h:246-281 | A pattern that begins with a quantifier is invalid |
| RegexRefusal.ClassRefused | external/rapidjson-1.1.0/include/rapidjson/internal/regex.h:499-567 | A class in which nothing stands, and one that is not closed, are invalid |
| RegexRefusal.ReversedRefused | external/rapidjson-1.1.0/include/rapidjson/internal/regex.h:261-281 | A repetition whose lower bound is above its upper bound is invalid, whatever follows |
| RegexRefusal.ZeroTimesRefused | external/rapidjson-1.1.0/include/rapidjson/internal/regex.h:261-281 | A repetition of zero times is invalid, whatever follows |
| RegexRefusal.UnclosedBraceRefused | external/rapidjson-1.1.0/include/rapidjson/internal/regex.h:261-281 | A brace without a number, and one that is not closed after its number, are invalid |
| RegexLanguage.ExpandMeans | external/rapidjson-1.1.0/include/rapidjson/internal/regex.h:429-466 | The expansion of a counted repetition from n to m contains exactly the words made of n to m words of the body |
| RegexNfa.CompiledAccepts | external/rapidjson-1.1.0/include/rapidjson/internal/regex.h:375-427 | The automaton of an expression accepts exactly the words of its language |
| RegexNfa.MatchRangeIs | external/rapidjson-1.1.0/include/rapidjson/internal/regex.h:661-670 | Walking a list of ranges decides whether a character is in the class |
| RegexTame.TameIff | external/rapidjson-1.1.0/include/rapidjson/internal/regex.h:646-659 | The recursion over splits ends, from the start and after every character, if and only if no body that is repeated without bound matches the empty word |
| RegexTame.NestedStarLoops | external/rapidjson-1.1.0/include/rapidjson/internal/regex.h:646-659 | For (a*)* it does not end |
| RegexSearch.ReportedOccurs | external/rapidjson-1.1.0/include/rapidjson/internal/regex.h:606-639 | What the simulation reports, with its early exit and its restarts, is that a part of the text is accepted |
| RegexSearch.SearchMisses | external/rapidjson-1.1.0/include/rapidjson/internal/regex.h:606-639 | A search misses what occurs if and only if the text is not empty, an end is not anchored, the expression matches the empty word and no longer part occurs |
| RegexSearch.StarMissed | external/rapidjson-1.1.0/include/rapidjson/internal/regex.h:606-639 | A search for a* in b finds nothing |
| RegexSearch.DistinctFit | external/rapidjson-1.1.0/include/rapidjson/internal/regex.h:654-656 | The lists of active states hold no state twice, so that they fit the space reserved for them |
| Regex.Machine.constructor | external/rapidjson-1.1.0/include/rapidjson/internal/regex.h:88-95 | A pattern is valid exactly when it is read to the end with one operand left, and the automaton is then that of its meaning |
| Regex.Machine.Parse | external/rapidjson-1.1.0/include/rapidjson/internal/regex.h:202-338 | The loop over the pattern with its three stacks computes the reading of the pattern |
| Regex.Machine.Patch | external/rapidjson-1.1.0/include/rapidjson/internal/regex.h:368-373 | All linked states are made to lead to one state |
| Regex.Machine.Append | external/rapidjson-1.1.0/include/rapidjson/internal/regex.h:360-366 | The last of the linked states is made to lead to another list |
| Regex.Machine.Eval | external/rapidjson-1.1.0/include/rapidjson/internal/regex.h:375-427 | An operator turns the fragments of its operands into the fragment of the result |
| Regex.Machine.EvalQuantifier | external/rapidjson-1.1.0/include/rapidjson/internal/regex.h:429-466 | A counted repetition is built by cloning and concatenating |
| Regex.Machine.CloneTopOperand | external/rapidjson-1.1.0/include/rapidjson/internal/regex.h:470-483 | The clone of the topmost operand is the same expression on new states |
| Regex.Machine.ParseUnsigned | external/rapidjson-1.1.0/include/rapidjson/internal/regex.h:485-497 | A count in 32 bits, with its overflow test |
| Regex.Machine.ParseRange | external/rapidjson-1.1.0/include/rapidjson/internal/regex.h:499-568 | A class becomes a list of ranges that means it |
| Regex.Machine.CharacterEscape | external/rapidjson-1.1.0/include/rapidjson/internal/regex.h:577-604 | The escapes |
| Regex.Machine.InRanges | external/rapidjson-1.1.0/include/rapidjson/internal/regex.h:661-670 | The loop over a list of ranges |
| Regex.Machine.AddState | external/rapidjson-1.1.0/include/rapidjson/internal/regex.h:645-659 | Adds the states reached through splits to the list, each once, and says whether the matching state is among them |
| Regex.Machine.StepStates | external/rapidjson-1.1.0/include/rapidjson/internal/regex.h:617-636 | One character moves all active states, with the early exit |
| Regex.Machine.SearchWithAnchoring | external/rapidjson-1.1.0/include/rapidjson/internal/regex.h:606-639 | The whole simulation |
| Regex.Machine.Match | external/rapidjson-1.1.0/include/rapidjson/internal/regex.h:106-114 | A match of the whole text |
| Regex.Machine.Search | external/rapidjson-1.1.0/include/rapidjson/internal/regex.h:116-124 | A search |

## Left out

KCP:

- Stream mode, in which ikcp_send extends the last queued segment.
- Failing memory allocation, logging, and the code under `#if 0` and IKCP_FASTACK_CONSERVE.
- The setters in the middle of a run: mtu, windows and modes are fixed before the first call.
- The growth of the memory blocks behind the acknowledgement list, which is a sequence here, and the memory of segments.
- The pointers of the queues inside the control block: Kcp keeps sequences. SegmentQueues has them for the scans of the send buffer and the receive side; admission to the send buffer, which also fills in the fields of a segment, and the counters that a scan updates in the nodes it passes are modelled on sequences only.
- The splicing macros of the queues, which ikcp.c does not use.
- Probing.SampleBetween: round trips and estimates below 2^28 milliseconds, where nothing wraps.
- The fields of a segment that nothing reads, and the sending of a null buffer.
- The length INT_MIN in ikcp_recv, whose negation overflows in C.
- Signed overflow in the round-trip estimate wraps here; in C it is undefined.
- Probing.FirstSample: the same bound.
- Reception.RefusedUnchanged: fewer than 2^31 bytes, beyond which the length of the source is negative.
- Acknowledging.AcknowledgedLeaves: a cumulative acknowledgement that lies less than 2^31 ahead of the first unacknowledged number; from further away the comparison of the code depends on what else has left.
- Acknowledging.OvertakenOnce: the acknowledgements of the datagram lie less than 2^31 apart, as otherwise they have no newest.
- Retransmission.WholeLife: the ideal life is followed as long as 32 bits can compare its counters and times.
- Retransmission.QuickBackoff: the bound stops at 2^30 milliseconds.
- Polling.ClosedSchedule: flushes come less than 2^31 milliseconds after the timer runs out, so that 32 bits can compare the times.
- Network.EndToEnd: fewer than 2^31 fragments are accepted on each side of a run.
- Progress.ExchangeEmpties: the receive window of the peer is at most 2^31 - 65535.
- Timers.Backoff: the bound stops a minute below 2^31, where a deadline may wrap past the comparison.
- Timers.FastLimited: fewer than 2^31 calls, after which the transmission counter wraps.
- Growth.CongestionRun: a window's worth of bytes fits 32 bits, and there are fewer than 2^32 - 1 calls, after which the counter of skips wraps.

RapidJSON:

- Floating point: a number with a fraction or an exponent is reported by its literal, and whether it is too big is a parameter.
- Encodings other than UTF-8, their validation, in-situ parsing, vector instructions and allocators.
- A handler that stops the parse.
- The writer's doubles and raw values.
- JsonReader.Reader.ParseNumber: whether a number is too big is asked once, of the complete literal.
- JsonSyntax.AcceptsExactly: the flag for NaN and infinities is off, and the whole text is read; with the flag that stops after the root, JsonSyntax.ReadsDoc and JsonSyntax.DocIs say what the root is.
- JsonStrings.EscapeIsRead: the escape of a low surrogate without a high one before it is accepted, as in the code, and written like any code point of three bytes, which is not UTF-8.
- JSON pointers, schemas, documents.
- The NaN branch accepts NInf and NaInf as the code does: a failed attempt at NaN has already taken its characters.
- BigInteger.Big.FromDecimal: a decimal for which the source writes past its buffer, because each shift uses one limb beyond the number; up to 7885 digits never do.
- BigInteger comparison and difference.

Regular expressions:

- Regex.Machine.Match: expressions in which a body that is repeated without bound matches the empty word, for which a search need not end; so for Search.
- RegexPattern.CompileText: counts of 2^32 - 1 and above, of which the first stands for no bound and the others wrap or are refused.
- The decoding of UTF-8: a pattern and a text are sequences of code points.
- The words of the bit set of states, which is an array of booleans, and the memory for 2^32 states.
- The assertions on the operand stack: where one would fail, the pattern counts as invalid.
- The printing of an automaton.
