# antrelay: a verified model of the relay's codecs, serial protocol and mission state machine

antrelay sits between a rover and an ant robot's central station. It frames and parses messages on a serial line,
matches acks to outstanding requests, and runs the mission: power, garage, Bluetooth connection, start and stop of the
ant. This project models those three layers in Dafny and proves what they keep.

`dafny verify dfyconfig.toml` checks everything. No member is assumed, and every method is proved against a function or
a relation whose own properties are lemmas beside it.

## How it is laid out

| file | what it holds |
|---|---|
| `Bytes.dfy` | octets, results, the growable byte buffer |
| `Delimiters.dfy` | what splitting a stream at a delimiter means, as a relation with a unique solution |
| `AllDelimiters.dfy` | the delimiter codec: the scanner with its resume index, whole streams in any chunks, round trips |
| `Cobs.dfy` | COBS encoding and decoding as functions, written from the published algorithm |
| `CobsFraming.dfy` | the serial line's codec, encoding and decoding in place, and whole streams in any chunks |
| `Crc8.dfy` | CRC-8/SMBUS as a shift register: linearity, bursts, parity, the order of the polynomial |
| `Formats.dfy` | pack/unpack pairs, how they nest, and the checksummed form |
| `Messages.dfy` | headers, sources, messages, ant packets and relays |
| `MessageMeaning.dfy` | what accepted bytes mean, in literal bytes and bits, and how the others are refused |
| `CrcCaches.dfy` | the checksummed value with its two lazily filled caches |
| `SerialLink.dfy` | pack, queue, frame, deliver, deframe, unpack |
| `CommanderTable.dfy` | the table of outstanding requests |
| `Fates.dfy` | what becomes of each request, read off the history with no table |
| `SerialHandlers.dfy` | the decoding actors and the console that acks what it reads |
| `AckProtocol.dfy` | requests, two FIFO links, the peer and the commander, stepping in any order |
| `SharedIds.dfy` | who gets which ack when requests share ids |
| `Ids.dfy` | timestamps modulo 2^32 - 1 and the wrapping counter |
| `Mission.dfy` | the mission state machine: its transition table, its tasks, and the code that runs them |
| `MissionSafety.dfy` | what every run of it keeps |
| `MissionCauses.dfy` | what every live task, every opened garage and every readiness was begun by |
| `MissionProgress.dfy` | what each event and each timer does do, and the whole way to the ant's start |
| `MissionTasks.dfy` | when a phase has the task that belongs to it, and what becomes of a machine that has lost it |
| `MissionRepeats.dfy` | what sending the same event or packet again does |

Code that works in place is modelled in place. `AllDelimiterCodec`, `CobsCodec`, `WithCrc`, `Commander`, `SeqService`
and `StateMachine` are classes whose methods are proved against functions on their abstract state; the pure parts
(formats, headers, sources) are functions and lemmas.

## What is proved

**Streams.** `IsSplit` says what a split at a delimiter is without mentioning an algorithm: the parts and the rest make
up the stream, each part is followed by the first delimiter after it, and the rest holds none. There is exactly one such
split, and the scanner finds it however the bytes arrive. It rests on the invariant that every position before
`searchFrom` already disagrees with the delimiter in some byte that has arrived. The COBS codec rests on the same split,
at a zero.

**Messages.** `WithCRC` never checksums what it received: it parses, packs the result, and checksums that. So its error
detection depends on the parser being canonical. It is, and from that follows exactly which bytes are accepted, and that
no burst of up to eight bits and no odd number of flips goes unnoticed, at any length. Where the code's strength ends is
exact too: two flips pass if and only if they are a multiple of 127 bits apart.

**Requests.** The fate of a request is a scan over the history. The table, the channels and the collector agree with it
at every moment of every run. Over that, with the peer that acks everything and requests whose ids are pairwise distinct,
every drained system has answered everyone who still listens. Without that hypothesis it is said exactly who gets which
ack: relay acks aside, the first with the id handled after the request was issued and before the id was issued again.

**Mission.** One invariant over all runs ties the live task, the phase, the queued stop, the mailbox and the log
together. From it: at most one live task, and one that fits the phase; no start of the ant without a settled connection
and an uninterrupted, accepted stop; a queued stop that is never lost. Every live task was begun by its own event, to the
instant, and the garage is only taken to be open when it was asked for. And it does go on: each event has its effect in
every reachable state, each timer acts exactly when it is due, and from every state in which the machine listens the ant
can be started in seventy seconds, which is the least that the safety law allows.

## Where the code and its promises differ

The code is modelled as it is; each of these is a lemma with a concrete input and an exact condition.

- `codec/src/all_delimiters.rs:25` says that inclusive mode discards bytes until it reads the delimiter. A non-empty
  stream that never holds a delimiter is emitted at end of stream, with a delimiter in front (`PreambleLeaks`). The
  promise holds if and only if the stream is empty or holds a delimiter (`InclusiveDiscardsPreamble`).
- `codec/src/all_delimiters.rs:294` takes "the message contains no delimiter" as what makes an exclusive round trip safe.
  With delimiter 12 12 the message 12 does not come back (`OverlapLosesMessage`). A list comes back if and only if each
  message followed by the delimiter has its first delimiter at the end of the message (`ExclusiveRoundTrip`), and
  "contains no delimiter" is enough for every message if and only if no proper prefix of the delimiter is also a suffix
  (`AbsentSuffices`).
- `README.md:168-170` says that resending a packet causes no repeat behaviour unless the state has changed in between.
  Whatever has happened since, as long as the machine is in the phase that the first copy led to, one more copy sends,
  starts and changes nothing if and only if the packet is not for the ant or the station (those are forwarded every
  time), is no ant ping (one is sent every time), asks for no garage that is not known to be open (each copy starts
  another request), is no stop that is to be queued while none is held, and no move while one is held (`CopyIsSilent`).
  Stop, move, stop is an input on which the last two matter (`RepeatedStopCounts`). For consecutive copies,
  with nothing but waits and time between them, the last two drop out (`ResendingIsSilent`; for a single event on the
  whole machine, `RepeatsAreStutters`), and phase, queue and tasks are spared by every event but the garage request
  (`RepeatsKeepTheCore`).
- A rover move takes a queued stop back (`runtime/src/state_machine.rs:222-226`), but not one that is already in the
  machine's own mailbox: that stop survives the move if and only if the mailbox is not empty (`MoveMissesTheMail`;
  `MoveOutrun` is a whole run in which the ant is then started).
- A request for a relay is never answered by its own ack: `Commander` drops relay acks in favour of the ant packet inside
  (`runtime/src/serial/commander.rs:177-184`), and the acking peer sends none. An open, drained listener waits if and
  only if its request is a relay request (`DrainedMeansAnswered`); `RelayRequestWaits` is one that does.
- Timestamps are taken modulo `u32::MAX`, not 2^32, with a remainder that is negative before the epoch and then cast
  (`message/src/mission_epoch.rs:72`). Two instants on the same side of the epoch share one exactly when they are a
  multiple of 2^32 - 1 ms apart; across it the earlier one is a millisecond off (`EpochCollides`, `EpochSlips`).

## Model

| member | source | states |
|---|---|---|
| Delimiters.SplitIsSplit | codec/src/all_delimiters.rs:124-136 | for every stream the leftmost non-overlapping split makes up the stream, each part ends at the first delimiter after it, and the rest holds no delimiter |
| Delimiters.SplitIsUnique | codec/src/all_delimiters.rs:124-136 | nothing else satisfies that description, so "the packets of a stream" is well defined |
| Delimiters.SplitExtend | codec/src/all_delimiters.rs:138-169 | bytes that arrive later extend the split of what came before and never change it |
| Delimiters.AbsentSuffices | codec/src/all_delimiters.rs:294 | "holds no delimiter" makes every message safe to terminate if and only if no proper prefix of the delimiter is also a suffix |
| AllDelimiters.DeadForever | codec/src/all_delimiters.rs:159-162 | a position that cannot start a match stays so while the caller only appends |
| AllDelimiters.AllDelimiterCodec.constructor | codec/src/all_delimiters.rs:49-64 | a new codec starts at the front with no header seen |
| AllDelimiters.AllDelimiterCodec.Find | codec/src/all_delimiters.rs:52-54 | the leftmost-longest match over all non-empty prefixes of the delimiter, or no byte equals its first byte |
| AllDelimiters.AllDelimiterCodec.MakeDecoded | codec/src/all_delimiters.rs:77-84 | the delimiter is put back in front in inclusive mode only |
| AllDelimiters.AllDelimiterCodec.Encode | codec/src/all_delimiters.rs:93-114 | fails, leaving the buffer alone, exactly for an inclusive item that does not start with the delimiter; otherwise appends the item, and the delimiter in exclusive mode |
| AllDelimiters.AllDelimiterCodec.Probe | codec/src/all_delimiters.rs:139-168 | one pass cuts off the first part of the split, or shows there is none, or moves the resume index on, and keeps every position before it dead |
| AllDelimiters.AllDelimiterCodec.Decode | codec/src/all_delimiters.rs:121-170 | returns the next part of the split of the buffer, past the preamble in inclusive mode, leaves the bytes of the remaining parts, and terminates |
| AllDelimiters.AllDelimiterCodec.DecodeEof | codec/src/all_delimiters.rs:172-193 | every branch of the end of stream: exclusive mode is decode; inclusive mode hands out what is left, or the empty last message, once |
| AllDelimiters.Drain | codec/src/all_delimiters.rs:138-170 | repeated decoding hands out exactly the parts of the split and leaves its rest |
| AllDelimiters.DrainEof | codec/src/all_delimiters.rs:172-193 | at end of stream inclusive mode emits the last message exactly once and empties the buffer; exclusive mode emits nothing and leaves the tail |
| AllDelimiters.DecodeStream | codec/src/all_delimiters.rs:121-193 | for every stream and every cutting into chunks the outputs are those of the split of the whole stream |
| AllDelimiters.EncodeStream | codec/src/all_delimiters.rs:93-114 | what a list of items puts on the wire, and exactly which lists are refused |
| AllDelimiters.ExclusiveRoundTrip | codec/src/all_delimiters.rs:290-310 | a list of messages comes back if and only if each one's first delimiter, once terminated, is its terminator |
| AllDelimiters.InclusiveRoundTrip | codec/src/all_delimiters.rs:312-331 | a list of delimiter-led messages comes back if and only if each but the last can be terminated and the last holds no delimiter |
| AllDelimiters.InclusiveConservation | codec/src/all_delimiters.rs:146-193 | for every stream that holds a delimiter each output starts with it, together they are the stream from its first delimiter on, each but the last ends where the next delimiter first occurs, and the last holds no other |
| AllDelimiters.InclusiveWithoutDelimiter | codec/src/all_delimiters.rs:172-193 | without a delimiter a non-empty stream is one message with a delimiter in front, and an empty one is none |
| AllDelimiters.ExclusiveConservation | codec/src/all_delimiters.rs:32-34 | in exclusive mode the outputs, each with its delimiter, and the tail make up the stream; each output ends at the first delimiter and the tail holds none |
| AllDelimiters.InclusiveDiscardsPreamble | codec/src/all_delimiters.rs:25-27 | the documented discarding of the preamble holds exactly for streams that are empty or hold a delimiter |
| AllDelimiters.PreambleLeaks | codec/src/all_delimiters.rs:190-192 | a stream with no delimiter comes out with one that was never sent |
| AllDelimiters.OverlapLosesMessage | codec/src/all_delimiters.rs:279-283 | with delimiter 12 12 the message 12 holds no delimiter and does not come back |
| Cobs.RoundTrip | codec/src/cobs.rs:36 | every message decodes from its frame body, and no body holds a zero |
| Cobs.EncodedLength | codec/src/cobs.rs:33-37 | a body of an n-byte message has at most n + n/254 bytes, plus one if n mod 254 > 0, and a zero-free message uses all of that |
| Cobs.SpareBlockDecodes | codec/src/cobs.rs:55 | an empty block after a full last block changes nothing |
| Cobs.FramesOf | codec/src/cobs.rs:55 | exactly which zero-free bodies decode to a message: the encoder's, and that with a spare block when the message ends on a full one |
| Cobs.FullBlockStandsAlone | codec/src/cobs.rs:36 | a zero-free message of exactly 254 bytes is one block with no code byte after it |
| Cobs.PublishedBodies | codec/src/cobs.rs:123-212 | the bodies and the decoded body that the codec's own examples give, an empty body for an empty message among them |
| CobsFraming.PutBlock | codec/src/cobs.rs:36 | writes exactly the first block of the remaining message |
| CobsFraming.StuffInto | codec/src/cobs.rs:33-36 | the in-place encoder writes exactly the body, within the space reserved |
| CobsFraming.UnstuffBlock | codec/src/cobs.rs:55 | moves one block down over the bytes it was read from and touches nothing after it |
| CobsFraming.DecodeInPlace | codec/src/cobs.rs:55-64 | decoding over the input gives the message and the two counts, fails exactly on bodies that do not decode, and never touches the terminator or what follows |
| CobsFraming.CobsCodec.Encode | codec/src/cobs.rs:30-42 | appends the body and one zero, and changes nothing before them |
| CobsFraming.CobsCodec.Decode | codec/src/cobs.rs:50-78 | asks for more without a zero; otherwise reports the first frame and, when it is valid, takes exactly it and its terminator |
| CobsFraming.CobsCodec.DecodeEof | codec/src/cobs.rs:80-86 | a missing last terminator is supplied; the report is that of the first frame, and after a valid one the rest of the closed buffer remains; the stream comes to an end |
| CobsFraming.FirstFrame | codec/src/cobs.rs:51-76 | taking frames off one by one is splitting the stream at its zeros |
| CobsFraming.DecodeStream | codec/src/cobs.rs:50-86 | for every cutting into chunks, the reports of a well-formed stream are those of its frames, in order, and those of any other stream begin with the frames before its first corrupt one |
| CobsFraming.FramesSplit | codec/src/cobs.rs:30-42 | splitting what was sent at its zeros gives back the bodies that were sent, and each decodes |
| CobsFraming.EncodeStream | codec/src/cobs.rs:30-42 | what a list of messages puts on the wire |
| CobsFraming.StreamRoundTrip | codec/src/cobs.rs:214-247 | every list of messages, empty ones included, is reported in order and nothing else is, also when the last terminator is missing |
| Crc8.ResidueIsZero | message/src/lib.rs:41 | a string followed by a byte leaves the register clear if and only if the byte is its checksum |
| Crc8.DifferenceDecides | message/src/lib.rs:41 | two strings leave the same residue if and only if their difference leaves none |
| Crc8.BurstLeavesResidue | message/src/lib.rs:41 | any non-zero error within eight consecutive bits leaves a residue, at any length |
| Crc8.OddLeavesResidue | message/src/lib.rs:41 | any odd number of flips leaves a residue, at any length |
| Crc8.PeriodIs127 | message/src/lib.rs:41 | a single set bit comes back to itself exactly at the multiples of 127 shifts |
| Crc8.TwoFlipsResidue | message/src/lib.rs:41 | two flips leave no residue if and only if they are a multiple of 127 bits apart |
| Formats.NestedFaithful | message/src/header_packet.rs:64-94 | a nested packet comes back from its bytes if both halves do |
| Formats.NestedCanonical | message/src/header_packet.rs:64-94 | accepted bytes are the packed bytes of the packet they were accepted as |
| Formats.NestedAccepts | message/src/header_packet.rs:79-94 | a nested packet is accepted exactly when there is room for the header and both halves are accepted |
| Formats.NestedFixed | message/src/header_packet.rs:53-55 | sizes add up |
| Formats.CheckedFaithful | message/src/crc.rs:119-158 | a checksummed value comes back from its bytes |
| Formats.CheckedAccepts | message/src/crc.rs:135-158 | although only the repacked value is checksummed, bytes are accepted exactly when the payload is and the last byte is the checksum of the others as received |
| Formats.CheckedCanonical | message/src/crc.rs:135-158 | accepted bytes are the packed bytes of the value |
| Formats.CheckedErrors | message/src/crc.rs:135-158 | why checked bytes are refused: none at all, as the payload is, or for the checksum |
| Formats.CorruptionRejected | message/src/crc.rs:135-158 | a burst of up to eight bits or an odd number of flips in packed bytes is always rejected, for every canonical payload of every length |
| Formats.WindowChangeRejected | message/src/crc.rs:135-158 | bytes that differ from packed ones within eight consecutive bits only are accepted if and only if they do not differ at all |
| Formats.TwoFlipsRejected | message/src/crc.rs:135-158 | two flips are accepted if and only if they are a multiple of 127 bits apart and the bytes still parse |
| Messages.CodesRoundTrip | message/src/header.rs:130-199 | destination and event codes determine their values |
| Messages.HeaderFormat | message/src/header.rs:24-38 | header pack and unpack are mutual inverses on eight bytes |
| Messages.HeaderAccepts | message/src/header.rs:24-38 | a header is accepted exactly with the magic byte, a known destination and a known event |
| Messages.SourceFormat | message/src/source_info.rs:42-72 | source pack and unpack are mutual inverses on nine bytes, the all-zero source included |
| Messages.MessageFormat | message/src/lib.rs:46-47 | messages come back from their bytes, and only packed messages are accepted |
| Messages.RelayFormat | message/src/lib.rs:49-51 | with station and ant payloads as blocks of 20 and 52 bytes, relays come back from their bytes, and only packed relays are accepted |
| Messages.MessageAccepts | message/src/crc.rs:135-158 | a message is accepted exactly with 18 bytes or more, a valid header, a source that is all zero or starts with a valid header, and the right last byte |
| MessageMeaning.HeaderFields | message/src/header.rs:27-38 | an accepted header's timestamp is its bytes 2 to 5, least significant first, its sequence number byte 6, and the top two bits of byte 7 are ack and invalid |
| MessageMeaning.HeaderDestination | message/src/header.rs:130-135 | each destination is there exactly with its literal code |
| MessageMeaning.EventMeaning | message/src/header.rs:166-203 | each of the 28 events is there exactly with its literal code |
| MessageMeaning.HeaderEvent | message/src/header.rs:141-150 | the event is that of the low six bits of byte 7 |
| MessageMeaning.MessageParts | message/src/lib.rs:43-47 | where the header, the source (none exactly when all zero), the source's checksum, the payload and the checksum of an accepted message are |
| MessageMeaning.RelayParts | message/src/lib.rs:49-51 | an accepted relay has 90 bytes: the station's twenty, then the ant's header, source, payload and checksum |
| MessageMeaning.MessageErrors | message/src/crc.rs:135-158 | a message is refused as too small exactly with fewer than 18 bytes, and as invalid otherwise |
| Messages.CommandIs | message/src/header.rs:71-85 | a command has the destination, event, timestamp and sequence number it was given, no source and no payload |
| Messages.CorruptedMessageRejected | message/src/crc.rs:135-158 | a corrupted message is rejected, for every payload length |
| Messages.WindowedMessageRejected | message/src/crc.rs:135-158 | the same for a packed message of any payload length |
| Messages.TwoPayloadFlips | message/src/crc.rs:142-155 | two flips after the headers are accepted if and only if they are a multiple of 127 bits apart |
| Messages.GoldenVector | README.md:73 | the published bytes of the "5v supplied" message are what packing gives |
| CrcCaches.WithCrc.PayloadBytes | message/src/crc.rs:66-75 | gives the packed value and fills its cache, whatever was cached before |
| CrcCaches.WithCrc.GetChecksum | message/src/crc.rs:78-91 | gives the checksum of the packed value and fills its cache |
| CrcCaches.WithCrc.PackToSlice | message/src/crc.rs:119-133 | writes the packed value and its checksum, or reports a buffer one byte too long and leaves it alone |
| CrcCaches.WithCrc.PackToVec | message/src/crc.rs:119-133 | gives the checksummed form |
| CrcCaches.WithCrc.UnpackFromSlice | message/src/crc.rs:135-158 | agrees with the pure parser on every input, with valid caches on success |
| SerialLink.Uplink | runtime/src/serial/mod.rs:95-109 | messages are packed, queued in order and framed |
| SerialLink.Downlink | runtime/src/serial/mod.rs:116-136 | what is taken off a well-formed line is what parses, in order, and the rest is dropped; off any other line it begins with what parses before the first corrupt frame |
| SerialLink.LinkDelivers | runtime/src/serial/mod.rs:95-127 | for every list of messages and every chunking of the wire, exactly those messages are accepted, in order |
| SerialLink.NoiseComesAfter | runtime/src/serial/mod.rs:95-127 | whatever bytes follow the messages on the line, corrupt frames included, all the messages are accepted first, in order |
| SerialLink.TransferThenNoise | runtime/src/serial/raw.rs:90-127 | the two ends put together deliver every message sent before the noise |
| SerialLink.Transfer | runtime/src/serial/raw.rs:90-127 | the two ends put together give back what went in |
| CommanderTable.Commander.constructor | runtime/src/serial/commander.rs:49-56 | a new commander knows no requests |
| CommanderTable.Commander.HandleRequest | runtime/src/serial/commander.rs:164-170 | opens a channel for the request and drops the sender it replaces |
| CommanderTable.Commander.Reply | runtime/src/serial/commander.rs:192-201 | removes the sender for the id and uses it; a closed listener hears nothing |
| CommanderTable.Commander.HandleAck | runtime/src/serial/commander.rs:176-202 | ignores relay acks, messages without a source, and unknown ids |
| CommanderTable.Commander.HandleAnt | runtime/src/serial/commander.rs:208-222 | ignores packets without a source and unknown ids |
| CommanderTable.Commander.CloseReceiver | runtime/src/serial/commander.rs:169 | a step of the environment: the receiver held by the handler's future goes away, and the table is left alone until the next collection |
| CommanderTable.Commander.CollectGarbage | runtime/src/serial/commander.rs:128-139 | removing the noted ids one by one removes exactly the closed ones |
| Fates.TracksNext | runtime/src/serial/commander.rs:161-223 | each event moves a request's channel and table entry just as its fate says |
| Fates.TableTracksFates | runtime/src/serial/commander.rs:127-222 | after any run every request ever made is in the table, answered, answered too late, superseded or collected, as its history says and in exactly one of these ways |
| Fates.TableHoldsPending | runtime/src/serial/commander.rs:164-167 | every table entry belongs to a request that is still pending |
| Fates.SettledForGood | runtime/src/serial/commander.rs:192-201 | a settled request stays settled whatever follows, so it is answered at most once |
| Fates.FateHasCause | runtime/src/serial/commander.rs:127-222 | an answer carries the request's id, only a later request with the same id supersedes, and an answer is too late, or a waiter collected, only after its receiver has gone |
| Fates.CorrectCorrelation | runtime/src/serial/commander.rs:98-120 | `send` succeeds exactly with an answer whose invalid bit is clear, and an answer's source has the id of the message sent |
| Fates.SendOutcome | runtime/src/serial/commander.rs:107-119 | `send` gives an answer from the station or the ant exactly as it came when its invalid bit is clear, and `InvalidAckChecksum` when it is set; a superseded request gives `RequestDropped` |
| Fates.AnswerIsDelivered | runtime/src/serial/commander.rs:186-222 | whatever its own header, an answer whose source has the id of a waiting request takes that request out of the table and is delivered as it is if the listener is there; nothing else changes |
| Fates.OthersAreIgnored | runtime/src/serial/commander.rs:177-195 | relay acks, answers without a source and answers nobody waits for change nothing |
| Fates.RequestWaits | runtime/src/serial/commander.rs:164-169 | a request waits under its id on a channel of its own, and the one it replaces is dropped |
| Fates.CollectionIsExact | runtime/src/serial/commander.rs:128-139 | a collection takes exactly the closed requests out and leaves the open ones alone |
| Fates.ClosedIsCollected | runtime/src/serial/commander.rs:128-139 | a receiver that goes away closes its own channel, and the next collection frees its id |
| Fates.DistinctNeverSuperseded | runtime/src/serial/commander.rs:166 | with pairwise distinct ids no request supersedes another, in any run |
| SerialHandlers.AtMostOneAnswer | runtime/src/serial/ant_decode.rs:53-80 | a received packet answers at most one request: a relay ack only the one in the source of the ant packet inside it, any other message only the one in its own source |
| SerialHandlers.MessageArrives | runtime/src/serial/mod.rs:51-63 | a message that is no relay ack makes the commander handle it exactly when it has a source |
| SerialHandlers.RelayArrives | runtime/src/serial/ant_decode.rs:64-79 | a relay ack that carries a packed relay makes the commander handle the ant packet inside it |
| SerialHandlers.RelayAnswers | runtime/src/serial/ant_decode.rs:64-79 | and answers exactly the request in that packet's source, with that packet |
| SerialHandlers.ReadUplink | src/bin/serial_console/main.rs:296-331 | the peer acks each packet up to the first that does not parse, and fails exactly when there is one, with its error |
| SerialHandlers.AcksAre | src/bin/serial_console/main.rs:296-331 | there are as many acks as packets before the first that does not parse, the k-th for the k-th |
| SerialHandlers.AckSays | src/bin/serial_console/main.rs:313-324 | field by field what the other end reads from the k-th ack: the packet's header marked as an ack, that header unmarked as source with the packet's last byte, and no payload |
| SerialHandlers.AckArrives | runtime/src/serial/mod.rs:116-136 | the peer's ack, packed and sent back, reaches the commander as itself and as nothing else |
| SerialHandlers.AckAnswers | src/bin/serial_console/main.rs:313-322 | the ack answers the request it acks, unless that is a relay request |
| AckProtocol.HandleStanding | runtime/src/serial/commander.rs:176-202 | with pairwise distinct ids, answering one request concerns no other |
| AckProtocol.InvReached | runtime/src/serial/commander.rs:161-203 | over every interleaving of requests with pairwise distinct ids, the queues hold, in order, all that is issued and not yet handled, and each request stands accordingly |
| AckProtocol.DrainedMeansAnswered | src/bin/serial_console/main.rs:296-330 | with pairwise distinct ids, once drained, a request whose listener is open has its own ack exactly when it is no relay request; otherwise it still waits |
| AckProtocol.AnswerIsOwnAck | runtime/src/serial/commander.rs:110-119 | that ack carries the request's own header as source, and the caller gets it exactly when the request's invalid bit was clear |
| AckProtocol.OnlyOwnAcks | runtime/src/serial/commander.rs:192-201 | with pairwise distinct ids, at no time does a listener get anything but its own request's ack |
| AckProtocol.RelayRequestWaits | runtime/src/serial/commander.rs:177-184 | a relay request whose ack has come all the way back, with nothing left on its way, still waits |
| SharedIds.SettledReached | runtime/src/serial/commander.rs:161-203 | over every interleaving of requests with any ids, every channel has what is due to it, or its listener has gone |
| SharedIds.WhoGetsWhichAck | runtime/src/serial/commander.rs:164-201 | with ids shared in any way, an open listener has exactly the first ack with its id handled after its request was issued and before the id was issued again; without one it is dropped if the id was issued again and waits if not |
| SharedIds.NeverALaterAck | runtime/src/serial/commander.rs:190-199 | the ack a request is given is its own or that of an earlier request with its id |
| SharedIds.OwnAckExactly | runtime/src/serial/commander.rs:164-199 | it is its own exactly when that is handled, it is no relay request, no ack for the id was still to come when it was issued, and the id was not issued again before its own ack was handled |
| SharedIds.AlwaysDrains | runtime/src/serial/mod.rs:95-136 | from every state of every run everything on its way can be brought home with nothing new issued |
| SharedIds.GivingUpFreesTheId | runtime/src/serial/commander.rs:127-139 | a waiting request whose caller gives up is out of the table after the next collection |
| Ids.EpochRoundTrip | message/src/mission_epoch.rs:61-75 | conversion there and back is the identity exactly from the epoch up to 2^32 - 1 ms after it |
| Ids.EpochIs | message/src/mission_epoch.rs:67-75 | the timestamp of every instant: its distance modulo 2^32 - 1, and one more before the epoch unless that is zero |
| Ids.EpochCollides | message/src/mission_epoch.rs:67-75 | exactly which two instants share a timestamp: on one side of the epoch those a multiple of 2^32 - 1 ms apart, across it those that are so once the earlier one has slipped by one |
| Ids.EpochSlips | message/src/mission_epoch.rs:72 | one millisecond before the epoch and 2^32 - 1 ms later get different timestamps |
| Ids.SeqService.Handle | runtime/src/system/seq_service.rs:27-29 | hands out the counter and advances it modulo 256 |
| Ids.Draw | runtime/src/system/seq_service.rs:27-29 | the parameters of a sequence of draws |
| Ids.IdsCollide | message/src/lib.rs:53-57 | any two draws give the same id exactly when the counter has come round and the instants share a timestamp |
| Ids.IdsAllDifferent | runtime/src/system/seq_service.rs:27-29 | within one turn of the clock all ids differ if and only if draws a multiple of 256 apart see different milliseconds |
| Ids.SupersededOnlyByOthers | runtime/src/serial/commander.rs:164-167 | in any run, with such draws used at most once each, in any order, and other requests carrying any ids: a request built from a draw is superseded only by a later one with its id that is not |
| Ids.CommandsNeverSupersede | runtime/src/serial/commander.rs:164-167 | in any run all of whose requests are built from such draws, in any order, none supersedes another |
| Ids.DrawnIdsAreDistinct | runtime/src/system/mod.rs:25-32 | messages built from different such draws, in any order, have pairwise distinct ids |
| Ids.CommandsAreDistinct | message/src/lib.rs:72-81 | commands built from different such draws, used in any order, have pairwise distinct ids |
| Ids.CommandsAreAnswered | runtime/src/serial/commander.rs:161-203 | in any run whose requests are such commands, once drained, every open listener has its own command's ack unless that asked for a relay |
| Mission.StateMachine.constructor | runtime/src/state_machine.rs:46-55 | the machine starts idle, with nothing running or queued |
| Mission.CancelledLast | runtime/src/state_machine.rs:100-108 | spawning first and cancelling what was not put back last has the effect of replacing the task, because handles are never reused |
| Mission.StateMachine.OnPowerSupplied | runtime/src/state_machine.rs:116-124 | starts pinging unless already pinging |
| Mission.StateMachine.OnGarageOpen | runtime/src/state_machine.rs:126-156 | asks for the garage unless it is open, and leaves the phase alone |
| Mission.StateMachine.OnConnect | runtime/src/state_machine.rs:160-176 | starts the settling timer unless already connected |
| Mission.StateMachine.OnRoverStop | runtime/src/state_machine.rs:178-192 | accepts a stop when ready, ignores it when running, queues it otherwise (queueing: lines 217-221) |
| Mission.StateMachine.OnRoverMove | runtime/src/state_machine.rs:194-226 | ends a run, or takes a queued stop back |
| Mission.StateMachine.OnAntPing | runtime/src/state_machine.rs:250-259 | sends a ping and waits for it, every time, and leaves the running task alone |
| Mission.StateMachine.Dispatch | runtime/src/state_machine.rs:115-270 | each arm does what the table says and leaves the handle to be cancelled |
| Mission.StateMachine.Step | runtime/src/state_machine.rs:99-283 | taking, restoring and cancelling the running task amounts to the transition table |
| Mission.StateMachine.BleTimerFired | runtime/src/state_machine.rs:162-172 | makes the machine ready and sends the queued stop on, once |
| Mission.StateMachine.AntDelayFired | runtime/src/state_machine.rs:180-188 | starts the ant and the interval, and holds the new handle |
| Mission.StateMachine.AntIntervalTicked | runtime/src/state_machine.rs:183-185 | starts the ant again |
| Mission.StateMachine.GarageRetryEnded | runtime/src/state_machine.rs:143-153 | opens the garage on success and changes nothing on failure |
| Mission.StateMachine.HandleUpCommand | runtime/src/state_machine.rs:315-329 | steps, then forwards what is for the ant or the station |
| Mission.StateMachine.HandleDownMessage | runtime/src/state_machine.rs:332-353 | steps on connects and disconnects only |
| Mission.StateMachine.HandleEventWrap | runtime/src/state_machine.rs:359-367 | steps on the first re-sent event |
| MissionSafety.InvReached | runtime/src/state_machine.rs:99-283 | the invariant of tasks, timing and queued stops holds after every sequence of events, expiries, retries, waits and passing time |
| MissionSafety.EveryStartIsSafe | runtime/src/state_machine.rs:158-192 | every ant start the machine sends comes at least 10 s after an accepted stop that no move, connect, disconnect, power or garage event has interrupted, and that acceptance at least 60 s after a connect with no reset since |
| MissionSafety.PhaseFollowsHistory | runtime/src/state_machine.rs:115-226 | in every reachable state the last power, disconnect, opened-garage or connect record decides idle, pinging, open or connected, and the machine runs exactly when a stop was accepted and nothing that ends a run has happened since |
| MissionSafety.LiveTaskIsHeld | runtime/src/state_machine.rs:99-274 | a live task is the only one, is the one held, and fits the phase |
| MissionCauses.CausedReached | runtime/src/state_machine.rs:115-226 | in every run every live task, opening and readiness has its cause |
| MissionCauses.EveryTaskHasItsCause | runtime/src/state_machine.rs:115-226 | a live task was begun by its own event, its due time is exactly 60 s or 10 s after that, and nothing since has begun another or ended it |
| MissionCauses.EveryOpeningWasAskedFor | runtime/src/state_machine.rs:126-156 | the garage is only taken to be open when a request for it was handled and nothing has replaced that task since |
| MissionCauses.EveryReadinessWasSettled | runtime/src/state_machine.rs:160-163 | the machine is only ready at least 60 s after the connect that began its timer, which nothing has replaced |
| MissionProgress.PacketTakesEffect | runtime/src/state_machine.rs:115-329 | in every reachable state, for every event, the phase a packet leads to, the one task it leaves live, the stop it leaves held, what is waited for and recorded, and whether it is forwarded |
| MissionProgress.MoveStopsTheAnt | runtime/src/state_machine.rs:194-215 | a move during a run leads to readiness and leaves exactly the request that stops the ant live |
| MissionProgress.MessageTakesEffect | runtime/src/state_machine.rs:337-352 | from the serial side connects and disconnects take effect and every other message leaves the whole machine as it is |
| MissionProgress.MailTakesEffect | runtime/src/state_machine.rs:364-366 | a re-sent stop leaves the mailbox and is accepted when ready, ignored when running and held again otherwise |
| MissionProgress.NothingWhileWaiting | runtime/src/state_machine.rs:181 | while a future is waited for, and after the exit, no event, timer or retry has any effect |
| MissionProgress.WaitsEnd | runtime/src/state_machine.rs:181 | the end of a wait ends one wait and changes nothing else |
| MissionProgress.SettlingEnds | runtime/src/state_machine.rs:162-172 | a live settling timer makes the machine ready exactly when due, held stop or not, and sends a held stop on |
| MissionProgress.DelayEnds | runtime/src/state_machine.rs:180-188 | a live delay, exactly when due, records and waits for the ant's start and leaves exactly the interval live |
| MissionProgress.IntervalStarts | runtime/src/state_machine.rs:183-185 | a tick of the live interval is another start exactly from thirty seconds after it began on |
| MissionProgress.StopRetryEnds | runtime/src/state_machine.rs:195-211 | the end of the request that stops the ant leaves nothing live and changes nothing else |
| MissionProgress.SeventySecondsAreEnough | runtime/src/state_machine.rs:158-192 | from every reachable state in which the machine listens the ant can be started exactly seventy seconds later, so the safety bound is attained |
| MissionSafety.GarageRequestOver | runtime/src/state_machine.rs:143-151 | a garage request that ends opens the garage exactly on success and leaves its dead handle exactly on failure |
| MissionTasks.PhaseHasItsTask | runtime/src/state_machine.rs:116-192 | in every reachable state, a pinging, settling or running machine has its task exactly when the garage has not been asked for since the record that brought it into that phase |
| MissionTasks.FailedRequestSticks | runtime/src/state_machine.rs:143-147 | a garage request that fails on a connected machine leaves it connected with no task |
| MissionTasks.StuckUntilFreed | runtime/src/state_machine.rs:158-160 | such a machine stays connected without a task, is never ready and never starts the ant, however often connects are reported, until power, a disconnect or another garage request is handled |
| MissionSafety.DeadForGood | runtime/src/state_machine.rs:272-274 | a task that is over or cancelled is never live again in any continuation, so its callback never runs |
| MissionSafety.QueuedStopIsNeverLost | runtime/src/state_machine.rs:217-221 | from the step that queues a stop until a move is handled or a stop accepted, the stop is held or in the mailbox and the machine does not run |
| MissionSafety.HeldStopIsOwed | runtime/src/state_machine.rs:178-226 | what is held is a stop that was queued and still stands; nothing is held when ready or running; the last rover event was then a stop |
| MissionSafety.RunFollowsGroundStop | runtime/src/state_machine.rs:162-226 | a running machine's last word from the ground was a stop, or a move handled while a re-sent stop was in the mailbox |
| MissionSafety.MoveMissesTheMail | runtime/src/state_machine.rs:222-226 | in every reachable state a stop survives a move if and only if it was in the mailbox |
| MissionSafety.MoveOutrun | runtime/src/state_machine.rs:165-171 | a run in which the ant is started although the ground's last word was a move |
| MissionRepeats.RepeatsAreStutters | runtime/src/state_machine.rs:99-283 | in every reachable state, any number of repeats of any event but a restart, at any distance in time, leaves the whole machine, what it waits for included, as the first did, if and only if the event is no ant ping and no request for a garage that is not open |
| MissionRepeats.RepeatsKeepTheCore | runtime/src/state_machine.rs:110-128 | phase, queue, held handle and tasks are as after the first if and only if the event is no request for a garage that is not open |
| MissionRepeats.ResendingIsSilent | runtime/src/state_machine.rs:315-329 | in every run, any number of consecutive copies of a packet from the ground, with nothing but waits and time between them, sends, starts and changes nothing if and only if the packet is not for the ant or the station, no ant ping, and no request for a garage that is not open |
| MissionRepeats.SilentCommand | runtime/src/state_machine.rs:315-329 | in every state that keeps the invariants, a packet has no outcome exactly when it is not forwarded, is no ping, and its event finds nothing to begin, to queue, to take back or to reset |
| MissionRepeats.CopyIsSilent | runtime/src/state_machine.rs:110-226 | whatever happened since the first copy, in the phase it led to one more copy has no outcome if and only if the packet is not for the ant or the station, no ant ping, no request for a garage that is not open, no stop to be queued while none is held, and no move while one is held |
| MissionRepeats.RepeatedStopCounts | runtime/src/state_machine.rs:217-226 | stop, move, stop with an open garage: the phase never changes and the second stop counts |

## Left out

- COBS library: the `cobs` crate is not part of the repository; encoder and decoder are written from S. Cheshire and
  M. Baker, "Consistent Overhead Byte Stuffing", IEEE/ACM Transactions on Networking 7(2), 1999, in the shape in which
  the codec uses them. An empty message has an empty body.
- CobsFraming.CobsCodec.Decode: after a frame that does not decode, the contract says only that bytes up to some zero are
  dropped, because the library decodes in place and what it has overwritten by then is not specified; nor is whether it
  reads past the terminator of such a frame.
- CobsFraming.DecodeStream: from the first corrupt frame of a stream on nothing is stated, for the same reason.
- SerialLink.Downlink: likewise.
- Aho-Corasick: the automaton is modelled by its result, as a naive leftmost-longest search.
- CrcCaches.WithCrc.PackToSlice: requires a buffer of the packed size or one byte more; any other size is an out-of-bounds
  panic in the source.
- CobsFraming.CobsCodec.Encode: the `tracing` output and the buffer's capacity are not modelled.
- Debug builds: the `DebugCSPing` event and its arm, which exist in debug builds only.
- Bit layout of `cs::Payload`, `ant::Payload` and `RealtimeStatus`: opaque blocks of 20 and 52 bytes where a format needs
  one.
- Headers other than commands: `log` and `downlink` only set other constants.
- Mission.StateMachine.AntDelayFired: the request that starts the ant is recorded as sent at the moment the callback runs;
  its retries and its answer are not followed.
- MissionSafety.InvReached: the interval may tick at any time from its period after its start on; exact spacing, backoff
  jitter and liveness depend on the runtime's timers. The pings of the ping interval are not recorded.
- FERestart: the process exits; the machine stays as it is and takes no further step.
- AckProtocol.DrainedMeansAnswered: the links are queues of packets (that bytes on the line amount to that is
  `SerialLink.LinkDelivers`) which lose and reorder nothing, and the peer acks everything. That requests built from
  draws carry distinct ids is `Ids.DrawnIdsAreDistinct`; what happens when ids are shared is `SharedIds`.
- CommanderTable.Commander.CloseReceiver: when a receiver goes away is up to the environment; that the time-out of a
  request makes it so is not shown by the source.
- Messages.RelayFormat: the station payload holds a flag, and whether its parser takes bytes other than those it packs is
  not settled by the source; the model keeps the block as it is.
- Actor plumbing: supervisors and their restarts, mailbox time-outs as times, the broker's delivery to other subscribers,
  `OverrideRegistry`.
- I/O and other programs: sockets and serial ports, `net`, the ground link with brotli and bincode, console commands and
  printing, display and logging code, option parsing, and `util`.
