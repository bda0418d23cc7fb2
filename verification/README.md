# Feedback, sequence, task and codec logic, modelled and proved in Dafny

The repository is a pair of real-time media programs, a receiver and a sender. The receiver tells the sender which RTP
packets arrived, and when, in transport-wide congestion control feedback
(draft-holmer-rmcat-transport-wide-cc-extensions-01). This project models that feedback codec, the server loop around it
and the utilities beside it, and proves what they promise, or exactly when they keep it.

Each component is given twice: as functions on values, about which the theorems are stated, and, where the source changes
state in place, as a class or a method over arrays whose contract ties the new state to those functions. Lemmas whose names
end in `Exactly`, `Iff`, `Written` or `Read` say in plain numbers and bytes what branches are taken, where thresholds lie and
how things are laid out, without those functions' own helpers.

- `Bytes`, `SeqOrder`: integer widths, network byte order, the order on 16-bit sequence numbers.
- `Chunks`, `ChunkCodec`: packet status chunks and their 16-bit words.
- `FeedbackEncoder`: the online compressor, against a plain list of missing and arrived packets.
- `FeedbackWire`, `FeedbackRoundTrip`: serialisation, parsing, the reports rebuilt from a packet.
- `FeedbackRuns`, `FeedbackLimits`: runs of AddPacket end to end; where its guards bind and where they do not.
- `FeedbackPacket`: the class FeedbackRtpTransportPacket.
- `GccServer`, `GccServerClass`: the loop that rolls from one feedback packet to the next, over whole runs.
- `CompoundPackets`: splitting a datagram into packets.
- `RateWindow`, `RateStatisticsClass`: a sliding window over a list of samples, and the ring of buckets that implements it.
- `SeqRenumbering`, `SeqManagerClass`: closing a stream up over dropped packets in 8, 16 or 32 bits, against unbounded
  integers; the width is a constant without a value, so every proof holds for each.
- `Nack`, `NackPacket`: generic NACK items and packets (section 6.2.1 of RFC 4585), and the REMB bitrate loop.
- `TaskThread`, `TaskThreadClass`: a worker with immediate and deferred tasks, over all interleavings.
- `RtpExtensions`, `RtpWire`, `RtpPacketClass`: RTP header extensions (RFC 5285), RTX (RFC 4588), payload shifts, in place.
- `UrlCoding`, `Base64`: percent-coding (section 2.1 of RFC 3986) and Base64 (section 4 of RFC 4648).

Every lemma is marked `{:induction false}`: inductive steps are written out. `hide` keeps definitions a proof does not use
away from it.

Where the code does something else than its comments or callers suggest, the model follows the code and the project says
exactly when:

- The guard on missing packets compares plain integers, so it does not bind when the 16-bit number wraps; a longer run is
  then cut to 13 bits and the packet reports something else (`FeedbackLimits.GuardExact`, `FeedbackLimits.GuardMissesWrap`,
  `FeedbackRuns.EndToEnd`).
- A run of received packets is never split, so under a limit of 8216 bytes or more it is cut in the same way
  (`FeedbackEncoder.StepReceivedFits`, `FeedbackLimits.LongRunLost`); the server's limit is 1400.
- A base timestamp below 64 ms, and any arrival stamped zero, is taken for no base at all (`FeedbackRuns.BaseIsSetIff`,
  `FeedbackRuns.BaseSurvivesIff`, `FeedbackLimits.BaseSetAgain`).
- The size check reserves one chunk and two bytes of delta, but a step may write four chunks: the finished packet stays
  within the limit exactly when what its step wrote does (`FeedbackLimits.StaysWithinIff`), and may end 8 bytes above it
  (`FeedbackLimits.SizeBoundReached`).
- The server copies the finished packet into a datagram of 1400 bytes, the same number as its limit, so the packet fits
  exactly when the size its last step made does (`GccServer.WholeRun`, `GccServerClass.IntactIff`); one lost packet behind
  1376 in order is enough for four bytes too many (`GccServer.DatagramOverruns`).
- The result of the second AddPacket in the server is ignored (`GccServer.RetryRecordsIff`).
- Rate moves the window for good, which an enlarged window can observe (`RateWindow.RateInvisibleIff`).
- A late input below a dropped one makes SeqManager forget that drop and repeat a number
  (`SeqRenumbering.InputRightIff`, `SeqRenumbering.LateInputRepeatsNumber`).
- The worker releases its lock between its last look at the queue and the final drain, so DO_ALL_DONE leaves behind exactly
  the immediate tasks added in between, and whatever is added later (`TaskThread.FinishedRunsExactly`,
  `TaskThread.AddedTooLate`).
- The receiver gives NACK packets type 205, the sender expects 207 (`receiver/rtc/rtc_common.hpp:42`,
  `sender/rtc/rtc_common.hpp:42`); the model uses the receiver's.

## Model

| member | source | states |
|---|---|---|
| `FeedbackRuns.EndToEnd` | receiver/gcc_server/FeedbackRtpTransport.cpp:194-373 | For every run of AddPacket calls after a base timestamp of 64 ms or more that sets no other base, under every limit of at least 20: Serialize writes exactly GetSize bytes, at most the limit plus 8, and parsing them reports every sequence number from base to latest once and in order, received exactly where recorded, with its exact delta and arrival time, if and only if every recorded gap fits a 13-bit run, so does every stretch of equal statuses while it is pending, and the number of statuses fits the 16-bit count |
| `FeedbackRuns.PacketDeliversIff` | receiver/gcc_server/FeedbackRtpTransport.cpp:92-182 | The same for any packet that tracks a history, the server's included, whatever its size |
| `FeedbackRuns.RunInvariant` | receiver/gcc_server/FeedbackRtpTransport.cpp:261-342 | Every run that keeps its base, however long, with whatever gaps and under whatever limit, keeps the packet the one its history of recorded arrivals makes, and within the limit plus 8 |
| `FeedbackRuns.StepInStep` | receiver/gcc_server/FeedbackRtpTransport.cpp:261-342 | The same for one call that does not set a base |
| `FeedbackRuns.HistorySound` | receiver/gcc_server/FeedbackRtpTransport.cpp:395-542 | Whatever the counts, wrapped ones included, the context, size and count laws hold of the encoder any history leaves behind, and its deltas are those of the arrivals |
| `FeedbackRuns.HistoryRefines` | receiver/gcc_server/FeedbackRtpTransport.cpp:395-542 | While its statuses number at most 65535, the encoder a history leaves behind stands for exactly that history's missing and received packets |
| `FeedbackRuns.GapsFitIff` | receiver/gcc_server/FeedbackRtpTransport.cpp:402-438 | The runs of missing packets written fit 13 bits exactly when every gap of the history did, less what tops up the pending vector |
| `FeedbackRuns.PendingFitsIff` | receiver/gcc_server/FeedbackRtpTransport.cpp:445-542 | The runs of received packets, written or pending, fit 13 bits exactly when the pending list never held more than 8191 statuses |
| `FeedbackRuns.ShortGapsFit` | receiver/gcc_server/FeedbackRtpTransport.cpp:402-438 | Gaps of at most 8191 always fit |
| `FeedbackRuns.HistoryHeard` | receiver/gcc_server/FeedbackRtpTransport.cpp:346-373 | Reading a history's entries from its base gives each arrival its own sequence number, the exact time since the one before, and its timestamp less the multiple of 2^29 ms that the 24-bit reference time drops |
| `FeedbackRuns.BaseIsSetIff` | receiver/gcc_server/FeedbackRtpTransport.cpp:267-275 | The first call leaves a base behind exactly when its timestamp is at least 64 ms; below that the next call behaves as the first |
| `FeedbackRuns.BaseSurvivesIff` | receiver/gcc_server/FeedbackRtpTransport.cpp:267-339 | A base, once set, survives a run exactly when no arrival recorded before the last call of the run was stamped zero |
| `FeedbackLimits.BaseSetAgain` | receiver/gcc_server/FeedbackRtpTransport.cpp:267-339 | An arrival stamped zero is recorded with delta -256, and the next call sets another base while that delta stays in the packet |
| `FeedbackRuns.AddPacketTracks` | receiver/gcc_server/FeedbackRtpTransport.cpp:261-342 | A call sets a base exactly when the latest recorded timestamp is zero; otherwise it leaves the packet exactly as it was or appends exactly the arrival it was given |
| `FeedbackRuns.LateIgnoredIff` | receiver/gcc_server/FeedbackRtpTransport.cpp:277-283 | Once a base is set, a call succeeds without changing anything exactly when its number is at or behind the latest one on the circle of 65536 (half-way counts as behind when numerically higher); a recorded number never is |
| `FeedbackRuns.AddPacketExactly` | receiver/gcc_server/FeedbackRtpTransport.cpp:277-342 | What every call does once a base is set, in numbers: late, ignored; more than 8192 above the latest number or more than 8191 ms away, fatal; four more bytes, padded, beyond the limit, refused; else number, time and delta are recorded and everything else is kept |
| `FeedbackRuns.BaseExactly` | receiver/gcc_server/FeedbackRtpTransport.cpp:267-275 | The call that sets a base: the next number, bits 6 to 28 of the timestamp, the time rounded down to 64 ms, nothing recorded |
| `FeedbackRuns.RunsAhead` | receiver/gcc_server/FeedbackRtpTransport.cpp:277-342 | In the history of every run that keeps its base each number lies ahead of the one before by at most half the circle, so no gap exceeds 32767 and nothing late is reported |
| `FeedbackEncoder.FillChunkRefines` | receiver/gcc_server/FeedbackRtpTransport.cpp:395-499 | After every step, the expanded chunks followed by the pending statuses are the old ones, then the missing packets, then the received one with its small or large delta; context, size and count laws are kept: equal pending statuses when allSameStatus, and at least seven pending only then |
| `FeedbackEncoder.FlushFinishes` | receiver/gcc_server/FeedbackRtpTransport.cpp:528-542 | Finish loses nothing, leaves only the last vector chunk short of seven symbols, and is idempotent |
| `FeedbackEncoder.StepMissingRunsFit` | receiver/gcc_server/FeedbackRtpTransport.cpp:402-438 | A step keeps every run of missing packets within 13 bits exactly when the one it emits after topping up the pending vector fits |
| `FeedbackEncoder.StepReceivedFits` | receiver/gcc_server/FeedbackRtpTransport.cpp:402-499 | A step keeps received runs within 13 bits, written or pending, exactly when the pending list stays that short: FillChunk never splits it |
| `FeedbackEncoder.ExactGrowth` | receiver/gcc_server/FeedbackRtpTransport.cpp:395-542 | Exactly what a step and a Finish after it add to the size: the delta and one chunk, one more for a long run closed by a gap or a new status, one for a pending list topped up to seven, one for the missing packets left over |
| `FeedbackEncoder.FillChunkSound` | receiver/gcc_server/FeedbackRtpTransport.cpp:395-499 | Every step keeps the laws that hold whatever the counts: context, size and count accounting, serialisable chunks, a delta for every received packet pending |
| `FeedbackEncoder.PendingBound` | receiver/gcc_server/FeedbackRtpTransport.cpp:470-499 | A pending list of seven or more has cost at least one delta byte for each of its packets |
| `FeedbackEncoder.FillChunkRunsEnd` | receiver/gcc_server/FeedbackRtpTransport.cpp:395-499 | Every run of missing packets is followed by a received one, in the chunks or in what is pending |
| `FeedbackRoundTrip.DecodeEncode` | receiver/gcc_server/FeedbackRtpTransport.cpp:92-244 | A finished packet whose runs fit 13 bits parses back field by field and reports its entries |
| `FeedbackRoundTrip.ReportsIffRunsFit` | receiver/gcc_server/FeedbackRtpTransport.cpp:92-244 | The bytes of a finished packet report its entries exactly when no run exceeds 13 bits, of missing packets or of received ones |
| `FeedbackRoundTrip.LongRunMisread` | receiver/gcc_server/FeedbackRtpTransport.cpp:589-652 | A chunk list with a longer run of missing packets is never read back with the same received flags: the cut run brings the received packet behind it too early |
| `FeedbackRoundTrip.ReportsReceivedFit` | receiver/gcc_server/FeedbackRtpTransport.cpp:589-652 | No bytes report their entries if a run of received packets was cut: it loses at least 8192 of them, and with the right deltas only padding is left to be misread as one more chunk, worth 8191 at most |
| `FeedbackRoundTrip.FinishedFitsLengthField` | receiver/gcc_server/FeedbackRtpTransport.cpp:194-244 | A packet with at most 65535 statuses never outgrows the 16-bit length field |
| `FeedbackRoundTrip.EncodeFrame` | receiver/gcc_server/FeedbackRtpTransport.cpp:194-244 | Serialize writes GetSize bytes, a multiple of four; the length field declares them, and each fixed field is where the parser looks for it |
| `FeedbackRoundTrip.FixedFieldsWritten` | receiver/gcc_server/FeedbackRtpTransport.cpp:194-215 | The fixed fields byte by byte (0x8F, 205, length, SSRCs, base, status count, 24-bit reference time, feedback count), and the size rounded up to four |
| `FeedbackRoundTrip.BodyWritten` | receiver/gcc_server/FeedbackRtpTransport.cpp:216-244 | Behind them a big-endian word for each chunk, in order, then the deltas, then zeros |
| `FeedbackRoundTrip.DeltaWritten` | receiver/gcc_server/FeedbackRtpTransport.cpp:222-231 | A delta of 0 to 255 is small and one byte, every other one large and a two-byte two's complement |
| `FeedbackRoundTrip.FixedFieldsRead` | receiver/gcc_server/FeedbackRtpTransport.cpp:96-118 | What the parser takes bytes 2 to 19 of any accepted packet for; the reference time is signed |
| `FeedbackRoundTrip.QuartersRounded` | receiver/gcc_server/FeedbackRtpTransport.cpp:366-366 | A delta's whole milliseconds are rounded towards zero |
| `FeedbackRoundTrip.DecodeSound` | receiver/gcc_server/FeedbackRtpTransport.cpp:92-182 | Any bytes the parser accepts, if their statuses were counted without wrapping 16 bits, give exactly one result per announced status, numbered from the base, and the deltas consumed are exactly those of the received ones |
| `FeedbackRoundTrip.ParseChunksCovers` | receiver/gcc_server/FeedbackRtpTransport.cpp:131-161 | The chunks read cover the announced count modulo 2^16 and nothing behind them has been touched |
| `FeedbackWire.ParseChunksOfBytes` | receiver/gcc_server/FeedbackRtpTransport.cpp:131-161 | Closed chunk lists with 13-bit runs are read back from their words, and reading stops right behind them |
| `FeedbackWire.ReadChunkDeltasFlat` | receiver/gcc_server/FeedbackRtpTransport.cpp:163-181 | The chunk-by-chunk delta loop, early stop included, reads one delta per received status exactly when reading the expanded statuses one by one succeeds, and then reads the same deltas |
| `FeedbackWire.ReadDeltasOfLog` | receiver/gcc_server/FeedbackRtpTransport.cpp:595-629 | Deltas written as one or two bytes are read back against their statuses |
| `Chunks.ChunkRoundTrip` | receiver/gcc_server/FeedbackRtpTransport.cpp:544-587 | A chunk the encoder produces is read back from its 16-bit word unchanged exactly when its run fits 13 bits |
| `Chunks.VectorRoundTrip` | receiver/gcc_server/FeedbackRtpTransport.cpp:763-771 | A two-bit vector of up to seven symbols comes back when it is full or closes the packet |
| `Chunks.WordRead` | receiver/gcc_server/FeedbackRtpTransport.cpp:544-587 | What any 16-bit word is read as, bit by bit: run with status and 13-bit length, refused for the reserved status; fourteen one-bit or seven two-bit symbols from the highest bit on, no more than are still expected |
| `FeedbackLimits.GuardExact` | receiver/gcc_server/FeedbackRtpTransport.cpp:285-293 | The guard on missing packets stops a gap beyond 8191 exactly when the sequence number has not wrapped since the latest one |
| `FeedbackLimits.UnwrappedGapsFit` | receiver/gcc_server/FeedbackRtpTransport.cpp:285-293 | So a run whose recorded sequence numbers never wrap has gaps of at most 8191, and as many statuses as lie between its base and its latest number |
| `FeedbackLimits.UnwrappedDelivers` | receiver/gcc_server/FeedbackRtpTransport.cpp:194-373 | Such a run delivers, whatever its length, exactly when no stretch of equal statuses outgrows a 13-bit run while pending; under every limit below 8216 it always delivers |
| `FeedbackLimits.LongRunLost` | receiver/gcc_server/FeedbackRtpTransport.cpp:470-542 | Under every limit from 8216 on, 8192 packets in order make one run whose count is cut to 0, and the packet does not deliver them |
| `FeedbackLimits.RunsWritten` | receiver/gcc_server/FeedbackRtpTransport.cpp:470-542 | Up to 8191 packets in order become one run; broken after seven or more it is written at once and what broke it goes into a vector; broken earlier it shares a vector with it |
| `FeedbackLimits.StaysWithinIff` | receiver/gcc_server/FeedbackRtpTransport.cpp:313-332 | The packet finished after a recorded call stays within the limit exactly when its delta and the chunks its step really writes do, padded to four bytes |
| `FeedbackLimits.OneChunkStaysWithin` | receiver/gcc_server/FeedbackRtpTransport.cpp:313-332 | A step that writes one chunk never takes the finished packet above the limit; it takes two to exceed it |
| `FeedbackLimits.FinishedSizeExact` | receiver/gcc_server/FeedbackRtpTransport.cpp:194-244 | The size of a finished packet from the step of its last arrival |
| `FeedbackLimits.GuardMissesWrap` | receiver/gcc_server/FeedbackRtpTransport.cpp:285-293 | Across a wrap 15535 missing packets are recorded, and the finished packet does not deliver its history |
| `FeedbackLimits.StatusCountExact` | receiver/gcc_server/FeedbackRtpTransport.hpp:187-193 | The 16-bit status count is the number of statuses exactly while that number fits 16 bits |
| `FeedbackLimits.SizeBoundReached` | receiver/gcc_server/FeedbackRtpTransport.cpp:313-332 | For every limit from 32 on that is a multiple of four, a run that finishes with exactly the limit plus 8 |
| `SeqOrder.HigherIsHalfCircleAhead` | receiver/gcc_server/SeqManager.cpp:11-16 | Higher means at most 32767 ahead on the number circle, or exactly half-way and numerically lower |
| `SeqOrder.OrderTrichotomy` | receiver/gcc_server/SeqManager.cpp:5-16 | Two sequence numbers of any width are equal or ordered one way, never both |
| `FeedbackPacket.FeedbackRtpTransportPacket.AddPacket` | receiver/gcc_server/FeedbackRtpTransport.cpp:261-342 | Result and every field are those of the run model, through base, ignore, both fatal, oversize and record branches; `AddPacketExactly` and `BaseExactly` say in numbers what these are |
| `FeedbackPacket.FeedbackRtpTransportPacket.FillChunk` | receiver/gcc_server/FeedbackRtpTransport.cpp:395-499 | The fields after the in-place compressor are those of the encoder function that refines the status list |
| `FeedbackPacket.FeedbackRtpTransportPacket.Finish` | receiver/gcc_server/FeedbackRtpTransport.cpp:344-344 | Pending statuses become one chunk |
| `FeedbackPacket.FeedbackRtpTransportPacket.Serialize` | receiver/gcc_server/FeedbackRtpTransport.cpp:194-244 | The buffer holds exactly the encoded packet up to the returned offset, with GetSize in its length field, and is untouched behind it |
| `FeedbackPacket.FeedbackRtpTransportPacket.FromBytes` | sender/gcc_server/FeedbackRtpTransport.cpp:92-182 | The parsing constructor refuses a packet that declares more bytes than there are, else accepts exactly what the decoder function accepts of the declared bytes and fills the fields from it |
| `FeedbackPacket.FeedbackRtpTransportPacket.GetPacketResults` | sender/gcc_server/FeedbackRtpTransport.cpp:346-373 | The two loops give one result per status, with deltas and accumulated times on the received ones, or nothing exactly where the source throws: fewer deltas than received statuses |
| `FeedbackPacket.FeedbackRtpTransportPacket.GetPacketFractionLost` | receiver/gcc_server/FeedbackRtpTransport.cpp:375-393 | The share of packets not received, in 256ths rounded down, with 255 for all, while 16 bits hold the counts; wrapped counts give what the 16-bit arithmetic makes of them |
| `FeedbackPacket.FillResults` | receiver/gcc_server/FeedbackRtpTransport.cpp:642-652 | A chunk's statuses, numbered on from the current sequence number modulo 2^16 |
| `FeedbackPacket.StampResults` | receiver/gcc_server/FeedbackRtpTransport.cpp:357-372 | Each received result takes the next delta and advances the clock by its whole milliseconds, until a delta is missing |
| `FeedbackPacket.ReadChunks` | receiver/gcc_server/FeedbackRtpTransport.cpp:131-161 | The chunk loop of the parsing constructor |
| `FeedbackPacket.ReadAllDeltas` | receiver/gcc_server/FeedbackRtpTransport.cpp:163-181 | The delta loop of the parsing constructor |
| `ChunkCodec.SerializeChunk` | receiver/gcc_server/FeedbackRtpTransport.cpp:654-664 | The loop over two-bit symbols writes the chunk's word |
| `ChunkCodec.ParseChunkWord` | receiver/gcc_server/FeedbackRtpTransport.cpp:544-587 | Chunk type, symbol size and the symbol loops read a chunk from its word, or refuse it |
| `ChunkCodec.AddRunDeltas` | receiver/gcc_server/FeedbackRtpTransport.cpp:595-629 | A run's deltas, or refusal when the bytes run out |
| `ChunkCodec.AddOneBitDeltas` | receiver/gcc_server/FeedbackRtpTransport.cpp:676-703 | A one-bit vector's deltas |
| `ChunkCodec.AddTwoBitDeltas` | receiver/gcc_server/FeedbackRtpTransport.cpp:773-810 | A two-bit vector's deltas |
| `GccServer.WholeRun` | receiver/gcc_server/gcc_server.cpp:80-156 | Over every run with clocks from 64 ms on: the k-th feedback packet sent carries k modulo 256, resets included, is exactly as long as its last step made it, fits its 1400-byte datagram exactly when that is no more, and parsed back reports exactly its own history if and only if its gaps and status count fit; within every epoch between resets the packets sent and the open one are adjacent (each starts where the one before ended) and together list every recorded arrival once and in order |
| `GccServer.UnwrappedRunDelivers` | receiver/gcc_server/gcc_server.cpp:80-156 | A run whose recorded sequence numbers never wrap has every packet it sends deliver its history |
| `GccServer.DatagramOverruns` | receiver/gcc_server/gcc_server.cpp:120-137 | 1376 packets in order, one lost and two more: the packet sent then has 1404 bytes, four more than the datagram's buffer holds |
| `GccServer.StepKeeps` | receiver/gcc_server/gcc_server.cpp:80-118 | Every received packet keeps that invariant, through sending, retry and reset |
| `GccServer.SendsIff` | receiver/gcc_server/gcc_server.cpp:84-118 | Over every reachable state: when there is no room, the packet so far is sent without the new arrival; after any other successful call, an ignored one included, it is sent exactly when the statuses written in chunks number at least 65528 modulo 2^16; a fatal call sends nothing and leaves a blank packet with the same count; the count goes up by one, modulo 256, exactly with each packet sent |
| `GccServer.BranchesIff` | receiver/gcc_server/gcc_server.cpp:80-118 | Which arrivals are recorded and which end an epoch, in numbers: by distance on the circle, 8192 numbers, 8191 ms, and the room left in 1400 bytes |
| `GccServer.RetryRecordsIff` | receiver/gcc_server/gcc_server.cpp:93-102 | The retry after a full packet, whose result is ignored, records the arrival exactly when it is at most 8191 ms after the passed-on base; otherwise it is lost |
| `GccServer.RecordedMatches` | receiver/gcc_server/gcc_server.cpp:80-118 | What the histories list is, epoch by epoch, what the branches taken recorded between resets |
| `GccServer.SuccessorOpens` | receiver/gcc_server/gcc_server.cpp:144-157 | The packet that follows a sent one starts at the number and time where that one ended, the time floored to 64 ms, and carries the next count |
| `GccServerClass.GCCServer.RtpHandler` | receiver/gcc_server/gcc_server.cpp:77-119 | The fields after the handler are those of the state machine, for which `SendsIff` and `BranchesIff` say in numbers when it sends, records and starts over; every datagram handed to the socket stays that of its packet, or an overrun of the 1400-byte buffer |
| `GccServerClass.GCCServer.SendTransportCcFeedback` | receiver/gcc_server/gcc_server.cpp:120-157 | Sends and replaces the packet, or does nothing when it holds no delta; the datagram is the packet's bytes exactly when they fit its buffer |
| `GccServerClass.CopyOut` | receiver/gcc_server/FeedbackRtpTransport.cpp:246-259 | The copy into the datagram holds the serialised bytes, or is marked as an overrun exactly when there are more than 1400 |
| `GccServerClass.IntactIff` | receiver/gcc_server/gcc_server.cpp:132-137 | A datagram is intact exactly when the size its packet's last step made is at most 1400 |
| `CompoundPackets.CompoundIsHomomorphic` | receiver/gcc_server/Packet.cpp:29-86 | Parsing a concatenation of packets gives each packet's own parse, in order, and goes on with what follows |
| `CompoundPackets.CompoundSound` | receiver/gcc_server/Packet.cpp:36-83 | Any datagram is cut into acceptable packets and a rest no packet can be taken from; the result lists exactly those packets |
| `CompoundPackets.PiecesUnique` | receiver/gcc_server/Packet.cpp:36-83 | There is only one such way to cut it |
| `CompoundPackets.PieceExactly` | receiver/gcc_server/Packet.hpp:48-62 | The bytes that are one acceptable packet: version 2, message type 15, packet type 205, a length field that declares them, at least 20, and contents the feedback parser accepts |
| `CompoundPackets.NothingReadBehind` | receiver/gcc_server/Packet.cpp:42-47 | Behind a whole packet that is refused nothing is looked at |
| `CompoundPackets.DatagramsParseBack` | receiver/gcc_server/Packet.cpp:29-86 | The datagrams of a server, laid end to end, parse into exactly the packets it sent, each delivering its own history, when its gaps, status count and size fit |
| `CompoundPackets.Parse` | receiver/gcc_server/Packet.cpp:29-86 | The loop returns one accepted object per packet found, holding that packet's fields |
| `RateWindow.RateInvisibleIff` | receiver/libwebrtc/libwebrtc/rtc_base/rate_statistics.cc:77-92 | The header promises that Rate alters nothing a monotonic clock can observe; that holds exactly when the window is empty, the call does not reach past its start, or it already has its maximum size (it fails when the window is enlarged later) |
| `RateWindow.ProbesInvisible` | receiver/libwebrtc/libwebrtc/rtc_base/rate_statistics.cc:77-92 | With non-decreasing timestamps and no enlargement, any number of Rate calls inserted anywhere changes no other result |
| `RateWindow.RateInvisible` | receiver/libwebrtc/libwebrtc/rtc_base/rate_statistics.cc:77-92 | A Rate call is invisible to whatever never looks behind the window it looked at |
| `RateWindow.RateReports` | receiver/libwebrtc/libwebrtc/rtc_base/rate_statistics.cc:45-125 | After any calls with a clock that never goes back, resizes and resets included, Rate reports, in terms of the calls alone, the total of the counts of the Update calls from the start of the window on and the time since, if there are two of them, or one in a full window, and the time is more than one millisecond |
| `RateWindow.RateOfPlainRun` | receiver/libwebrtc/libwebrtc/rtc_base/rate_statistics.cc:55-92 | Without resize or reset: the total of the updates with now - max < time <= now, spread over the time since the very first update, at most max |
| `RateWindow.OperationsKeepOk` | receiver/libwebrtc/libwebrtc/rtc_base/rate_statistics.cc:55-125 | No operation lets a sample lie outside the ring, and a started window stays started |
| `RateStatisticsClass.DropOldest` | receiver/libwebrtc/libwebrtc/rtc_base/rate_statistics.cc:105-113 | Dropping the oldest bucket moves the window by a millisecond and never takes more from the totals than they hold |
| `RateStatisticsClass.JumpAhead` | receiver/libwebrtc/libwebrtc/rtc_base/rate_statistics.cc:104-115 | Once no sample is left the window may jump without turning the ring |
| `RateStatisticsClass.AddSample` | receiver/libwebrtc/libwebrtc/rtc_base/rate_statistics.cc:67-74 | A sample put in its bucket is counted at its own time and in the totals |
| `RateStatisticsClass.RateStatistics.Update` | receiver/libwebrtc/libwebrtc/rtc_base/rate_statistics.cc:55-75 | Every bucket and both totals agree with the list of accepted samples afterwards; too old samples are ignored, no index leaves the ring |
| `RateStatisticsClass.RateStatistics.EraseOld` | receiver/libwebrtc/libwebrtc/rtc_base/rate_statistics.cc:94-116 | The window is advanced, never moved back, and the ring agrees with it |
| `RateStatisticsClass.RateStatistics.Rate` | receiver/libwebrtc/libwebrtc/rtc_base/rate_statistics.cc:77-92 | The answer is that of the window model, which `RateReports` and `RateOfPlainRun` state in terms of the calls made; the window is advanced and nothing else changes |
| `RateStatisticsClass.RateStatistics.SetWindowSize` | receiver/libwebrtc/libwebrtc/rtc_base/rate_statistics.cc:118-125 | Refused sizes change nothing; others are in force at once |
| `RateStatisticsClass.RateStatistics.Reset` | receiver/libwebrtc/libwebrtc/rtc_base/rate_statistics.cc:45-53 | Back to the state after construction |
| `SeqRenumbering.InputRightIff` | receiver/gcc_server/SeqManager.cpp:56-101 | Input gives the unbounded answer, however its tree searches end, exactly when no dropped input waits above the one presented (one right above it is harmless in the lower half of the number range) |
| `SeqRenumbering.InputRight` | receiver/gcc_server/SeqManager.cpp:56-101 | Then it returns false exactly for a dropped input and otherwise the input shifted and closed up over all drops below it, forgotten ones included; pruning never changes an answer |
| `SeqRenumbering.MaximaKept` | receiver/gcc_server/SeqManager.cpp:86-98 | What Input leaves behind: highest input and highest output so far, a step ahead by half the circle or more not counting; a dropped input changes neither |
| `SeqRenumbering.LateInputRepeatsNumber` | receiver/gcc_server/SeqManager.cpp:60-69 | 10 arrives, 13 is dropped, 11 arrives late: it gets the number of 10 |
| `SeqRenumbering.RunsRight` | receiver/gcc_server/SeqManager.cpp:34-101 | Over every run of Input, Drop, Offset and Sync within the window the manager answers as the unbounded one, in 8, 16 and 32 bits |
| `SeqRenumbering.DropRight` | receiver/gcc_server/SeqManager.cpp:45-50 | Drop marks exactly the numbers above the highest input, each once, in order |
| `SeqRenumbering.OffsetRight` | receiver/gcc_server/SeqManager.cpp:52-54 | Offset shifts every later answer |
| `SeqRenumbering.SyncRight` | receiver/gcc_server/SeqManager.cpp:34-43 | After Sync the given input gets the highest output so far |
| `SeqRenumbering.RenumberClosesUp` | receiver/gcc_server/SeqManager.cpp:71-89 | Inputs keep their order, and two become neighbours exactly when everything between them was dropped |
| `SeqRenumbering.InOrderStream` | receiver/gcc_server/SeqManager.cpp:56-101 | An in-order stream, whatever is dropped from it, comes out with consecutive numbers |
| `SeqManagerClass.SeqManager.Input` | receiver/gcc_server/SeqManager.cpp:56-101 | The fields after Input are those of the model for the places where its two searches ended |
| `SeqManagerClass.SeqManager.Drop` | receiver/gcc_server/SeqManager.cpp:45-50 | The set after Drop is that of the model for the place where its search ended |
| `SeqManagerClass.SeqManager.LowerBound` | receiver/gcc_server/SeqManager.cpp:64-72 | A search ends where the element before compares lower than the key and the one found does not |
| `NackPacket.NackRoundTripIff` | receiver/rtc/pack.cc:289-362 | Packing and unpacking gives back the numbers there was room for, in order, exactly when none repeats or steps back behind another number of its item; numbers that advance by 1 to 65520 modulo 2^16 never do |
| `NackPacket.AllTakenIff` | receiver/rtc/pack.cc:351-353 | All numbers are taken exactly when no more items are needed than there is room for |
| `NackPacket.NackLaidOut` | receiver/rtc/pack.cc:319-362 | The bytes of the packet: 0x81, 205, length, the sender's SSRC, the media SSRC, then number and mask of each item, at most 347 |
| `Nack.RoundTripIff` | receiver/rtc/pack.cc:289-354 | The same on items, for any room |
| `Nack.FewestItems` | receiver/rtc/pack.cc:332-354 | Within one window of the number circle no other items stand for the same numbers with fewer of them |
| `Nack.UnmaskClimbs` | receiver/rtc/pack.cc:307-311 | A mask lists its numbers in ascending order, whatever order they were put in |
| `Nack.ItemExactly` | receiver/rtc/pack.cc:300-312 | An item stands for its own number and for those up to sixteen behind it whose bit of the mask is set, and for no other |
| `Nack.AdvancingIsTidy` | receiver/rtc/pack.cc:332-349 | Advancing numbers never repeat or step back within an item |
| `NackPacket.PackingNack` | receiver/rtc/pack.cc:319-362 | The buffer holds the packet the byte function describes |
| `NackPacket.UnpackingNack` | receiver/rtc/pack.cc:289-317 | The sequence numbers the byte function describes, or false for a packet too short |
| `NackPacket.SplitBitrate` | receiver/rtc/pack.cc:129-134 | Mantissa and exponent carry the largest value not above the bitrate that 18 bits can, with the smallest exponent, which fits six bits |
| `TaskThread.NoTaskTwice` | receiver/util/chef_task_thread_impl.hpp:66-150 | No interleaving runs a task twice, and only tasks that were added run |
| `TaskThread.ImmediateRunInOrder` | receiver/util/chef_task_thread_impl.hpp:51-150 | Immediate tasks run in the order they were added |
| `TaskThread.NeverEarly` | receiver/util/chef_task_thread_impl.hpp:119-150 | A deferred task runs at its deadline or later, except in the final drain of DO_ALL_DONE |
| `TaskThread.DelayKept` | receiver/util/chef_task_thread_impl.hpp:51-59 | From the steps alone: the task a step adds with a delay d other than 0 is deferred and executed no earlier than d ms after that step, except in the final drain of DO_ALL_DONE; with delay 0 it is immediate |
| `TaskThread.TakenWhenDue` | receiver/util/chef_task_thread_impl.hpp:82-101 | From the steps alone: once the worker has collected d ms or more after the step that added a task with delay d, that task has run or is among those collected |
| `TaskThread.DueTaskRuns` | receiver/util/chef_task_thread_impl.hpp:66-104 | Left alone, a worker in its loop runs a task whose time has come within a bounded number of its own steps |
| `TaskThread.BatchesOrdered` | receiver/util/chef_task_thread_impl.hpp:51-134 | In every run the batch to execute and the queues are ordered: immediate tasks first, as added, then deferred ones by deadline, equal deadlines as added |
| `TaskThread.FinishedRunsExactly` | receiver/util/chef_task_thread_impl.hpp:66-117 | A finished worker has run a task if and only if: in DO_ALL_DONE, it was added before the worker's last look at the queue, or is deferred and was added before the last lock; in DO_SHOULD_DONE, it was added before the last look and is immediate or had expired by then; in ASAP, the same less what was collected last |
| `TaskThread.FinishedRunsAll` | receiver/util/chef_task_thread_impl.hpp:97-116 | So of the tasks added before stop_and_join began, a finished worker has run all in DO_ALL_DONE, and in DO_SHOULD_DONE every immediate one and every one whose deadline had come when it last looked |
| `TaskThread.AddedTooLate` | receiver/util/chef_task_thread_impl.hpp:97-105 | The smallest such loss: an immediate task added between the last look and the last lock is left behind even in DO_ALL_DONE |
| `TaskThread.ShutdownEnds` | receiver/util/chef_task_thread_impl.hpp:66-117 | With the exit flag set and no more tasks added, the worker is never blocked and ends within a bounded number of its own steps |
| `TaskThread.StepKeeps` | receiver/util/chef_task_thread_impl.hpp:51-150 | Every step keeps conservation of tasks, their order, their deadlines and what stopping promises |
| `TaskThread.ExpiredExactly` | receiver/util/chef_task_thread_impl.hpp:119-134 | The tasks taken from the front are exactly those whose deadline has come |
| `TaskThreadClass.TaskQueue.Add` | receiver/util/chef_task_thread_impl.hpp:51-59 | The queues after add are those of the state machine, the deferred one ordered by deadline; `DelayKept` and `TakenWhenDue` say what the delay means |
| `TaskThreadClass.TaskQueue.AppendExpiredTasks` | receiver/util/chef_task_thread_impl.hpp:119-134 | The expired prefix moves over, in order |
| `TaskThreadClass.TaskQueue.CollectUnderLock` | receiver/util/chef_task_thread_impl.hpp:89-101 | The queues after the lock scope are those of the collect step |
| `TaskThreadClass.TaskQueue.LockAgain` | receiver/util/chef_task_thread_impl.hpp:105-105 | The worker locks once more; what has been added by then is what the drain may see |
| `TaskThreadClass.TaskQueue.FinalDrain` | receiver/util/chef_task_thread_impl.hpp:105-116 | What the last lock scope runs, by release mode |
| `TaskThreadClass.DrainAllEnds` | receiver/util/chef_task_thread_impl.hpp:105-116 | The final drain ends the worker and keeps the invariant |
| `RtpWire.ParseIff` | receiver/gcc_server/RtpPacket.cpp:11-96 | Parsing accepts exactly the bytes of well-formed packets and cuts them into header, extension, payload and padding without losing or sharing a byte |
| `RtpWire.ParsedExactly` | receiver/gcc_server/RtpPacket.cpp:11-96 | Which bytes are accepted, from version, CSRC count, extension length and padding count, and where header, extension, payload and padding are cut |
| `RtpWire.ExtendedReadBack` | receiver/gcc_server/RtpPacket.cpp:178-327 | Re-parsing a packet after SetExtensions finds the elements written, at the places noted while writing, the last one of an id winning; asking for an id gives the last non-empty value written under it; payload and padding are as before |
| `RtpWire.FoundExactly` | receiver/gcc_server/RtpPacket.cpp:178-327 | After SetExtensions the re-parsed packet gives, in the one-byte form, for an id of 1 to 14 the value of its last element of 1 to 16 bytes, in the two-byte form for an id other than 0 the value of its last element unless empty, and nothing for any other id |
| `RtpWire.ExtendedExactly` | receiver/gcc_server/RtpPacket.cpp:198-327 | What SetExtensions changes: the extension flag; the id, 0xBEDE, 0x1000, or an old one from 0x1000 to 0x100F; the value, which is the elements and zeros up to a multiple of four |
| `RtpWire.KindExactly` | receiver/gcc_server/RtpPacket.hpp:207-211 | The ids that announce one-byte and two-byte elements |
| `RtpExtensions.WrittenExactly` | receiver/gcc_server/RtpPacket.cpp:284-321 | Each element adds one byte of id and length less one, or one byte of each, and its value; ids outside 1 to 14 and lengths outside 1 to 16, or id 0 in the two-byte form, add nothing |
| `RtpExtensions.ScanFindsPlaced` | receiver/gcc_server/RtpPacket.cpp:615-705 | Parsing elements followed by padding finds each where it was written, in both forms |
| `RtpExtensions.LookupGivesLast` | receiver/gcc_server/RtpPacket.hpp:431-469 | GetExtension returns the value of the last usable element written under an id, or nothing if that is empty or there is none |
| `RtpExtensions.ScanPlacesOk` | receiver/gcc_server/RtpPacket.cpp:615-705 | For any bytes, parsing notes only elements that end inside the extension |
| `RtpExtensions.ScanExactly` | receiver/gcc_server/RtpPacket.cpp:615-705 | Any bytes are elements and padding bytes up to an end, the reserved id 15 or an element cut off, and parsing notes exactly those elements, the last of each id |
| `RtpWire.RtxRoundTrip` | receiver/gcc_server/RtpPacket.cpp:495-559 | Decoding what RtxEncode made, with the original payload type and SSRC, restores sequence number, header and payload; only padding and its flag are gone; the size grows by two less the padding |
| `RtpWire.RtxRoundTripBack` | receiver/gcc_server/RtpPacket.cpp:495-559 | Encoding what RtxDecode made, with the retransmission's own numbers, restores it up to padding |
| `RtpWire.RtxEncodedExactly` | receiver/gcc_server/RtpPacket.cpp:493-523 | The retransmission byte by byte: given payload type, sequence number and SSRC, the original number in front of the payload, no padding, all other header fields kept |
| `RtpWire.RtxDecodedExactly` | receiver/gcc_server/RtpPacket.cpp:525-559 | The decoded packet: sequence number from the first two payload bytes, given payload type and SSRC, the rest as it was; nothing below two bytes of payload |
| `RtpWire.ShiftRoundTrip` | receiver/gcc_server/RtpPacket.cpp:582-613 | Contracting what was expanded restores the payload whatever is in the gap, and expanding back what was cut out does too |
| `RtpWire.ShiftedExactly` | receiver/gcc_server/RtpPacket.cpp:582-613 | Where every payload byte is after expanding or contracting at an offset |
| `RtpPacketClass.RtpPacket.Parse` | receiver/gcc_server/RtpPacket.cpp:11-112 | Accepts exactly the well-formed bytes, and the object points at the parts of the packet and at the elements of its extension |
| `RtpPacketClass.RtpPacket.SetExtensions` | receiver/gcc_server/RtpPacket.cpp:178-327 | The rewritten buffer is the packet with the new extension, whether it grows, shrinks or is new, and re-parsing its bytes gives exactly that packet, size included; the maps hold the places written; `ExtendedExactly`, `WrittenExactly` and `FoundExactly` say in numbers what is written and found |
| `RtpPacketClass.RtpPacket.ParseExtensions` | receiver/gcc_server/RtpPacket.cpp:615-705 | The loops find what the scan of the extension value finds |
| `RtpPacketClass.RtpPacket.GetExtension` | receiver/gcc_server/RtpPacket.hpp:431-469 | The value of an element under either form, nothing under any other extension id |
| `RtpPacketClass.RtpPacket.RtxEncode` | receiver/gcc_server/RtpPacket.cpp:493-523 | The buffer holds the retransmission, in place, its payload type cut to seven bits |
| `RtpPacketClass.RtpPacket.RtxDecode` | receiver/gcc_server/RtpPacket.cpp:525-559 | The buffer holds the decoded packet, or nothing changes and false is returned when the payload is shorter than two bytes |
| `RtpPacketClass.RtpPacket.ShiftPayload` | receiver/gcc_server/RtpPacket.cpp:582-613 | Payload expanded or contracted in place, padding moved along, everything else as before |
| `RtpPacketClass.MoveBytes` | receiver/gcc_server/RtpPacket.cpp:253-254 | memmove between overlapping regions of one buffer |
| `UrlCoding.UrlRoundTripIff` | receiver/util/helper.cc:105-177 | UrlDecode of UrlEncode gives the string back exactly when it holds no zero byte; the encoding is at most three times as long and free of zero bytes |
| `UrlCoding.DecodeOfEncode` | receiver/util/helper.cc:137-177 | Every byte comes back as itself, a zero byte as its escape |
| `UrlCoding.EncodedExactly` | receiver/util/helper.cc:152-158 | Letters, digits and _-.!~*'() are left alone, every other byte becomes % and two upper-case digits |
| `UrlCoding.EscapeDecoded` | receiver/util/helper.cc:110-127 | Two hexadecimal digits of either case behind a percent sign stand for their value, unless that is zero |
| `UrlCoding.OthersDecoded` | receiver/util/helper.cc:110-117 | A percent sign without two digits stays, a plus sign becomes a space, everything else stays |
| `UrlCoding.Unescape` | receiver/util/helper.cc:105-135 | The two pointers in one buffer produce the recursive decoding; the writer never passes the reader |
| `UrlCoding.UrlEncode` | receiver/util/helper.cc:137-167 | The write loop produces the encoding within three bytes per character |
| `Base64.Base64RoundTrip` | receiver/util/chef_encoding_base64_op_impl.hpp:84-192 | Every byte string comes back, and its encoding has four symbols for every three bytes begun |
| `Base64.GroupExactly` | receiver/util/chef_encoding_base64_op_impl.hpp:84-130 | Four characters of the alphabet that, as digits to the base 64, make the number the three bytes make to the base 256 |
| `Base64.GroupInPlace` | receiver/util/chef_encoding_base64_op_impl.hpp:84-130 | Each whole group of three bytes is encoded in its place |
| `Base64.PaddedExactly` | receiver/util/chef_encoding_base64_op_impl.hpp:108-130 | Two padding signs behind one byte left over, one behind two, none otherwise and none elsewhere |
| `Base64.Base64Encode` | receiver/util/chef_encoding_base64_op_impl.hpp:84-130 | The three-byte buffer and the partial last group produce the encoding |
| `Base64.Base64Decode` | receiver/util/chef_encoding_base64_op_impl.hpp:149-192 | The four-byte buffer decodes up to padding, the end or the first foreign symbol, dropping the last byte of a partial group |

## Left out

- Sockets, endpoints, timers and clocks: the datagrams a server sends are a list, times are parameters of the calls.
- The linked list of parsed packets is a sequence; pointers, allocation and destructors are not modelled.
- Bit-fields are sums of disjoint parts, and OR of disjoint parts is addition.
- OneBitVectorChunk::Serialize and CreateOneBitVectorChunk: no path of the encoder produces such a chunk; parsing them is modelled.
- FeedbackRtpTransportPacket::Parse called directly on a header declaring fewer than 20 bytes: Packet::Parse never passes a length other than the declared one, and shorter ones are refused before.
- The sender's and media SSRCs are fixed for a server; the setters only copy fields.
- FeedbackPacket.FeedbackRtpTransportPacket.FromBytes: a header declaring fewer than 20 bytes underflows the length of what is left to parse; Packet::Parse refuses such packets before.
- FeedbackPacket.FeedbackRtpTransportPacket.Serialize: the packet holds chunks the encoder can produce, so a parsed packet with one-bit vectors is not written again.
- FeedbackRuns.EndToEnd: timestamps stay below 2^61 ms, where the 64-bit difference times four cannot wrap; BaseSurvivesIff says which runs keep their base.
- GccServer.WholeRun: clocks run from 64 ms to 2^61 ms; BaseIsSetIff and BaseSurvivesIff say what smaller ones do.
- GccServerClass.GCCServer.SendTransportCcFeedback: what a packet too long for its datagram overwrites, and what is then sent, is undefined in the source; the datagram is marked as an overrun and the run goes on.
- RateStatisticsClass.RateStatistics.Update: counts are unbounded; the source's size_t sums agree while the counts in the window add up to less than 2^64. Times are not negative and windows at most 2^31 ms.
- RateStatisticsClass.RateStatistics.Rate: gives the total and the span it is spread over; scaling them in floating point is left out.
- SeqRenumbering.RunsRight: live drops and inputs lie within half the number circle, which the ordered set needs to be ordered at all.
- RtpPacketClass.RtpPacket.SetExtensions: element values lie in buffers of their own, types other than one-byte and two-byte are not modelled, and sizes fit the 16-bit integers the source computes them in.
- RtpPacket: the Update and Read helpers for single extensions, SetPayloadLength, Clone and the payload descriptor handlers copy fields or forward.
- TaskThread.FinishedRunsAll: tasks are opaque and return; a task that adds another one during the final drain would wait for the lock it runs under, and is not modelled. The exit flag is atomic.
- TaskThreadClass.TaskQueue.Add: deadlines are plain integers; the source adds the delay to an unsigned 64-bit clock, which wraps for a negative delay longer than the clock has run.
- TaskThread.ShutdownEnds: the waits of 100 ms are not timed; the worker may go on whenever there is something to do.
- UrlCoding.Unescape: characters above 127 are not hexadecimal digits.
- NackPacket.UnpackingNack: the buffer is at least as long as the length field declares, which the source leaves to its caller.
- NackPacket.SplitBitrate: the other fields of REMB, and the APP, SR, RR and FIR packers, only copy values.
- Congestion-control glue, JSON dumps, type names, vendored libraries and the sender's copies of receiver files.
