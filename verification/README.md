# A verified model of the RTP sender

This project models, in Dafny, how the module turns H.264 frames into an interleaved RTP/RTCP octet
stream on one TCP connection, and proves what a receiver can rely on.

- `AnnexB.dfy` — splitting an Annex-B byte frame into NAL units, and the joining that inverts it.
- `Payload.dfy` — single-NAL packets and FU-A fragments (RFC 6184), and a depacketizer for the
  non-interleaved mode.
- `Wire.dfy` — RTP packets and Sender Reports (RFC 3550) behind `$`, channel and length (RFC 2326), and
  the reader that takes the octet stream apart.
- `Sender.dfy` — the session's state and the messages each call emits, as values.
- `Session.dfy` — the session as a class, one method per method of the original, with its loops, buffers
  and in-place counters, each proved against `Sender`.
- `Runs.dfy` — any list of calls from any state: counters, sequence numbers, markers, costs.
- `Delivery.dfy` — end to end: what a receiver recovers, and what reports say about the wire.
- `Connections.dfy` — whole runs cut into connections, and what each connection's receiver recovers.
- `Doubles.dfy` — rounding to the nearest double, in integer arithmetic.
- `Clock.dfy`, `Timeline.dfy` — timestamps in double arithmetic, NTP fractions, report pacing.
- `FramedSource.dfy`, `Pipeline.dfy` — the bounded frame source, and source, session and wire together.
- `Bytes.dfy` — octets, wrap-around, byte order, `memcpy` and list identities.

`dafny verify dfyconfig.toml` checks everything.

Each layer has a receiver-side partner (`Join`, `StandardSplit`, `Depacketize`, `Decode`, `Receive`) that
follows the standard's description of the format, and the main results relate the two. Where the sender
meets a law only sometimes, the exact condition is proved as an if-and-only-if:

- `DepacketizeExactly`, `DeliveredExactly`, `ConnectionsDelivered`: NAL units are recovered exactly when all
  of them are non-empty and of a type from 1 to 23. The sender passes on whatever NAL octet a frame holds;
  `AggregateReceived` is a frame that a receiver takes apart.
- `StandardExactly`, `FindsAllCodesExactly`: the splitter extracts Annex B's NAL units exactly when every start
  code has four octets and, from the first one on, no zero octet stands before a start code or at the end of
  the frame; `ShortCodesMissed` and `TrailingZeroKept` are inputs that fail the one and the other.
- `MarkerPerAccessUnitExactly`: the marker is set per NAL unit; section 5.1 of RFC 6184 wants it per access unit.
  `MarkerInsideAccessUnit` is an input.
- `CountsTrueOfWire`, `ReportTrueOfWire`: counters advance even when no connection is open;
  `CountsWrongOfWire` is an input.
- `ReportTrueOfSsrc`, `ReportTrueForReceiver`: the counters are not reset when a start draws a new SSRC;
  `CountsWrongOfSsrc` is an input.
- `ExactUnlessTickLost`: rounding loses one tick at exactly the differences of `LosesTick`; `TickLostAt300` is one.
- `DriftReachesTick`: two timestamps are a whole tick off exactly between multiples of 100 microseconds of which
  one loses its tick.
- `FitsExactly`: the cast of the timestamp to 32 bits is defined for the differences -11 to 47721858844.

Modelling decisions.

- `send(2)` appends to a ghost log of descriptors and messages; the octets handed to it must be the
  message's encoding. With a negative descriptor nothing reaches the wire.
- The outcomes of `socket` and `connect`, the SSRC draw and the time of day are parameters. The SSRC is
  uninitialised before the first start, so the constructor takes an arbitrary one.
- The expression `(delta / 1000000.0) * 90000`, evaluated at two places, is a function parameter `clock`;
  everything outside `Clock` and `StreamTimestamps` holds for every such function. `IsNearestClock` says that it
  is IEEE double arithmetic: both operations rounded to nearest, ties to even, then truncated. `IsDoubleClock`
  only says that each operation is within a relative 2^-53.
- Octets are integers from 0 to 255. `NalBits`, `FuHeaderBits`, `FlagBits` and `HeaderBits` prove that the
  arithmetic used on them is the bit arithmetic of the source, for every octet.
- The body of the branch taken at a start code, its inner scan, and the filling of the two kinds of buffer
  are methods of their own here (`SendNaluAt`, `EndFrom`, `Concatenate`, `TcpFrame`).
- The callback is null or the forwarding one of `src/main.cpp`; each locked method is one atomic step.

Where code and comments differ, the model follows the code: `include/RTPSendingSession.hh` speaks of two
TCP connections for RTP and RTCP, the code interleaves both on one.

## Model

| member | source | states |
|---|---|---|
| Bytes.WrapsExactly | include/RTPSendingSession.hh:61-65 | the 16-bit and 32-bit wraps are congruent modulo 2^16 and 2^32 |
| AnnexB.ScanFindsFirst | src/RTPSendingSession.cpp:202-210 | the scan stops at the first start code that an octet follows, and only there |
| AnnexB.JoinOfSplit | src/RTPSendingSession.cpp:200-218 | for every frame, the NAL units joined by start codes are the frame from its first recognised start code on; nothing is lost |
| AnnexB.SplitIsSplittable | src/RTPSendingSession.cpp:200-218 | no emitted NAL unit contains a start code that has an octet after it in the frame |
| AnnexB.ScanOfJoined | src/RTPSendingSession.cpp:204-211 | the start code pattern has no self-overlap: none straddles the end of a NAL unit |
| AnnexB.RoundTripExactly | src/RTPSendingSession.cpp:200-218 | a list of NAL units survives joining and splitting if and only if none hides a start code and the last is not empty |
| AnnexB.SplitUnique | src/RTPSendingSession.cpp:200-218 | the split is the only start-code-free list whose join is the frame's tail |
| AnnexB.OneNaluPerCode | src/RTPSendingSession.cpp:202-213 | every recognised start code in the frame begins exactly one NAL unit |
| AnnexB.NalusByPositions | src/RTPSendingSession.cpp:202-213 | as many NAL units as positions of 00 00 00 01 with an octet behind it |
| AnnexB.FindsAllCodesExactly | src/RTPSendingSession.cpp:203 | one NAL unit per Annex-B start code if and only if every one has the four-octet form |
| AnnexB.StandardExactly | src/RTPSendingSession.cpp:200-218 | the split is Annex B's extraction (cut at 00 00 01, trailing zeros dropped) if and only if every prefix has its zero octet and, from the first start code on, no zero octet stands before a start code or ends the frame |
| AnnexB.TrailingZeroKept | src/RTPSendingSession.cpp:205-212 | a frame whose trailing zero octet is sent as part of its NAL unit |
| AnnexB.ShortCodesMissed | src/RTPSendingSession.cpp:203 | a frame with a three-octet start code from which nothing is sent |
| Payload.NalBits | src/RTPSendingSession.cpp:171-179 | the arithmetic on the NAL octet is the source's masking, for all octets |
| Payload.FuHeaderBits | src/RTPSendingSession.cpp:180-182 | the three FU headers are the source's bit expressions, for all octets |
| Payload.FlagBits | src/RTPSendingSession.cpp:180-195 | the S and E tests are the source's masks, for all octets |
| Payload.FragmentShape | src/RTPSendingSession.cpp:170-197 | at least two fragments; S, E and marker exactly where section 5.8 of RFC 6184 has them; all but the last full; every fragment gives back the NAL octet |
| Payload.BodiesCover | src/RTPSendingSession.cpp:184-197 | the fragment bodies concatenate to the NAL unit without its first octet |
| Payload.PacketSizes | src/RTPSendingSession.cpp:169-198 | up to 1400 octets one packet, above it (size + 1396) / 1398 fragments of 1400 octets but the last, each with its stretch of the NAL unit |
| Payload.FragmentCountMinimal | src/RTPSendingSession.cpp:170-197 | no division into bodies of at most 1398 octets needs fewer fragments |
| Payload.NaluCost | src/RTPSendingSession.cpp:169-198 | packets and payload octets of one NAL unit, in closed form |
| Payload.OutputRecoverable | src/RTPSendingSession.cpp:171-195 | whatever payloads arrive, only non-empty NAL units of types 1 to 23 come out of the depacketizer |
| Payload.DepacketizeExactly | src/RTPSendingSession.cpp:169-198 | depacketizing (non-interleaved mode of RFC 6184) inverts packetizing for exactly the lists of non-empty NAL units of types 1 to 23, of any size |
| Payload.AggregateTakenApart | src/RTPSendingSession.cpp:174-176 | a NAL unit of type 24 is sent as it is and comes out as its parts |
| Wire.HeaderBits | src/RTPSendingSession.cpp:120-121 | the constant header octets are the source's bit expressions |
| Wire.RtpOctets | src/RTPSendingSession.cpp:119-136 | an RTP packet on the wire, octet by octet |
| Wire.ReportOctets | src/RTPSendingSession.cpp:148-164 | a Sender Report on the wire, octet by octet |
| Wire.DecodeRtpBody | src/RTPSendingSession.cpp:119-128 | the RTP header of section 5.1 of RFC 3550 reads back marker, sequence number, timestamp, SSRC and payload |
| Wire.DecodeSrBody | src/RTPSendingSession.cpp:148-157 | the Sender Report of section 6.4.1 of RFC 3550 reads back all its fields |
| Wire.DecodeExactly | src/RTPSendingSession.cpp:130-138 | the interleaved stream is read back to the same messages if and only if every body fits the 16-bit length |
| Sender.RtpOfAppend | src/RTPSendingSession.cpp:118-142 | sending in two parts numbers the packets as sending at once does |
| Session.RTPSendingSession.constructor | include/RTPSendingSession.hh:61-66 | the initial counters |
| Session.RTPSendingSession.Start | src/RTPSendingSession.cpp:46-76 | the new SSRC; success exactly if the socket is created and connects, and then its descriptor; counters and log untouched |
| Session.RTPSendingSession.Stop | src/RTPSendingSession.cpp:78-83 | the connection is closed, everything else kept |
| Session.RTPSendingSession.CreateSockets | src/RTPSendingSession.cpp:85-102 | the descriptor after each outcome of socket and connect |
| Session.RTPSendingSession.SendFrame | src/RTPSendingSession.cpp:104-116 | the new state and the emitted messages, a report included when due; base and last report in plain terms, and every message stamped with the clock at the distance from the base |
| Session.RTPSendingSession.SendRtpPacket | src/RTPSendingSession.cpp:118-142 | the buffers hold the packet's encoding; exactly one packet is sent and counted |
| Session.RTPSendingSession.SendRtcpSr | src/RTPSendingSession.cpp:144-167 | one report with the current counters; no counter moves |
| Session.RTPSendingSession.PacketizeAndSendNalu | src/RTPSendingSession.cpp:169-198 | the loop sends exactly the closed-form fragments, reading inside the frame even for an empty NAL unit |
| Session.RTPSendingSession.EndFrom | src/RTPSendingSession.cpp:204-211 | the inner scan ends at the first recognised start code or the end of the frame |
| Session.RTPSendingSession.SendNaluAt | src/RTPSendingSession.cpp:203-213 | the branch at a start code sends one NAL unit and leaves the rest of the split |
| Session.RTPSendingSession.ParseAndSendFrame | src/RTPSendingSession.cpp:200-218 | the loops send the packets of the recursive split, in at most as many iterations as there are octets, and skip nothing behind the first start code |
| Runs.CountersTruthful | src/RTPSendingSession.cpp:46-167 | in every run, across restarts: packet k is numbered k mod 2^16, every report counts exactly what precedes it, and the sequence number is the packet count mod 2^16 |
| Runs.RunKeepsLedger | src/RTPSendingSession.cpp:104-142 | the same from any state that agrees with its log |
| Runs.RunCarriesNalus | src/RTPSendingSession.cpp:104-218 | the RTP packets of a run carry the NAL units of its frames, wherever reports lie |
| Runs.MarkersDelimitNalus | src/RTPSendingSession.cpp:174-197 | one marked packet per NAL unit, and cutting after each gives the packets of each NAL unit |
| Runs.MarkerPerAccessUnitExactly | src/RTPSendingSession.cpp:174-197 | the marker marks the access unit's last packet only, if and only if the frame has at most one NAL unit |
| Runs.MarkerInsideAccessUnit | src/RTPSendingSession.cpp:174-197 | a frame of two NAL units with a marked packet before its last |
| Runs.FrameCost | src/RTPSendingSession.cpp:104-142 | what a frame adds to both counters, in closed form mod 2^32 |
| Runs.SsrcHeld | src/RTPSendingSession.cpp:51-54 | between two starts every message carries the same SSRC |
| Runs.SilentUntilStart | src/RTPSendingSession.cpp:78-83 | after stop nothing reaches the wire until the next start |
| Delivery.SocketAfterStart | src/RTPSendingSession.cpp:78-102 | after any calls since a start the descriptor is the connected socket's if there was one and no stop since, and negative otherwise |
| Delivery.StartOpens | src/RTPSendingSession.cpp:46-138 | behind a successful start each frame's messages all go to its descriptor, and a receiver gets its NAL units if and only if all are recoverable |
| Delivery.NoConnection | src/RTPSendingSession.cpp:78-102 | behind a failed start or a stop nothing reaches the wire until the next start |
| Delivery.CallFits | src/RTPSendingSession.cpp:130-131 | no body exceeds 1412 octets, so the length never truncates |
| Delivery.DeliveredExactly | src/RTPSendingSession.cpp:104-218 | for every run from every state a receiver recovers the NAL units sent over an open connection if and only if all are non-empty and of types 1 to 23 |
| Delivery.AggregateReceived | src/RTPSendingSession.cpp:174-176 | a frame with a NAL unit of type 24, sent over an open connection, of which the receiver gets the part |
| Delivery.StreamRecovered | src/RTPSendingSession.cpp:104-218 | joined by start codes, they are the frames' octets from their first start code on |
| Delivery.CountsTrueOfWire | src/RTPSendingSession.cpp:138-141 | the counts are those of the wire if and only if the frames sent without a connection hold nothing (mod 2^32) |
| Delivery.ReportTrueOfWire | src/RTPSendingSession.cpp:112-167 | the same of every report a frame sends, whatever calls came before it |
| Delivery.ReportTrueOfSsrc | src/RTPSendingSession.cpp:46-54 | since a start everything carries the report's SSRC, and the report counts exactly these packets if and only if all sent before that start is a multiple of 2^32 |
| Delivery.ReportTrueForReceiver | src/RTPSendingSession.cpp:46-167 | the report counts the packets on the wire since its start if and only if those sent before it and those lost since are a multiple of 2^32 together |
| Delivery.CountsWrongOfSsrc | src/RTPSendingSession.cpp:46-54 | a run with one packet before a start and one behind it, and a report that counts two |
| Delivery.CountsWrongOfWire | src/RTPSendingSession.cpp:138-141 | a run whose count exceeds what is on the wire |
| Connections.PiecesOfRun | src/RTPSendingSession.cpp:46-83 | cutting a run at its starts loses no call, and every piece holds one start, at its head |
| Connections.PieceOnOneDescriptor | src/RTPSendingSession.cpp:78-102 | all a piece puts on the wire goes to the descriptor its start opened |
| Connections.ConnectionsDelivered | src/RTPSendingSession.cpp:46-218 | for every run each connection's octets give back the NAL units sent on it, if and only if all are recoverable, and together octets and NAL units are all of the run's |
| Doubles.NearestIsNearest | src/RTPSendingSession.cpp:109 | the rounding has a 53-bit significand that no integer is nearer than, the even one of two |
| Clock.TicksNearExact | src/RTPSendingSession.cpp:108-109 | with any rounding within a relative 2^-53, the timestamp is 9 * delta / 100 truncated, or one less and then only at positive multiples of 100 |
| Clock.FitsExactly | src/RTPSendingSession.cpp:109 | the 32-bit cast is defined for exactly the deltas from -11 to 47721858844, the negative ones giving 0 |
| Clock.ExactClockIsDoubleClock | src/RTPSendingSession.cpp:109 | exact arithmetic is one of the clocks covered |
| Clock.NearestClockExists | src/RTPSendingSession.cpp:109 | nearest rounding gives a 32-bit timestamp for every delta, so there is such a clock |
| Clock.NearestClockIsDoubleClock | src/RTPSendingSession.cpp:109 | rounding both operations to the nearest double is another |
| Clock.ExactUnlessTickLost | src/RTPSendingSession.cpp:108-109 | with nearest rounding the timestamp is exact if and only if the delta is not one of `LosesTick`, and otherwise one tick behind |
| Clock.TickLostAt300 | src/RTPSendingSession.cpp:109 | 26 instead of 27 ticks at 300 microseconds |
| Clock.TicksDoNotDrift | src/RTPSendingSession.cpp:106-109 | timestamps are monotone and within one tick of the elapsed time |
| Clock.DriftReachesTick | src/RTPSendingSession.cpp:106-109 | with nearest rounding the drift is a whole tick if and only if both deltas are multiples of 100 and exactly one loses its tick |
| Clock.NtpFractionLossless | src/RTPSendingSession.cpp:154 | the fraction fits, grows strictly and gives back the microsecond |
| Clock.ReportTellsTime | src/RTPSendingSession.cpp:145-154 | a report's NTP fields give back seconds (mod 2^32) and microseconds |
| Timeline.ReportsPaced | src/RTPSendingSession.cpp:112-115 | reports are at least a second apart, and less than a second and the largest frame gap |
| Timeline.ReportsBounded | src/RTPSendingSession.cpp:112-115 | for any pts: at most one report per second, and no frame a second ahead of the last report |
| Timeline.SessionPaced | src/RTPSendingSession.cpp:112-115 | both for a whole session, with the number of reports in its log |
| Timeline.SessionBracketed | src/RTPSendingSession.cpp:112-115 | with non-negative, non-decreasing pts: a second per report <= last report <= last pts < last report plus a second |
| Timeline.ReportsExactly | src/RTPSendingSession.cpp:112-115 | one report exactly when a frame lies 1000000 microseconds or more behind the last reported one |
| Timeline.ReportTime | src/RTPSendingSession.cpp:145-154 | the report's seconds since 1900 mod 2^32, and the largest fraction that does not exceed the microseconds |
| Timeline.FirstFrameStamped | src/RTPSendingSession.cpp:106-110 | up to the first frame with a non-negative pts every message is stamped as time zero |
| Timeline.LaterFramesStamped | src/RTPSendingSession.cpp:106-110 | every later message is stamped with the clock at the distance from that frame's pts |
| Timeline.LaterFramesTicks | src/RTPSendingSession.cpp:106-110 | with nearest rounding that is 9 / 100 of the distance rounded down, less one exactly where a tick is lost |
| Timeline.FrameSharesTimestamp | src/RTPSendingSession.cpp:104-116 | a report has the timestamp and SSRC of every packet of the frame just sent and follows them all |
| Timeline.BaseStays | src/RTPSendingSession.cpp:106 | a non-negative base never moves |
| Timeline.BaseUnfixed | src/RTPSendingSession.cpp:106 | while only negative pts were seen, each frame is its own base and is stamped as time zero |
| Timeline.StreamTimestamps | src/RTPSendingSession.cpp:106-110 | along any run timestamps never run backwards nor drift by more than one tick |
| Timeline.DifferencesFit | src/RTPSendingSession.cpp:106-112 | with non-negative 63-bit pts no 64-bit difference overflows |
| FramedSource.HistoryKept | src/CustomFramedSource.cpp:7-39 | for every interleaving: consumed frames and then the queue are the pushed history, each consumed once, in order, unaltered; the queue holds at most 30 |
| FramedSource.ConstantLag | src/CustomFramedSource.cpp:12-39 | with a callback and backlog k every push delivers the frame pushed min(k, 29) before it, and one frame is dropped exactly if k is 30 |
| FramedSource.NewestKept | src/CustomFramedSource.cpp:16-27 | without a callback the newest 30 frames stay and all older ones are dropped in order |
| FramedSource.PushFates | src/CustomFramedSource.cpp:7-39 | any push of any interleaving: the oldest is dropped exactly from 30 frames, and the oldest is then delivered exactly if the last callback set was not null |
| FramedSource.InstalledDelivers | src/CustomFramedSource.cpp:7-39 | setting a callback, whatever was set before, starts the constant lag |
| FramedSource.RemovedKeeps | src/CustomFramedSource.cpp:7-39 | setting a null callback keeps the newest 30 frames from then on |
| FramedSource.CustomFramedSource.constructor | src/CustomFramedSource.cpp:5 | an empty queue without a callback |
| FramedSource.CustomFramedSource.SetCallback | src/CustomFramedSource.cpp:7-10 | the callback is replaced, the queue kept |
| FramedSource.CustomFramedSource.PushFrame | src/CustomFramedSource.cpp:12-30 | the queue, the fates of frames and the session's state and log after one push |
| FramedSource.CustomFramedSource.DeliverNext | src/CustomFramedSource.cpp:32-39 | nothing, or exactly the oldest frame handed to the session |
| Pipeline.PushAll | src/main.cpp:55-58 | pushing frames leaves the log of direct calls with the lagged frames; with no backlog, with the very frames pushed, each delivered and none dropped; on an open socket the receiver recovers their NAL units if and only if all are recoverable |
| Pipeline.SourceToReceiver | src/main.cpp:55-58 | through source, session and wire the receiver recovers the frames' NAL units, if and only if all are recoverable |

## Left out

- Send: a short or failed write on an open socket, where the octet stream would break off inside a message.
- Start: the descriptor of an earlier connection is not closed by the code; only the new one is modelled. The random draw of the SSRC is a parameter, and the commented-out HTTP request is not part of this model.
- SendFrame: the mutex; each call is one atomic step, and a concurrent `stop` is not interleaved with it.
- ParseAndSendFrame: the 32-bit `pos + 4` next to the largest `int`, and a negative length, which the code treats like an empty frame.
- StreamTimestamps: presentation times below the base, of which the last 11 microseconds are stamped as the base and earlier ones have no defined timestamp, and those too far above it.
- DepacketizeExactly: the interleaved mode; packets of types 25 to 27 and 29 are refused like the undefined types, not decoded.
- StandardExactly: three zero octets inside a NAL unit, which the standard forbids, are not taken as its end; a start code without an octet behind it is payload, as in the code.
- PushFrame: callbacks other than the forwarding one, callbacks that throw or call back into the source.
- PushAll: the file reader and its frame filter in `src/main.cpp`, which also holds unresolved merge markers.
- Allocation failure, the unused UDP sockets and addresses, and everything vendored or generated.
