/** From frames to octets on the wire and back: the sender's four layers against a receiver's. */
module Delivery {
  import opened Bytes
  import opened AnnexB
  import opened Payload
  import opened Wire
  import opened Sender
  import opened Runs

  /** A receiver: cut the stream, keep the RTP channel, strip the headers, depacketize. */
  function Receive(octets: seq<byte>): Option<seq<seq<byte>>> {
    match Decode(octets)
    case None => None
    case Some(ms) => Depacketize(Payloads(ChunksOf(ms)), None)
  }

  /** The octets a run puts on the wire. */
  function WireOctets(st: State, calls: seq<Call>, clock: TickClock): seq<byte> {
    EncodeAll(Messages(OnWire(Trace(st, calls, clock))))
  }

  /** The frames that a run sends while a connection is open, without what precedes their first start code. */
  function FramesOnWire(st: State, calls: seq<Call>): seq<seq<byte>>
    decreases |calls|
  {
    if calls == [] then []
    else (if st.sock >= 0 && calls[0].SendFrame? then [calls[0].data[Scan(calls[0].data)..]] else [])
         + FramesOnWire(Next(st, calls[0]), calls[1..])
  }

  function NalusOnWire(st: State, calls: seq<Call>): seq<seq<byte>> {
    FlatMap(Split, FramesOnWire(st, calls))
  }

  // ---------- The wire carries the frames ----------

  lemma WireStep(st: State, calls: seq<Call>, clock: TickClock)
    requires calls != []
    ensures Messages(OnWire(Trace(st, calls, clock)))
            == (if st.sock >= 0 then Emitted(st, calls[0], clock) else [])
               + Messages(OnWire(Trace(Next(st, calls[0]), calls[1..], clock)))
  {
    var sent := CallsOf(st.sock, Emitted(st, calls[0], clock));
    var rest := Trace(Next(st, calls[0]), calls[1..], clock);
    FlatMapAppend(IfOpen, sent, rest);
    OnWireOfCalls(st.sock, Emitted(st, calls[0], clock));
    MessagesOfCalls(st.sock, Emitted(st, calls[0], clock));
    MessagesAppend(OnWire(sent), OnWire(rest));
  }

  lemma NalusStep(st: State, calls: seq<Call>)
    requires calls != []
    ensures NalusOnWire(st, calls)
            == (if st.sock >= 0 then NalusOf(calls[0]) else []) + NalusOnWire(Next(st, calls[0]), calls[1..])
  {
    var rest := FramesOnWire(Next(st, calls[0]), calls[1..]);
    if st.sock >= 0 && calls[0].SendFrame? {
      var frame := calls[0].data[Scan(calls[0].data)..];
      SplitSkips(calls[0].data);
      DropFirst(frame, rest);
    } else {
      AppendNothing(rest);
      AppendNothing(NalusOnWire(Next(st, calls[0]), calls[1..]));
    }
  }

  lemma {:induction false} WireCarriesNalus(st: State, calls: seq<Call>, clock: TickClock)
    ensures ChunksOf(Messages(OnWire(Trace(st, calls, clock)))) == FrameChunks(NalusOnWire(st, calls))
    decreases |calls|
  {
    if calls != [] {
      var st', rest := Next(st, calls[0]), calls[1..];
      WireCarriesNalus(st', rest, clock);
      WireStep(st, calls, clock);
      NalusStep(st, calls);
      var now := if st.sock >= 0 then NalusOf(calls[0]) else [];
      ChunksOfCall(st, calls[0], clock);
      var emitted := if st.sock >= 0 then Emitted(st, calls[0], clock) else [];
      ChunksOfAppend(emitted, Messages(OnWire(Trace(st', rest, clock))));
      FlatMapAppend(NaluChunks, now, NalusOnWire(st', rest));
    }
  }

  // ---------- Every message fits its length field ----------

  lemma {:induction false} ChunksFit(nalus: seq<seq<byte>>)
    ensures forall c | c in FrameChunks(nalus) :: |c.payload| <= MTU
    decreases |nalus|
  {
    if nalus != [] {
      ChunksFit(nalus[1..]);
      forall c | c in NaluChunks(nalus[0])
        ensures |c.payload| <= MTU
      {
        if |nalus[0]| > MTU {
          var k :| 0 <= k < |NaluChunks(nalus[0])| && NaluChunks(nalus[0])[k] == c;
          FragmentShape(nalus[0], k);
        }
      }
    }
  }

  /** No body is longer than 1412 octets, so the 16-bit length never truncates. */
  lemma CallFits(st: State, call: Call, clock: TickClock)
    ensures forall m | m in Emitted(st, call, clock) :: BodySize(m) <= 1412 && Framable(m)
  {
    if call.SendFrame? {
      var chunks := FrameChunks(Split(call.data));
      ChunksFit(Split(call.data));
      forall m | m in FramePackets(st, call.data, Timestamp(st, call.pts, clock))
        ensures BodySize(m) <= 1412
      {
        var i :| 0 <= i < |chunks| && m.payload == chunks[i].payload && m.Rtp?;
        assert chunks[i] in chunks;
      }
    }
  }

  lemma {:induction false} WireFits(st: State, calls: seq<Call>, clock: TickClock)
    ensures forall m | m in Messages(OnWire(Trace(st, calls, clock))) ::
              BodySize(m) <= 1412 && Framable(m)
    decreases |calls|
  {
    if calls != [] {
      WireFits(Next(st, calls[0]), calls[1..], clock);
      CallFits(st, calls[0], clock);
      WireStep(st, calls, clock);
    }
  }

  // ---------- End to end ----------

  /** What a receiver makes of a run, in terms of the NAL units sent. */
  lemma ReceivedFrom(st: State, calls: seq<Call>, clock: TickClock)
    ensures Receive(WireOctets(st, calls, clock)) == Depacketize(Payloads(FrameChunks(NalusOnWire(st, calls))), None)
  {
    WireFits(st, calls, clock);
    DecodeExactly(Messages(OnWire(Trace(st, calls, clock))));
    WireCarriesNalus(st, calls, clock);
  }

  /**
   * For every run from every state: the receiver recovers exactly the NAL units of the frames sent
   * over an open connection, in order and with reports interleaved anywhere, if and only if all of
   * them are non-empty and of a type from 1 to 23. Module Connections cuts runs into connections.
   */
  lemma DeliveredExactly(st: State, calls: seq<Call>, clock: TickClock)
    ensures Receive(WireOctets(st, calls, clock)) == Some(NalusOnWire(st, calls))
            <==> AllRecoverable(NalusOnWire(st, calls))
  {
    ReceivedFrom(st, calls, clock);
    DepacketizeExactly(NalusOnWire(st, calls));
  }

  /** A frame with an aggregate in it: one NAL unit of type 24 is sent, its one part is received. */
  lemma AggregateReceived(st: State, data: seq<byte>, pts: int, now: TimeOfDay, clock: TickClock)
    requires st.sock >= 0 && data == [0x00, 0x00, 0x00, 0x01, 0x78, 0x00, 0x01, 0x65]
    ensures var calls := [SendFrame(data, pts, now)];
            && NalusOnWire(st, calls) == [[0x78, 0x00, 0x01, 0x65]]
            && Receive(WireOctets(st, calls, clock)) == Some([[0x65]])
  {
    hide Split, Receive, WireOctets, Depacketize, Payloads, FrameChunks;
    var calls := [SendFrame(data, pts, now)];
    var nalu: seq<byte> := [0x78, 0x00, 0x01, 0x65];
    assert data == WithCode(nalu);
    SplitOne(nalu);
    assert calls[1..] == [];
    NalusStep(st, calls);
    AppendNothing([nalu]);
    ReceivedFrom(st, calls, clock);
    AggregateTakenApart(nalu);
  }

  lemma {:induction false} JoinOfFrames(frames: seq<seq<byte>>)
    requires forall f | f in frames :: Scan(f) == 0
    ensures Join(FlatMap(Split, frames)) == Flatten(frames)
    decreases |frames|
  {
    if frames != [] {
      JoinOfFrames(frames[1..]);
      FlatMapAppend(WithCode, Split(frames[0]), FlatMap(Split, frames[1..]));
      assert frames[0] in frames;
      JoinOfSplit(frames[0]);
    }
  }

  lemma ScanAgain(s: seq<byte>)
    ensures Scan(s[Scan(s)..]) == 0
  {
    ScanFindsFirst(s);
    assert Scan(s) < |s| ==> RecognisedAt(s[Scan(s)..], 0);
  }

  lemma {:induction false} FramesBeginWithCode(st: State, calls: seq<Call>)
    ensures forall f | f in FramesOnWire(st, calls) :: Scan(f) == 0
    decreases |calls|
  {
    if calls != [] {
      FramesBeginWithCode(Next(st, calls[0]), calls[1..]);
      if calls[0].SendFrame? {
        ScanAgain(calls[0].data);
      }
    }
  }

  /** The received NAL units, joined by start codes, are the frames' octets from their first start code on. */
  lemma StreamRecovered(st: State, calls: seq<Call>, clock: TickClock)
    requires AllRecoverable(NalusOnWire(st, calls))
    ensures Receive(WireOctets(st, calls, clock)).Some?
    ensures Join(Receive(WireOctets(st, calls, clock)).value) == Flatten(FramesOnWire(st, calls))
  {
    DeliveredExactly(st, calls, clock);
    FramesBeginWithCode(st, calls);
    JoinOfFrames(FramesOnWire(st, calls));
  }

  // ---------- Connections open and close ----------

  /** What happens to the descriptor behind a start, by the outcomes of `socket` and `connect`. */
  lemma {:induction false} SocketSince(st: State, since: seq<Call>)
    requires NeverStarts(since)
    ensures st.sock >= 0 && Call.Stop !in since ==> RunState(st, since).sock == st.sock
    ensures st.sock < 0 || Call.Stop in since ==> RunState(st, since).sock < 0
    decreases |since|
  {
    if since != [] {
      assert since[0] in since;
      FirstAndRest(since);
      SocketSince(Next(st, since[0]), since[1..]);
    }
  }

  lemma SocketAfterStart(st: State, ssrc: uint32, fd: int, connects: bool, since: seq<Call>)
    requires NeverStarts(since)
    ensures var end := RunState(Next(st, Start(ssrc, fd, connects)), since);
            if fd >= 0 && connects && Call.Stop !in since then end.sock == fd else end.sock < 0
  {
    SocketSince(Next(st, Start(ssrc, fd, connects)), since);
  }

  lemma OneFrame(st: State, frame: Call, clock: TickClock)
    requires frame.SendFrame?
    ensures Trace(st, [frame], clock) == CallsOf(st.sock, Emitted(st, frame, clock))
    ensures NalusOnWire(st, [frame]) == if st.sock >= 0 then Split(frame.data) else []
  {
    assert [frame][1..] == [];
    AppendNothing(CallsOf(st.sock, Emitted(st, frame, clock)));
    NalusStep(st, [frame]);
    AppendNothing(NalusOf(frame));
  }

  /**
   * A start whose socket is created and connects opens the connection: until a stop or the next start,
   * each frame's messages all go to its descriptor, and a receiver gets the frame's NAL units if and
   * only if all are recoverable.
   */
  lemma StartOpens(st: State, ssrc: uint32, fd: int, since: seq<Call>, frame: Call, clock: TickClock)
    requires fd >= 0 && NeverStarts(since) && Call.Stop !in since && frame.SendFrame?
    ensures var open := RunState(Next(st, Start(ssrc, fd, true)), since);
            var sent := Trace(open, [frame], clock);
            && OnWire(sent) == sent && Messages(sent) == Emitted(open, frame, clock)
            && (forall c | c in sent :: c.fd == fd)
            && (Receive(WireOctets(open, [frame], clock)) == Some(Split(frame.data))
                <==> AllRecoverable(Split(frame.data)))
  {
    hide Split, Receive, WireOctets, Emitted, RunState, Next, NeverStarts, AllRecoverable;
    var open := RunState(Next(st, Start(ssrc, fd, true)), since);
    SocketAfterStart(st, ssrc, fd, true, since);
    OneFrame(open, frame, clock);
    OnWireOfCalls(open.sock, Emitted(open, frame, clock));
    MessagesOfCalls(open.sock, Emitted(open, frame, clock));
    DeliveredExactly(open, [frame], clock);
  }

  /** A start that fails, and a stop, keep the wire silent until the next start. */
  lemma NoConnection(st: State, call: Call, since: seq<Call>, clock: TickClock)
    requires call.Stop? || (call.Start? && !(call.fd >= 0 && call.connects))
    requires NeverStarts(since)
    ensures OnWire(Trace(Next(st, call), since, clock)) == []
  {
    SilentUntilStart(Next(st, call), since, clock);
  }

  // ---------- Reports against the wire ----------

  /** The packets and payload octets of the frames sent while no connection was open. */
  function LostPackets(st: State, calls: seq<Call>): nat
    decreases |calls|
  {
    if calls == [] then 0
    else (if st.sock < 0 then Sum(PacketCost, NalusOf(calls[0])) else 0) + LostPackets(Next(st, calls[0]), calls[1..])
  }

  function LostOctets(st: State, calls: seq<Call>): nat
    decreases |calls|
  {
    if calls == [] then 0
    else (if st.sock < 0 then Sum(OctetCost, NalusOf(calls[0])) else 0) + LostOctets(Next(st, calls[0]), calls[1..])
  }

  lemma SumAppend(cost: seq<byte> -> nat, xs: seq<seq<byte>>, ys: seq<seq<byte>>)
    ensures Sum(cost, xs + ys) == Sum(cost, xs) + Sum(cost, ys)
  {
    if xs == [] {
      AppendNothing(ys);
    } else {
      SumAppend(cost, xs[1..], ys);
      RestOfAppend(xs, ys);
    }
  }

  lemma {:induction false} SentIsWirePlusLost(st: State, calls: seq<Call>)
    ensures Sum(PacketCost, RunNalus(calls)) == Sum(PacketCost, NalusOnWire(st, calls)) + LostPackets(st, calls)
    ensures Sum(OctetCost, RunNalus(calls)) == Sum(OctetCost, NalusOnWire(st, calls)) + LostOctets(st, calls)
    decreases |calls|
  {
    if calls != [] {
      var st', rest := Next(st, calls[0]), calls[1..];
      SentIsWirePlusLost(st', rest);
      NalusStep(st, calls);
      var here := NalusOf(calls[0]);
      var wired := if st.sock >= 0 then here else [];
      SumAppend(PacketCost, here, RunNalus(rest));
      SumAppend(OctetCost, here, RunNalus(rest));
      SumAppend(PacketCost, wired, NalusOnWire(st', rest));
      SumAppend(OctetCost, wired, NalusOnWire(st', rest));
    }
  }

  /** What has reached the wire, by its cost. */
  lemma WireCost(st: State, calls: seq<Call>, clock: TickClock)
    ensures var wire := Messages(OnWire(Trace(st, calls, clock)));
            && RtpCount(wire) == Sum(PacketCost, NalusOnWire(st, calls))
            && PayloadOctets(wire) == Sum(OctetCost, NalusOnWire(st, calls))
  {
    WireCarriesNalus(st, calls, clock);
    FrameChunksCost(NalusOnWire(st, calls));
  }

  /** What was sent is what reached the wire and what was lost. */
  lemma SentSplits(st: State, calls: seq<Call>, clock: TickClock)
    ensures var sent, wire := Messages(Trace(st, calls, clock)), Messages(OnWire(Trace(st, calls, clock)));
            && RtpCount(sent) == RtpCount(wire) + LostPackets(st, calls)
            && PayloadOctets(sent) == PayloadOctets(wire) + LostOctets(st, calls)
  {
    RunCarriesNalus(st, calls, clock);
    FrameChunksCost(RunNalus(calls));
    WireCost(st, calls, clock);
    SentIsWirePlusLost(st, calls);
  }

  /** A wrapped count that includes what was lost is right exactly when the loss is a multiple of 2^32. */
  lemma WrappedLoss(all: nat, kept: nat, lost: nat)
    requires all == kept + lost
    ensures ToUint32(all) == ToUint32(kept) <==> lost % 0x1_0000_0000 == 0
  {
  }

  /** The report a frame triggers states the counters as they stand after that call. */
  lemma ReportStatesCounters(st: State, call: Call, clock: TickClock)
    requires call.SendFrame? && ReportDue(st, call.pts)
    ensures var ms := Emitted(st, call, clock);
            ms != [] && ms[|ms| - 1] == ReportOf(Next(st, call), Timestamp(st, call.pts, clock), call.now)
  {
  }

  /**
   * The counters advance whether or not a packet leaves. So after any run the counts a report would
   * state are those of the packets on the wire if and only if the frames sent without a connection
   * hold no packets and no octets (or multiples of 2^32 of them).
   */
  lemma CountsTrueOfWire(ssrc: uint32, calls: seq<Call>, clock: TickClock, ts: uint32, now: TimeOfDay)
    ensures var wire := Messages(OnWire(Trace(Initial(ssrc), calls, clock)));
            var report := ReportOf(RunState(Initial(ssrc), calls), ts, now);
            && (report.packetCount == ToUint32(RtpCount(wire))
                <==> LostPackets(Initial(ssrc), calls) % 0x1_0000_0000 == 0)
            && (report.octetCount == ToUint32(PayloadOctets(wire))
                <==> LostOctets(Initial(ssrc), calls) % 0x1_0000_0000 == 0)
  {
    hide Trace, OnWire, Messages, RtpCount, PayloadOctets, LostPackets, LostOctets, ToUint32, RunState, Truthful;
    var st := Initial(ssrc);
    var wire := Messages(OnWire(Trace(st, calls, clock)));
    CountersTruthful(ssrc, calls, clock);
    SentSplits(st, calls, clock);
    WrappedLoss(RtpCount(wire) + LostPackets(st, calls), RtpCount(wire), LostPackets(st, calls));
    WrappedLoss(PayloadOctets(wire) + LostOctets(st, calls), PayloadOctets(wire), LostOctets(st, calls));
  }

  /** The same of the report that a frame really sends, after any calls before it. */
  lemma ReportTrueOfWire(ssrc: uint32, calls: seq<Call>, call: Call, clock: TickClock)
    requires call.SendFrame? && ReportDue(RunState(Initial(ssrc), calls), call.pts)
    ensures var ms := Emitted(RunState(Initial(ssrc), calls), call, clock);
            var wire := Messages(OnWire(Trace(Initial(ssrc), calls + [call], clock)));
            && ms != [] && ms[|ms| - 1].SenderReport?
            && (ms[|ms| - 1].packetCount == ToUint32(RtpCount(wire))
                <==> LostPackets(Initial(ssrc), calls + [call]) % 0x1_0000_0000 == 0)
            && (ms[|ms| - 1].octetCount == ToUint32(PayloadOctets(wire))
                <==> LostOctets(Initial(ssrc), calls + [call]) % 0x1_0000_0000 == 0)
  {
    hide RtpCount, PayloadOctets, LostPackets, LostOctets, OnWire, Trace, ToUint32, Emitted, Next;
    var st := RunState(Initial(ssrc), calls);
    var ts := Timestamp(st, call.pts, clock);
    RunStateAppend(Initial(ssrc), calls, [call]);
    assert [call][1..] == [];
    ReportStatesCounters(st, call, clock);
    CountsTrueOfWire(ssrc, calls + [call], clock, ts, call.now);
  }

  // ---------- Reports against their own SSRC ----------

  lemma StartKeepsLedger(st: State, ms: seq<Message>, start: Call)
    requires start.Start? && Ledger(st, ms)
    ensures Ledger(Next(st, start), ms)
  {
  }

  /** After a start, the counters are what was counted before it and what was sent since. */
  lemma CountsSince(ssrc: uint32, before: seq<Call>, start: Call, since: seq<Call>, clock: TickClock)
    requires start.Start?
    ensures var started := Next(RunState(Initial(ssrc), before), start);
            var earlier, own := Messages(Trace(Initial(ssrc), before, clock)), Messages(Trace(started, since, clock));
            && RunState(started, since).packets == ToUint32(RtpCount(earlier) + RtpCount(own))
            && RunState(started, since).octets == ToUint32(PayloadOctets(earlier) + PayloadOctets(own))
  {
    hide Trace, Next, Emitted, ToUint32, ChunksOf, TotalSize;
    var st := RunState(Initial(ssrc), before);
    var earlier, own := Messages(Trace(Initial(ssrc), before, clock)), Messages(Trace(Next(st, start), since, clock));
    CountersTruthful(ssrc, before, clock);
    StartKeepsLedger(st, earlier, start);
    RunKeepsLedger(Next(st, start), earlier, since, clock);
    ChunksOfAppend(earlier, own);
    TotalSizeAppend(ChunksOf(earlier), ChunksOf(own));
  }

  lemma NeverStartsSnoc(calls: seq<Call>, call: Call)
    requires NeverStarts(calls) && !call.Start?
    ensures NeverStarts(calls + [call])
  {
  }

  /** A report sent since a start: its SSRC is that of everything since, its counts are of everything ever. */
  lemma ReportSince(ssrc: uint32, before: seq<Call>, start: Call, since: seq<Call>, call: Call, clock: TickClock)
    requires start.Start? && NeverStarts(since) && call.SendFrame?
    requires ReportDue(RunState(Next(RunState(Initial(ssrc), before), start), since), call.pts)
    ensures var started := Next(RunState(Initial(ssrc), before), start);
            var ms := Emitted(RunState(started, since), call, clock);
            var trace := Trace(started, since + [call], clock);
            var earlier := Messages(Trace(Initial(ssrc), before, clock));
            && ms != [] && ms[|ms| - 1].SenderReport?
            && (forall c | c in trace :: c.message.ssrc == ms[|ms| - 1].ssrc == start.newSsrc)
            && ms[|ms| - 1].packetCount == ToUint32(RtpCount(earlier) + RtpCount(Messages(trace)))
            && ms[|ms| - 1].octetCount == ToUint32(PayloadOctets(earlier) + PayloadOctets(Messages(trace)))
  {
    hide RtpCount, PayloadOctets, Trace, ToUint32, Emitted, RunState, Messages, Count, NeverStarts, AfterPackets;
    var started := Next(RunState(Initial(ssrc), before), start);
    RunSnoc(started, since, call, clock);
    ReportStatesCounters(RunState(started, since), call, clock);
    NeverStartsSnoc(since, call);
    SsrcHeld(started, since + [call], clock);
    SsrcKept(started, since + [call]);
    CountsSince(ssrc, before, start, since + [call], clock);
  }

  /**
   * Section 6.4.1 of RFC 3550 counts per SSRC, and a start draws a new one without resetting the counters.
   * Everything sent since the last start carries the report's SSRC, and the report's counts are those of
   * these packets if and only if all packets (and octets) sent before that start make a multiple of 2^32.
   */
  lemma ReportTrueOfSsrc(ssrc: uint32, before: seq<Call>, start: Call, since: seq<Call>, call: Call, clock: TickClock)
    requires start.Start? && NeverStarts(since) && call.SendFrame?
    requires ReportDue(RunState(Next(RunState(Initial(ssrc), before), start), since), call.pts)
    ensures var started := Next(RunState(Initial(ssrc), before), start);
            var ms := Emitted(RunState(started, since), call, clock);
            var trace := Trace(started, since + [call], clock);
            var earlier := Messages(Trace(Initial(ssrc), before, clock));
            && ms != [] && ms[|ms| - 1].SenderReport?
            && (forall c | c in trace :: c.message.ssrc == ms[|ms| - 1].ssrc == start.newSsrc)
            && (ms[|ms| - 1].packetCount == ToUint32(RtpCount(Messages(trace)))
                <==> RtpCount(earlier) % 0x1_0000_0000 == 0)
            && (ms[|ms| - 1].octetCount == ToUint32(PayloadOctets(Messages(trace)))
                <==> PayloadOctets(earlier) % 0x1_0000_0000 == 0)
  {
    hide RtpCount, PayloadOctets, Trace, ToUint32, Emitted, RunState, Messages, NeverStarts, Next;
    var started := Next(RunState(Initial(ssrc), before), start);
    var earlier, own := Messages(Trace(Initial(ssrc), before, clock)), Messages(Trace(started, since + [call], clock));
    ReportSince(ssrc, before, start, since, call, clock);
    WrappedLoss(RtpCount(earlier) + RtpCount(own), RtpCount(own), RtpCount(earlier));
    WrappedLoss(PayloadOctets(earlier) + PayloadOctets(own), PayloadOctets(own), PayloadOctets(earlier));
  }

  /**
   * What a receiver of that SSRC sees: the report's counts are those of the packets on the wire since the
   * start if and only if what was sent before it and what was lost since make a multiple of 2^32 together.
   */
  lemma ReportTrueForReceiver(ssrc: uint32, before: seq<Call>, start: Call, since: seq<Call>, call: Call,
                              clock: TickClock)
    requires start.Start? && NeverStarts(since) && call.SendFrame?
    requires ReportDue(RunState(Next(RunState(Initial(ssrc), before), start), since), call.pts)
    ensures var started := Next(RunState(Initial(ssrc), before), start);
            var ms := Emitted(RunState(started, since), call, clock);
            var wire := Messages(OnWire(Trace(started, since + [call], clock)));
            var earlier := Messages(Trace(Initial(ssrc), before, clock));
            && ms != [] && ms[|ms| - 1].SenderReport?
            && (ms[|ms| - 1].packetCount == ToUint32(RtpCount(wire))
                <==> (RtpCount(earlier) + LostPackets(started, since + [call])) % 0x1_0000_0000 == 0)
            && (ms[|ms| - 1].octetCount == ToUint32(PayloadOctets(wire))
                <==> (PayloadOctets(earlier) + LostOctets(started, since + [call])) % 0x1_0000_0000 == 0)
  {
    hide RtpCount, PayloadOctets, Trace, ToUint32, Emitted, RunState, Messages, NeverStarts, Next, OnWire;
    hide LostPackets, LostOctets;
    var started := Next(RunState(Initial(ssrc), before), start);
    var calls := since + [call];
    var earlier, wire := Messages(Trace(Initial(ssrc), before, clock)), Messages(OnWire(Trace(started, calls, clock)));
    var packets, octets := LostPackets(started, calls), LostOctets(started, calls);
    ReportSince(ssrc, before, start, since, call, clock);
    SentSplits(started, calls, clock);
    packets, octets := RtpCount(earlier) + packets, PayloadOctets(earlier) + octets;
    WrappedLoss(packets + RtpCount(wire), RtpCount(wire), packets);
    WrappedLoss(octets + PayloadOctets(wire), PayloadOctets(wire), octets);
  }

  // ---------- Runs that miscount ----------

  /** A frame sent before the first start is counted and never leaves. */
  lemma LostFrame(ssrc: uint32, data: seq<byte>, pts: int, now: TimeOfDay, clock: TickClock)
    ensures var calls := [SendFrame(data, pts, now)];
            && RunState(Initial(ssrc), calls) == Next(Initial(ssrc), calls[0])
            && OnWire(Trace(Initial(ssrc), calls, clock)) == []
  {
    var calls := [SendFrame(data, pts, now)];
    assert calls[1..] == [];
    SilentUntilStart(Initial(ssrc), calls, clock);
  }

  lemma SmallestFrame(data: seq<byte>)
    requires data == [0, 0, 0, 1, 0x65]
    ensures Sum(PacketCost, Split(data)) == 1
  {
    assert data == WithCode([0x65]);
    SplitOne([0x65]);
    assert Split(data)[1..] == [];
  }

  /** The smallest frame is one packet, whatever the state. */
  lemma OnePacket(st: State, data: seq<byte>, pts: int, now: TimeOfDay, clock: TickClock)
    requires data == [0, 0, 0, 1, 0x65]
    ensures var call := SendFrame(data, pts, now);
            var ms := Emitted(st, call, clock);
            && Next(st, call).packets == ToUint32(st.packets + 1)
            && Next(st, call).lastSrPts == (if ReportDue(st, pts) then pts else st.lastSrPts)
            && |ms| == (if ReportDue(st, pts) then 2 else 1)
            && ms[0].Rtp? && ms[0].ssrc == st.ssrc
            && (ReportDue(st, pts) ==> ms[1] == ReportOf(Next(st, call), Timestamp(st, pts, clock), now))
            && Next(st, call).ssrc == st.ssrc
  {
    hide Split, NaluChunks, FlatMap, Sum;
    SmallestFrame(data);
    FrameCost(st, data, pts, now);
    FrameChunksCost(Split(data));
  }

  /** So the counts do go wrong: here one packet is counted and none is on the wire. */
  lemma CountsWrongOfWire(ssrc: uint32, data: seq<byte>, now: TimeOfDay, clock: TickClock)
    requires data == [0, 0, 0, 1, 0x65]
    ensures var calls := [SendFrame(data, 0, now)];
            && RunState(Initial(ssrc), calls).packets == 1
            && OnWire(Trace(Initial(ssrc), calls, clock)) == []
  {
    LostFrame(ssrc, data, 0, now, clock);
    SmallestFrame(data);
    FrameCost(Initial(ssrc), data, 0, now);
  }

  /** And of an SSRC: one packet is sent before a start and one behind it, and the report counts two. */
  lemma CountsWrongOfSsrc(ssrc: uint32, newSsrc: uint32, data: seq<byte>, now: TimeOfDay, clock: TickClock)
    requires data == [0, 0, 0, 1, 0x65] && newSsrc != 0
    ensures var earlier := RunState(Initial(ssrc), [SendFrame(data, 0, now)]);
            var ms := Emitted(Next(earlier, Start(newSsrc, 3, true)), SendFrame(data, 1_000_000, now), clock);
            && |ms| == 2 && ms[0].Rtp? && ms[1].SenderReport?
            && ms[0].ssrc == ms[1].ssrc == newSsrc
            && ms[1].packetCount == 2
  {
    LostFrame(ssrc, data, 0, now, clock);
    OnePacket(Initial(ssrc), data, 0, now, clock);
    var earlier := Next(Initial(ssrc), SendFrame(data, 0, now));
    OnePacket(Next(earlier, Start(newSsrc, 3, true)), data, 1_000_000, now, clock);
  }
}
