/** Whole runs: any list of calls, made in any state. */
module Runs {
  import opened Bytes
  import opened AnnexB
  import opened Payload
  import opened Wire
  import opened Sender

  function RunState(st: State, calls: seq<Call>): State
    decreases |calls|
  {
    if calls == [] then st else RunState(Next(st, calls[0]), calls[1..])
  }

  /** Everything handed to `send(2)` during a run, in order. */
  function Trace(st: State, calls: seq<Call>, clock: TickClock): seq<SendCall>
    decreases |calls|
  {
    if calls == [] then []
    else CallsOf(st.sock, Emitted(st, calls[0], clock)) + Trace(Next(st, calls[0]), calls[1..], clock)
  }

  function Messages(trace: seq<SendCall>): (ms: seq<Message>)
    ensures |ms| == |trace|
  {
    seq(|trace|, i requires 0 <= i < |trace| => trace[i].message)
  }

  lemma MessagesAppend(xs: seq<SendCall>, ys: seq<SendCall>)
    ensures Messages(xs + ys) == Messages(xs) + Messages(ys)
  {
  }

  lemma MessagesOfCalls(fd: int, ms: seq<Message>)
    ensures Messages(CallsOf(fd, ms)) == ms
  {
  }

  lemma RunStateAppend(st: State, xs: seq<Call>, ys: seq<Call>)
    ensures RunState(st, xs + ys) == RunState(RunState(st, xs), ys)
    decreases |xs|
  {
    if xs == [] {
      AppendNothing(ys);
    } else {
      RunStateAppend(Next(st, xs[0]), xs[1..], ys);
      RestOfAppend(xs, ys);
    }
  }

  lemma TraceAppend(st: State, xs: seq<Call>, ys: seq<Call>, clock: TickClock)
    ensures Trace(st, xs + ys, clock) == Trace(st, xs, clock) + Trace(RunState(st, xs), ys, clock)
    decreases |xs|
  {
    if xs == [] {
      AppendNothing(ys);
      AppendNothing(Trace(st, ys, clock));
    } else {
      var next := Next(st, xs[0]);
      TraceAppend(next, xs[1..], ys, clock);
      RestOfAppend(xs, ys);
      var first := CallsOf(st.sock, Emitted(st, xs[0], clock));
      AppendAssoc(first, Trace(next, xs[1..], clock), Trace(RunState(st, xs), ys, clock));
    }
  }

  lemma RunSnoc(st: State, calls: seq<Call>, call: Call, clock: TickClock)
    ensures RunState(st, calls + [call]) == Next(RunState(st, calls), call)
    ensures Trace(st, calls + [call], clock)
            == Trace(st, calls, clock) + CallsOf(RunState(st, calls).sock, Emitted(RunState(st, calls), call, clock))
  {
    var mid := RunState(st, calls);
    RunStateAppend(st, calls, [call]);
    TraceAppend(st, calls, [call], clock);
    assert [call][1..] == [];
    AppendNothing(CallsOf(mid.sock, Emitted(mid, call, clock)));
  }

  // ---------- Counters against the log ----------

  /** The payloads and markers of the RTP packets among some messages. */
  function ChunksOf(ms: seq<Message>): seq<Chunk> {
    if ms == [] then []
    else (if ms[0].Rtp? then [Chunk(ms[0].payload, ms[0].marker)] else []) + ChunksOf(ms[1..])
  }

  lemma ChunksOfAppend(xs: seq<Message>, ys: seq<Message>)
    ensures ChunksOf(xs + ys) == ChunksOf(xs) + ChunksOf(ys)
  {
    if xs == [] {
      AppendNothing(ys);
    } else {
      ChunksOfAppend(xs[1..], ys);
      RestOfAppend(xs, ys);
    }
  }

  /** How many RTP packets a list of messages holds, and how many payload octets they carry. */
  function RtpCount(ms: seq<Message>): nat { |ChunksOf(ms)| }

  function PayloadOctets(ms: seq<Message>): nat { TotalSize(ChunksOf(ms)) }

  lemma CountSnoc(ms: seq<Message>, m: Message)
    ensures RtpCount(ms + [m]) == RtpCount(ms) + if m.Rtp? then 1 else 0
    ensures PayloadOctets(ms + [m]) == PayloadOctets(ms) + if m.Rtp? then |m.payload| else 0
  {
    ChunksOfAppend(ms, [m]);
    assert [m][1..] == [];
    TotalSizeAppend(ChunksOf(ms), ChunksOf([m]));
    if m.Rtp? {
      assert ChunksOf([m]) == [Chunk(m.payload, m.marker)];
      assert [Chunk(m.payload, m.marker)][1..] == [];
    }
  }

  /** Message `i` tells the truth about the messages before it. */
  ghost predicate TruthfulAt(ms: seq<Message>, i: nat)
    requires i < |ms|
  {
    match ms[i]
    case Rtp(_, sequence, _, _, _) => sequence == ToUint16(RtpCount(ms[..i]))
    case SenderReport(_, _, _, _, packetCount, octetCount) =>
      packetCount == ToUint32(RtpCount(ms[..i])) && octetCount == ToUint32(PayloadOctets(ms[..i]))
  }

  ghost predicate Truthful(ms: seq<Message>) {
    forall i | 0 <= i < |ms| :: TruthfulAt(ms, i)
  }

  /** The state's counters agree with everything sent so far. */
  ghost predicate Ledger(st: State, ms: seq<Message>) {
    && st.nextSeq == ToUint16(RtpCount(ms))
    && st.packets == ToUint32(RtpCount(ms))
    && st.octets == ToUint32(PayloadOctets(ms))
  }

  lemma TruthfulSnoc(ms: seq<Message>, m: Message)
    requires Truthful(ms) && TruthfulAt(ms + [m], |ms|)
    ensures Truthful(ms + [m])
  {
    forall i | 0 <= i < |ms|
      ensures TruthfulAt(ms + [m], i)
    {
      assert TruthfulAt(ms, i) && (ms + [m])[..i] == ms[..i];
    }
  }

  lemma OnePacketKeepsLedger(st: State, ms: seq<Message>, c: Chunk, ts: uint32)
    requires Ledger(st, ms) && Truthful(ms)
    ensures var more := ms + RtpOf(st, [c], ts); Ledger(Count(st, [c]), more) && Truthful(more)
  {
    var m := Rtp(c.marker, st.nextSeq, ts, st.ssrc, c.payload);
    assert RtpOf(st, [c], ts) == [m];
    DropLast(ms, m);
    CountSnoc(ms, m);
    assert [c][1..] == [];
    assert TotalSize([c]) == |c.payload|;
    WrapEarly16(RtpCount(ms), 1);
    WrapEarly32(RtpCount(ms), 1);
    WrapEarly32(PayloadOctets(ms), |c.payload|);
    TruthfulSnoc(ms, m);
  }

  lemma {:induction false} PacketsKeepLedger(st: State, ms: seq<Message>, chunks: seq<Chunk>, ts: uint32)
    requires Ledger(st, ms) && Truthful(ms)
    ensures var more := ms + RtpOf(st, chunks, ts); Ledger(Count(st, chunks), more) && Truthful(more)
    decreases |chunks|
  {
    if chunks == [] {
      assert ms + RtpOf(st, chunks, ts) == ms;
    } else {
      var first, rest := [chunks[0]], chunks[1..];
      OnePacketKeepsLedger(st, ms, chunks[0], ts);
      PacketsKeepLedger(Count(st, first), ms + RtpOf(st, first, ts), rest, ts);
      assert chunks == first + rest;
      RtpOfAppend(st, first, rest, ts);
      CountAppend(st, first, rest);
      assert ms + RtpOf(st, first, ts) + RtpOf(Count(st, first), rest, ts) == ms + RtpOf(st, chunks, ts);
    }
  }

  lemma ReportKeepsLedger(st: State, ms: seq<Message>, ts: uint32, now: TimeOfDay)
    requires Ledger(st, ms) && Truthful(ms)
    ensures var more := ms + [ReportOf(st, ts, now)]; Ledger(st, more) && Truthful(more)
  {
    DropLast(ms, ReportOf(st, ts, now));
    CountSnoc(ms, ReportOf(st, ts, now));
    TruthfulSnoc(ms, ReportOf(st, ts, now));
  }

  lemma FrameKeepsLedger(st: State, ms: seq<Message>, data: seq<byte>, pts: int, ts: uint32)
    requires Ledger(st, ms) && Truthful(ms)
    ensures var more := ms + FramePackets(st, data, ts); Ledger(AfterPackets(st, data, pts), more) && Truthful(more)
  {
    PacketsKeepLedger(st, ms, FrameChunks(Split(data)), ts);
  }

  lemma CallKeepsLedger(st: State, ms: seq<Message>, call: Call, clock: TickClock)
    requires Ledger(st, ms) && Truthful(ms)
    ensures var more := ms + Emitted(st, call, clock); Ledger(Next(st, call), more) && Truthful(more)
  {
    match call
    case Start(_, _, _) => AppendNothing(ms);
    case Stop => AppendNothing(ms);
    case SendFrame(data, pts, now) =>
      var ts := Timestamp(st, pts, clock);
      var packets := FramePackets(st, data, ts);
      var after := AfterPackets(st, data, pts);
      FrameKeepsLedger(st, ms, data, pts, ts);
      if ReportDue(st, pts) {
        ReportKeepsLedger(after, ms + packets, ts, now);
        AppendAssoc(ms, packets, [ReportOf(after, ts, now)]);
      } else {
        AppendNothing(packets);
      }
  }

  lemma TraceStep(st: State, calls: seq<Call>, clock: TickClock)
    requires calls != []
    ensures Messages(Trace(st, calls, clock))
            == Emitted(st, calls[0], clock) + Messages(Trace(Next(st, calls[0]), calls[1..], clock))
  {
    var emitted := Emitted(st, calls[0], clock);
    MessagesOfCalls(st.sock, emitted);
    MessagesAppend(CallsOf(st.sock, emitted), Trace(Next(st, calls[0]), calls[1..], clock));
  }

  lemma {:induction false} RunKeepsLedger(st: State, ms: seq<Message>, calls: seq<Call>, clock: TickClock)
    requires Ledger(st, ms) && Truthful(ms)
    ensures var more := ms + Messages(Trace(st, calls, clock)); Ledger(RunState(st, calls), more) && Truthful(more)
    decreases |calls|
  {
    if calls == [] {
      AppendNothing(ms);
    } else {
      var emitted := Emitted(st, calls[0], clock);
      CallKeepsLedger(st, ms, calls[0], clock);
      RunKeepsLedger(Next(st, calls[0]), ms + emitted, calls[1..], clock);
      TraceStep(st, calls, clock);
      AppendAssoc(ms, emitted, Messages(Trace(Next(st, calls[0]), calls[1..], clock)));
    }
  }

  lemma LedgerCoupled(st: State, ms: seq<Message>)
    requires Ledger(st, ms)
    ensures st.nextSeq == st.packets % 0x1_0000
  {
    WrapTwice(RtpCount(ms));
  }

  /**
   * In every run of a session, across frames, reports and restarts: packet `k` carries sequence number
   * `k mod 2^16`, every Sender Report counts exactly the packets and payload octets before it, and the
   * counters end in step with the log.
   */
  lemma CountersTruthful(ssrc: uint32, calls: seq<Call>, clock: TickClock)
    ensures Truthful(Messages(Trace(Initial(ssrc), calls, clock)))
    ensures Ledger(RunState(Initial(ssrc), calls), Messages(Trace(Initial(ssrc), calls, clock)))
    ensures RunState(Initial(ssrc), calls).nextSeq == RunState(Initial(ssrc), calls).packets % 0x1_0000
  {
    var ms := Messages(Trace(Initial(ssrc), calls, clock));
    RunKeepsLedger(Initial(ssrc), [], calls, clock);
    AppendNothing(ms);
    LedgerCoupled(RunState(Initial(ssrc), calls), ms);
  }

  // ---------- What reaches the wire ----------

  function IfOpen(c: SendCall): seq<SendCall> { if c.fd >= 0 then [c] else [] }

  /** Only calls made with an open descriptor put octets on the wire. */
  function OnWire(trace: seq<SendCall>): seq<SendCall> { FlatMap(IfOpen, trace) }

  lemma {:induction false} OnWireOfCalls(fd: int, ms: seq<Message>)
    ensures OnWire(CallsOf(fd, ms)) == if fd >= 0 then CallsOf(fd, ms) else []
    decreases |ms|
  {
    if ms != [] {
      OnWireOfCalls(fd, ms[1..]);
      assert CallsOf(fd, ms)[1..] == CallsOf(fd, ms[1..]);
      FirstAndRest(CallsOf(fd, ms));
    }
  }

  // ---------- Payloads against NAL units ----------

  lemma {:induction false} ChunksOfRtp(st: State, chunks: seq<Chunk>, ts: uint32)
    ensures ChunksOf(RtpOf(st, chunks, ts)) == chunks
    decreases |chunks|
  {
    if chunks != [] {
      var first, rest := [chunks[0]], chunks[1..];
      assert chunks == first + rest;
      RtpOfAppend(st, first, rest, ts);
      ChunksOfAppend(RtpOf(st, first, ts), RtpOf(Count(st, first), rest, ts));
      ChunksOfRtp(Count(st, first), rest, ts);
      assert RtpOf(st, first, ts)[1..] == [];
      assert ChunksOf(RtpOf(st, first, ts)) == first;
    }
  }

  function NalusOf(call: Call): seq<seq<byte>> {
    if call.SendFrame? then Split(call.data) else []
  }

  lemma ChunksOfCall(st: State, call: Call, clock: TickClock)
    ensures ChunksOf(Emitted(st, call, clock)) == FrameChunks(NalusOf(call))
  {
    if call.SendFrame? {
      var ts := Timestamp(st, call.pts, clock);
      var packets := FramePackets(st, call.data, ts);
      ChunksOfRtp(st, FrameChunks(Split(call.data)), ts);
      if ReportDue(st, call.pts) {
        var report := ReportOf(AfterPackets(st, call.data, call.pts), ts, call.now);
        ChunksOfAppend(packets, [report]);
        assert [report][1..] == [] && ChunksOf([report]) == [];
        assert ChunksOf(packets) + [] == ChunksOf(packets);
      } else {
        assert packets + [] == packets;
      }
    }
  }

  /** The NAL units of a run's frames, in order. */
  function RunNalus(calls: seq<Call>): seq<seq<byte>> {
    FlatMap(NalusOf, calls)
  }

  /** Whatever reports lie between them, the RTP packets of a run carry the NAL units of its frames. */
  lemma {:induction false} RunCarriesNalus(st: State, calls: seq<Call>, clock: TickClock)
    ensures ChunksOf(Messages(Trace(st, calls, clock))) == FrameChunks(RunNalus(calls))
    decreases |calls|
  {
    if calls != [] {
      RunCarriesNalus(Next(st, calls[0]), calls[1..], clock);
      ChunksOfCall(st, calls[0], clock);
      TraceStep(st, calls, clock);
      ChunksOfAppend(Emitted(st, calls[0], clock), Messages(Trace(Next(st, calls[0]), calls[1..], clock)));
      FlatMapAppend(NaluChunks, NalusOf(calls[0]), RunNalus(calls[1..]));
    }
  }

  // ---------- Markers ----------

  /** Cuts a packet list after every marked packet; `open` holds the packets since the last cut. */
  function CutAtMarkers(chunks: seq<Chunk>, open: seq<Chunk>): seq<seq<Chunk>>
    decreases |chunks|
  {
    if chunks == [] then if open == [] then [] else [open]
    else if chunks[0].marker then [open + [chunks[0]]] + CutAtMarkers(chunks[1..], [])
    else CutAtMarkers(chunks[1..], open + [chunks[0]])
  }

  function MarkerCount(chunks: seq<Chunk>): nat {
    if chunks == [] then 0 else (if chunks[0].marker then 1 else 0) + MarkerCount(chunks[1..])
  }

  ghost predicate MarkedGroup(group: seq<Chunk>) {
    group != [] && forall k | 0 <= k < |group| :: group[k].marker <==> k == |group| - 1
  }

  lemma NaluIsMarkedGroup(nalu: seq<byte>)
    ensures MarkedGroup(NaluChunks(nalu))
  {
    var chunks := NaluChunks(nalu);
    if |nalu| > MTU {
      FragmentShape(nalu, 0);
      forall k | 0 <= k < |chunks|
        ensures chunks[k].marker <==> k == |chunks| - 1
      {
        FragmentShape(nalu, k);
      }
    }
  }

  lemma {:induction false} CutAfterGroup(group: seq<Chunk>, rest: seq<Chunk>, open: seq<Chunk>)
    requires MarkedGroup(group)
    ensures CutAtMarkers(group + rest, open) == [open + group] + CutAtMarkers(rest, [])
    ensures MarkerCount(group + rest) == 1 + MarkerCount(rest)
    decreases |group|
  {
    assert (group + rest)[0] == group[0];
    assert (group + rest)[1..] == group[1..] + rest;
    if |group| == 1 {
      assert group[1..] + rest == rest && group == [group[0]];
    } else {
      CutAfterGroup(group[1..], rest, open + [group[0]]);
      assert open + [group[0]] + group[1..] == open + group;
    }
  }

  lemma {:induction false} CutFrameChunks(nalus: seq<seq<byte>>)
    ensures var groups := CutAtMarkers(FrameChunks(nalus), []);
            |groups| == |nalus| && forall k | 0 <= k < |nalus| :: groups[k] == NaluChunks(nalus[k])
    ensures MarkerCount(FrameChunks(nalus)) == |nalus|
    decreases |nalus|
  {
    if nalus != [] {
      CutFrameChunks(nalus[1..]);
      NaluIsMarkedGroup(nalus[0]);
      CutAfterGroup(NaluChunks(nalus[0]), FrameChunks(nalus[1..]), []);
      assert [] + NaluChunks(nalus[0]) == NaluChunks(nalus[0]);
    }
  }

  /**
   * Over any run there is one marked packet per NAL unit (not per access unit), and cutting the packets
   * after each marked one gives exactly the packets of each NAL unit.
   */
  lemma MarkersDelimitNalus(st: State, calls: seq<Call>, clock: TickClock)
    ensures var chunks := ChunksOf(Messages(Trace(st, calls, clock)));
            var nalus := RunNalus(calls);
            var groups := CutAtMarkers(chunks, []);
            && MarkerCount(chunks) == |nalus| == |groups|
            && forall k | 0 <= k < |nalus| :: groups[k] == NaluChunks(nalus[k])
  {
    RunCarriesNalus(st, calls, clock);
    CutFrameChunks(RunNalus(calls));
  }

  /**
   * Section 5.1 of RFC 6184 wants the marker on the last packet of the access unit. The packets of a
   * frame are marked that way exactly when the frame holds at most one NAL unit.
   */
  lemma MarkerPerAccessUnitExactly(data: seq<byte>)
    ensures var chunks := FrameChunks(Split(data));
            (chunks == [] || MarkedGroup(chunks)) <==> |Split(data)| <= 1
  {
    hide NaluChunks, Split;
    var nalus := Split(data);
    if nalus != [] {
      var first, rest := NaluChunks(nalus[0]), FrameChunks(nalus[1..]);
      NaluIsMarkedGroup(nalus[0]);
      if |nalus| == 1 {
        AppendNothing(first);
      } else {
        NaluIsMarkedGroup(nalus[1]);
        assert FrameChunks(nalus) == first + rest;
        assert rest == NaluChunks(nalus[1..][0]) + FrameChunks(nalus[1..][1..]);
        assert FrameChunks(nalus)[|first| - 1].marker;
      }
    }
  }

  /** A frame of two NAL units, whose first packet is marked as well as its last. */
  lemma MarkerInsideAccessUnit(data: seq<byte>)
    requires data == [0, 0, 0, 1, 0x67, 0, 0, 0, 1, 0x65]
    ensures Split(data) == [[0x67], [0x65]]
    ensures FrameChunks(Split(data)) != [] && !MarkedGroup(FrameChunks(Split(data)))
  {
    SplitOne([0x65]);
    SplitFirst([0x67], WithCode([0x65]));
    assert data == WithCode([0x67]) + WithCode([0x65]);
    MarkerPerAccessUnitExactly(data);
  }

  // ---------- Costs ----------

  function PacketCost(nalu: seq<byte>): nat {
    if |nalu| <= MTU then 1 else FragmentCount(|nalu|)
  }

  function OctetCost(nalu: seq<byte>): nat {
    if |nalu| <= MTU then |nalu| else |nalu| - 1 + 2 * FragmentCount(|nalu|)
  }

  function Sum(cost: seq<byte> -> nat, nalus: seq<seq<byte>>): nat {
    if nalus == [] then 0 else cost(nalus[0]) + Sum(cost, nalus[1..])
  }

  lemma {:induction false} FrameChunksCost(nalus: seq<seq<byte>>)
    ensures |FrameChunks(nalus)| == Sum(PacketCost, nalus)
    ensures TotalSize(FrameChunks(nalus)) == Sum(OctetCost, nalus)
    decreases |nalus|
  {
    if nalus != [] {
      NaluCost(nalus[0]);
      FrameChunksCost(nalus[1..]);
      TotalSizeAppend(NaluChunks(nalus[0]), FrameChunks(nalus[1..]));
    }
  }

  /** What one frame adds to the counters, in closed form. */
  lemma FrameCost(st: State, data: seq<byte>, pts: int, now: TimeOfDay)
    ensures var after := Next(st, SendFrame(data, pts, now));
            && after.packets == ToUint32(st.packets + Sum(PacketCost, Split(data)))
            && after.octets == ToUint32(st.octets + Sum(OctetCost, Split(data)))
  {
    hide Split, FlatMap, Sum, TotalSize, ToUint32;
    FrameChunksCost(Split(data));
  }

  // ---------- Start and Stop ----------

  ghost predicate NeverStarts(calls: seq<Call>) {
    forall c | c in calls :: !c.Start?
  }

  /** Between two starts everything sent carries the SSRC drawn at the first. */
  lemma {:induction false} SsrcHeld(st: State, calls: seq<Call>, clock: TickClock)
    requires NeverStarts(calls)
    ensures forall c | c in Trace(st, calls, clock) :: c.message.ssrc == st.ssrc
    decreases |calls|
  {
    if calls != [] {
      assert calls[0] in calls;
      SsrcHeld(Next(st, calls[0]), calls[1..], clock);
      forall c | c in CallsOf(st.sock, Emitted(st, calls[0], clock))
        ensures c.message.ssrc == st.ssrc
      {
        assert c.message in Emitted(st, calls[0], clock);
      }
    }
  }

  lemma {:induction false} SsrcKept(st: State, calls: seq<Call>)
    requires NeverStarts(calls)
    ensures RunState(st, calls).ssrc == st.ssrc
    decreases |calls|
  {
    if calls != [] {
      assert calls[0] in calls;
      SsrcKept(Next(st, calls[0]), calls[1..]);
    }
  }

  /** Without a connection nothing reaches the wire until the next start, whatever is sent. */
  lemma {:induction false} SilentUntilStart(st: State, calls: seq<Call>, clock: TickClock)
    requires st.sock < 0 && NeverStarts(calls)
    ensures OnWire(Trace(st, calls, clock)) == []
    decreases |calls|
  {
    if calls != [] {
      assert calls[0] in calls;
      var emitted := Emitted(st, calls[0], clock);
      SilentUntilStart(Next(st, calls[0]), calls[1..], clock);
      OnWireOfCalls(st.sock, emitted);
      FlatMapAppend(IfOpen, CallsOf(st.sock, emitted), Trace(Next(st, calls[0]), calls[1..], clock));
    }
  }
}
