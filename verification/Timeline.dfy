/** Presentation times over whole runs: when reports are sent and what timestamps packets carry. */
module Timeline {
  import opened Bytes
  import opened AnnexB
  import opened Payload
  import opened Wire
  import opened Sender
  import opened Runs
  import opened Clock

  // ---------- Pacing of Sender Reports ----------

  predicate Reports(st: State, call: Call) {
    call.SendFrame? && ReportDue(st, call.pts)
  }

  /** The presentation times of the frames after which a run sends its reports. */
  function ReportTimes(st: State, calls: seq<Call>): seq<int>
    decreases |calls|
  {
    if calls == [] then []
    else (if Reports(st, calls[0]) then [calls[0].pts] else []) + ReportTimes(Next(st, calls[0]), calls[1..])
  }

  function ReportCount(ms: seq<Message>): nat {
    if ms == [] then 0 else (if ms[0].SenderReport? then 1 else 0) + ReportCount(ms[1..])
  }

  lemma ReportCountAppend(xs: seq<Message>, ys: seq<Message>)
    ensures ReportCount(xs + ys) == ReportCount(xs) + ReportCount(ys)
  {
    if xs == [] {
      AppendNothing(ys);
    } else {
      ReportCountAppend(xs[1..], ys);
      RestOfAppend(xs, ys);
    }
  }

  lemma {:induction false} PacketsHoldNoReport(ms: seq<Message>)
    requires forall m | m in ms :: m.Rtp?
    ensures ReportCount(ms) == 0
  {
    if ms != [] {
      assert ms[0] in ms;
      PacketsHoldNoReport(ms[1..]);
    }
  }

  lemma ReportsOfCall(st: State, call: Call, clock: TickClock)
    ensures ReportCount(Emitted(st, call, clock)) == if Reports(st, call) then 1 else 0
  {
    if call.SendFrame? {
      var ts := Timestamp(st, call.pts, clock);
      var packets := FramePackets(st, call.data, ts);
      PacketsHoldNoReport(packets);
      if ReportDue(st, call.pts) {
        var report := ReportOf(AfterPackets(st, call.data, call.pts), ts, call.now);
        ReportCountAppend(packets, [report]);
        assert [report][1..] == [];
      } else {
        AppendNothing(packets);
      }
    }
  }

  lemma {:induction false} ReportTimesCount(st: State, calls: seq<Call>, clock: TickClock)
    ensures |ReportTimes(st, calls)| == ReportCount(Messages(Trace(st, calls, clock)))
    decreases |calls|
  {
    if calls != [] {
      ReportTimesCount(Next(st, calls[0]), calls[1..], clock);
      TraceStep(st, calls, clock);
      ReportCountAppend(Emitted(st, calls[0], clock), Messages(Trace(Next(st, calls[0]), calls[1..], clock)));
      ReportsOfCall(st, calls[0], clock);
    }
  }

  /**
   * Each time is at least a second after the one before it (`last` for the first), and, from the
   * first bounded one on, less than a second and `gap` after it.
   */
  ghost predicate Paced(last: int, times: seq<int>, bounded: bool, gap: int)
    decreases |times|
  {
    times != [] ==>
      && times[0] - last >= SR_INTERVAL
      && (bounded ==> times[0] - last < SR_INTERVAL + gap)
      && Paced(times[0], times[1..], true, gap)
  }

  /** Consecutive frames are at most `gap` apart; `previous` is the frame before the first, if any. */
  ghost predicate FramesWithin(previous: Option<int>, calls: seq<Call>, gap: int)
    decreases |calls|
  {
    calls != [] ==>
      if calls[0].SendFrame? then
        && (previous.Some? ==> calls[0].pts - previous.value <= gap)
        && FramesWithin(Some(calls[0].pts), calls[1..], gap)
      else FramesWithin(previous, calls[1..], gap)
  }

  lemma PacedUnbounded(last: int, times: seq<int>, gap: int)
    requires Paced(last, times, true, gap)
    ensures Paced(last, times, false, gap)
  {
  }

  lemma {:induction false} ReportsPaced(st: State, calls: seq<Call>, previous: Option<int>, gap: int)
    requires previous.Some? ==> previous.value < st.lastSrPts + SR_INTERVAL
    requires FramesWithin(previous, calls, gap)
    ensures Paced(st.lastSrPts, ReportTimes(st, calls), previous.Some?, gap)
    decreases |calls|
  {
    if calls != [] {
      var call := calls[0];
      if call.SendFrame? {
        ReportsPaced(Next(st, call), calls[1..], Some(call.pts), gap);
        if ReportDue(st, call.pts) {
          DropFirst(call.pts, ReportTimes(Next(st, call), calls[1..]));
        } else if previous.None? {
          PacedUnbounded(st.lastSrPts, ReportTimes(Next(st, call), calls[1..]), gap);
          AppendNothing(ReportTimes(Next(st, call), calls[1..]));
        } else {
          AppendNothing(ReportTimes(Next(st, call), calls[1..]));
        }
      } else {
        ReportsPaced(Next(st, call), calls[1..], previous, gap);
        AppendNothing(ReportTimes(Next(st, call), calls[1..]));
      }
    }
  }

  /** For any presentation times at all: reports are a second apart, and no frame is ever a second ahead of the last. */
  lemma {:induction false} ReportsBounded(st: State, calls: seq<Call>)
    ensures var end := RunState(st, calls).lastSrPts;
            && SR_INTERVAL * |ReportTimes(st, calls)| <= end - st.lastSrPts
            && (ReportTimes(st, calls) != [] ==> end == ReportTimes(st, calls)[|ReportTimes(st, calls)| - 1])
            && (ReportTimes(st, calls) == [] ==> end == st.lastSrPts)
    ensures forall i | 0 <= i < |calls| && calls[i].SendFrame? ::
              calls[i].pts < RunState(st, calls).lastSrPts + SR_INTERVAL
    decreases |calls|
  {
    if calls != [] {
      var next, rest := Next(st, calls[0]), calls[1..];
      ReportsBounded(next, rest);
      assert forall i | 1 <= i < |calls| :: calls[i] == rest[i - 1];
      if Reports(st, calls[0]) {
        DropFirst(calls[0].pts, ReportTimes(next, rest));
      } else {
        AppendNothing(ReportTimes(next, rest));
      }
    }
  }

  /** A session's reports: one per time, paced, and at most one per second of presentation time. */
  lemma SessionPaced(ssrc: uint32, calls: seq<Call>, clock: TickClock, gap: int)
    requires FramesWithin(None, calls, gap)
    ensures var times := ReportTimes(Initial(ssrc), calls);
            && Paced(0, times, false, gap)
            && |times| == ReportCount(Messages(Trace(Initial(ssrc), calls, clock)))
            && SR_INTERVAL * |times| <= RunState(Initial(ssrc), calls).lastSrPts
  {
    ReportsPaced(Initial(ssrc), calls, None, gap);
    ReportTimesCount(Initial(ssrc), calls, clock);
    ReportsBounded(Initial(ssrc), calls);
  }

  /** The presentation times never decrease, the first being at least `previous`. */
  ghost predicate NonDecreasing(previous: int, calls: seq<Call>)
    decreases |calls|
  {
    calls != [] ==>
      if calls[0].SendFrame? then previous <= calls[0].pts && NonDecreasing(calls[0].pts, calls[1..])
      else NonDecreasing(previous, calls[1..])
  }

  /** The presentation time of the last frame, or `previous` if there is none. */
  function LastPts(previous: int, calls: seq<Call>): int
    decreases |calls|
  {
    if calls == [] then previous
    else LastPts(if calls[0].SendFrame? then calls[0].pts else previous, calls[1..])
  }

  /** The last report never lies in the future, nor a second or more in the past. */
  lemma {:induction false} LastReportNear(st: State, calls: seq<Call>, previous: int)
    requires st.lastSrPts <= previous < st.lastSrPts + SR_INTERVAL
    requires NonDecreasing(previous, calls)
    ensures RunState(st, calls).lastSrPts <= LastPts(previous, calls) < RunState(st, calls).lastSrPts + SR_INTERVAL
    decreases |calls|
  {
    if calls != [] {
      LastReportNear(Next(st, calls[0]), calls[1..], if calls[0].SendFrame? then calls[0].pts else previous);
    }
  }

  /** For a session with non-negative, non-decreasing presentation times both bounds chain up. */
  lemma SessionBracketed(ssrc: uint32, calls: seq<Call>, clock: TickClock)
    requires NonDecreasing(0, calls)
    ensures var reports := ReportCount(Messages(Trace(Initial(ssrc), calls, clock)));
            var end := RunState(Initial(ssrc), calls).lastSrPts;
            SR_INTERVAL * reports <= end <= LastPts(0, calls) < end + SR_INTERVAL
  {
    ReportTimesCount(Initial(ssrc), calls, clock);
    ReportsBounded(Initial(ssrc), calls);
    LastReportNear(Initial(ssrc), calls, 0);
  }

  // ---------- Exactly when a report is sent ----------

  /** The presentation times of a run's frames. */
  function PtsOf(calls: seq<Call>): seq<int> {
    if calls == [] then [] else (if calls[0].SendFrame? then [calls[0].pts] else []) + PtsOf(calls[1..])
  }

  /** The last of these times that lies a second or more after the one chosen before it, beginning at `last`. */
  function LastSecond(last: int, times: seq<int>): int
    decreases |times|
  {
    if times == [] then last
    else LastSecond(if times[0] - last >= 1_000_000 then times[0] else last, times[1..])
  }

  lemma {:induction false} LastReportIs(st: State, calls: seq<Call>)
    ensures RunState(st, calls).lastSrPts == LastSecond(st.lastSrPts, PtsOf(calls))
    decreases |calls|
  {
    if calls != [] {
      LastReportIs(Next(st, calls[0]), calls[1..]);
      if calls[0].SendFrame? {
        DropFirst(calls[0].pts, PtsOf(calls[1..]));
      } else {
        AppendNothing(PtsOf(calls[1..]));
      }
    }
  }

  /**
   * A frame of a session is followed by one report if it lies 1000000 microseconds or more after the frame
   * of the last report (or after 0), and by none otherwise.
   */
  lemma ReportsExactly(ssrc: uint32, calls: seq<Call>, data: seq<byte>, pts: int, now: TimeOfDay, clock: TickClock)
    ensures ReportCount(Emitted(RunState(Initial(ssrc), calls), SendFrame(data, pts, now), clock))
            == if pts - LastSecond(0, PtsOf(calls)) >= 1_000_000 then 1 else 0
  {
    ReportsOfCall(RunState(Initial(ssrc), calls), SendFrame(data, pts, now), clock);
    LastReportIs(Initial(ssrc), calls);
  }

  /**
   * What a report says of the time: the seconds since 1900 mod 2^32, and the largest fraction of 2^32 that
   * does not exceed the microseconds; and its timestamp and SSRC are those of the frame and the session.
   */
  lemma ReportTime(st: State, data: seq<byte>, pts: int, now: TimeOfDay, clock: TickClock)
    requires pts - st.lastSrPts >= 1_000_000
    ensures var ms := Emitted(st, SendFrame(data, pts, now), clock);
            && ms != [] && ms[|ms| - 1].SenderReport?
            && ms[|ms| - 1].ntpSec == (now.0 + 2_208_988_800) % 0x1_0000_0000
            && ms[|ms| - 1].ntpFrac * 1_000_000 <= now.1 * 0x1_0000_0000 < (ms[|ms| - 1].ntpFrac + 1) * 1_000_000
  {
    var scaled := now.1 * 0x1_0000_0000;
    assert scaled == scaled / 1_000_000 * 1_000_000 + scaled % 1_000_000;
  }

  // ---------- Timestamps ----------

  /**
   * Everything one frame emits carries the same timestamp and SSRC, and the report, if any, comes
   * behind all its packets; so a report's timestamp is that of every packet of the frame just sent.
   */
  lemma FrameSharesTimestamp(st: State, data: seq<byte>, pts: int, now: TimeOfDay, clock: TickClock)
    ensures var ms := Emitted(st, SendFrame(data, pts, now), clock);
            && |ms| == Sum(PacketCost, Split(data)) + (if ReportDue(st, pts) then 1 else 0)
            && forall i | 0 <= i < |ms| ::
                 && ms[i].timestamp == Timestamp(st, pts, clock)
                 && ms[i].ssrc == st.ssrc
                 && (ms[i].SenderReport? <==> i == Sum(PacketCost, Split(data)))
  {
    FrameChunksCost(Split(data));
  }

  /** Once a non-negative base is fixed, no call moves it. */
  lemma {:induction false} BaseStays(st: State, calls: seq<Call>)
    requires st.basePts >= 0
    ensures RunState(st, calls).basePts == st.basePts
    decreases |calls|
  {
    if calls != [] {
      BaseStays(Next(st, calls[0]), calls[1..]);
    }
  }

  /**
   * The base is the first non-negative pts: after frames with negative ones only, the next frame is its
   * own base, whatever its pts, and is stamped as time zero.
   */
  lemma {:induction false} BaseUnfixed(st: State, calls: seq<Call>, pts: int, clock: TickClock)
    requires st.basePts < 0 && forall c | c in calls && c.SendFrame? :: c.pts < 0
    ensures BaseFor(RunState(st, calls), pts) == pts
    ensures Timestamp(RunState(st, calls), pts, clock) == clock(0)
    decreases |calls|
  {
    if calls != [] {
      assert calls[0] in calls;
      BaseUnfixed(Next(st, calls[0]), calls[1..], pts, clock);
    }
  }

  /**
   * Two frames of any run, the first sent in state `st` and any calls `between` them: the base is the
   * same for both, so their timestamps never run backwards and never drift from the presentation times
   * by more than one tick.
   */
  lemma StreamTimestamps(st: State, first: Call, between: seq<Call>, pts: int, clock: TickClock)
    requires IsDoubleClock(clock) && first.SendFrame?
    requires var base := BaseFor(st, first.pts); 0 <= base <= first.pts <= pts <= base + MAX_DELTA
    ensures var later := RunState(Next(st, first), between);
            && BaseFor(later, pts) == BaseFor(st, first.pts)
            && InStep(Timestamp(st, first.pts, clock), Timestamp(later, pts, clock), pts - first.pts)
  {
    BaseStays(Next(st, first), between);
    TicksDoNotDrift(clock, BaseFor(st, first.pts), first.pts, pts);
  }

  /** With 63-bit non-negative presentation times no 64-bit difference the sender takes overflows. */
  lemma {:induction false} DifferencesFit(st: State, calls: seq<Call>, pts: int)
    requires -1 <= st.basePts < 0x8000_0000_0000_0000 && 0 <= st.lastSrPts < 0x8000_0000_0000_0000
    requires forall c | c in calls && c.SendFrame? :: 0 <= c.pts < 0x8000_0000_0000_0000
    requires 0 <= pts < 0x8000_0000_0000_0000
    ensures var end := RunState(st, calls);
            && -0x8000_0000_0000_0000 <= pts - BaseFor(end, pts) < 0x8000_0000_0000_0000
            && -0x8000_0000_0000_0000 <= pts - end.lastSrPts < 0x8000_0000_0000_0000
    decreases |calls|
  {
    if calls != [] {
      assert calls[0] in calls;
      DifferencesFit(Next(st, calls[0]), calls[1..], pts);
    }
  }

  // ---------- Timestamps of a session, message by message ----------

  ghost predicate OnlyNegative(calls: seq<Call>) {
    forall c | c in calls && c.SendFrame? :: c.pts < 0
  }

  lemma {:induction false} BaseStaysNegative(st: State, calls: seq<Call>)
    requires st.basePts < 0 && OnlyNegative(calls)
    ensures RunState(st, calls).basePts < 0
    decreases |calls|
  {
    if calls != [] {
      assert calls[0] in calls;
      BaseStaysNegative(Next(st, calls[0]), calls[1..]);
    }
  }

  /** The first frame with a non-negative pts, like all before it, is stamped as time zero. */
  lemma FirstFrameStamped(ssrc: uint32, before: seq<Call>, data: seq<byte>, pts: int, now: TimeOfDay, clock: TickClock)
    requires OnlyNegative(before)
    ensures forall m | m in Emitted(RunState(Initial(ssrc), before), SendFrame(data, pts, now), clock) ::
              m.timestamp == clock(0)
  {
    var st := RunState(Initial(ssrc), before);
    BaseStaysNegative(Initial(ssrc), before);
    CallTimestamps(st, data, pts, now, clock);
  }

  /** Every message of every later frame is stamped with the time since that first frame. */
  lemma LaterFramesStamped(ssrc: uint32, before: seq<Call>, first: Call, between: seq<Call>,
                           data: seq<byte>, pts: int, now: TimeOfDay, clock: TickClock)
    requires OnlyNegative(before) && first.SendFrame? && first.pts >= 0
    ensures var st := RunState(Initial(ssrc), before + [first] + between);
            forall m | m in Emitted(st, SendFrame(data, pts, now), clock) :: m.timestamp == clock(pts - first.pts)
  {
    hide Emitted;
    var st0 := RunState(Initial(ssrc), before);
    var st := RunState(Initial(ssrc), before + [first] + between);
    BaseStaysNegative(Initial(ssrc), before);
    RunSnoc(Initial(ssrc), before, first, clock);
    RunStateAppend(Initial(ssrc), before + [first], between);
    BaseStays(Next(st0, first), between);
    CallTimestamps(st, data, pts, now, clock);
  }

  /** With nearest rounding these are the exact 90 kHz ticks, less one where a tick is lost. */
  lemma LaterFramesTicks(ssrc: uint32, before: seq<Call>, first: Call, between: seq<Call>,
                         data: seq<byte>, pts: int, now: TimeOfDay, clock: TickClock)
    requires OnlyNegative(before) && first.SendFrame? && first.pts >= 0
    requires IsNearestClock(clock) && 0 <= pts - first.pts <= MAX_DELTA
    ensures var st := RunState(Initial(ssrc), before + [first] + between);
            forall m | m in Emitted(st, SendFrame(data, pts, now), clock) ::
              m.timestamp == 9 * (pts - first.pts) / 100 - if LosesTick(pts - first.pts) then 1 else 0
  {
    hide Emitted, LosesTick, NearestTicks, RunState;
    LaterFramesStamped(ssrc, before, first, between, data, pts, now, clock);
    ExactUnlessTickLost(clock, pts - first.pts);
  }
}
