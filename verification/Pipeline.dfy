/** A source whose callback forwards to a session, fed frame by frame. */
module Pipeline {
  import opened Bytes
  import opened AnnexB
  import opened Payload
  import opened Wire
  import opened Sender
  import opened Runs
  import opened Delivery
  import opened Session
  import opened FramedSource

  /** The session calls that forward these frames at these times of day. */
  function Forward(frames: seq<Frame>, times: seq<TimeOfDay>): seq<Call>
    requires |times| <= |frames|
  {
    seq(|times|, i requires 0 <= i < |times| => Call.SendFrame(frames[i].buff, frames[i].pts, times[i]))
  }

  /** What the session gets to see: the backlog first, the newest frames last or not at all. */
  function Lagged(waiting: seq<Frame>, frames: seq<Frame>): (seen: seq<Frame>)
    ensures |seen| == |frames|
  {
    (Backlog(waiting) + frames)[..|frames|]
  }

  lemma ForwardSnoc(stream: seq<Frame>, times: seq<TimeOfDay>, i: nat)
    requires i < |times| <= |stream|
    ensures Forward(stream, times[..i + 1])
            == Forward(stream, times[..i]) + [Call.SendFrame(stream[i].buff, stream[i].pts, times[i])]
  {
  }

  lemma ForwardDone(waiting: seq<Frame>, frames: seq<Frame>, times: seq<TimeOfDay>)
    requires |times| == |frames|
    ensures Forward(Backlog(waiting) + frames, times) == Forward(Lagged(waiting, frames), times)
    ensures waiting == [] ==> Lagged(waiting, frames) == frames
    ensures waiting == [] ==> LagFates(waiting, frames, |frames|) == Deliveries(frames)
    ensures frames[..|frames|] == frames && times[..|frames|] == times
  {
  }

  lemma {:induction false} SocketKept(st: State, calls: seq<Call>)
    requires forall c | c in calls :: c.SendFrame?
    ensures RunState(st, calls).sock == st.sock
    decreases |calls|
  {
    if calls != [] {
      assert calls[0] in calls;
      SocketKept(Next(st, calls[0]), calls[1..]);
    }
  }

  lemma DropPrefix(xs: seq<SendCall>, ys: seq<SendCall>)
    ensures (xs + ys)[|xs|..] == ys
  {
  }

  lemma RunNothing(st: State, stream: seq<Frame>, times: seq<TimeOfDay>, clock: TickClock)
    ensures RunState(st, []) == st && Trace(st, [], clock) == [] && Forward(stream, times[..0]) == []
  {
  }

  lemma NoFates(waiting: seq<Frame>, frames: seq<Frame>)
    ensures LagFates(waiting, frames, 0) == []
  {
  }

  lemma SendingKeepsSocket(st: State, call: Call)
    requires call.SendFrame?
    ensures Next(st, call).sock == st.sock
  {
  }

  // ---------- From pushes to the receiver ----------

  /** The NAL units of these source frames. */
  function NalusIn(frame: Frame): seq<seq<byte>> { Split(frame.buff) }

  lemma {:induction false} ForwardedNalus(st: State, frames: seq<Frame>, times: seq<TimeOfDay>)
    requires st.sock >= 0 && |times| == |frames|
    ensures NalusOnWire(st, Forward(frames, times)) == FlatMap(NalusIn, frames)
    decreases |frames|
  {
    if frames != [] {
      var calls := Forward(frames, times);
      assert calls[1..] == Forward(frames[1..], times[1..]);
      NalusStep(st, calls);
      ForwardedNalus(Next(st, calls[0]), frames[1..], times[1..]);
    }
  }

  /**
   * Through the source, the session and the wire: the receiver recovers the NAL units of the lagged
   * frames (with no backlog: of the pushed frames), exactly if none of them is lost to the payload
   * format. `PushAll` leaves this trace in the session's log.
   */
  lemma SourceToReceiver(st: State, waiting: seq<Frame>, frames: seq<Frame>, times: seq<TimeOfDay>, clock: TickClock)
    requires st.sock >= 0 && |times| == |frames|
    ensures var nalus := FlatMap(NalusIn, Lagged(waiting, frames));
            Receive(WireOctets(st, Forward(Lagged(waiting, frames), times), clock)) == Some(nalus)
            <==> AllRecoverable(nalus)
    ensures waiting == [] ==> Lagged(waiting, frames) == frames
  {
    var seen := Lagged(waiting, frames);
    ForwardedNalus(st, seen, times);
    DeliveredExactly(st, Forward(seen, times), clock);
    ForwardDone(waiting, frames, times);
  }

  /**
   * Pushes `frames` one by one. The session's log grows as if it had been called directly with the
   * lagged frames; with no backlog those are the pushed frames themselves, none dropped or delayed.
   */
  method PushAll(source: CustomFramedSource, session: RTPSendingSession, frames: seq<Frame>, times: seq<TimeOfDay>)
    requires source.Valid() && source.callback == session && |times| == |frames|
    modifies source, session
    ensures source.Valid() && source.callback == session
    ensures source.pushed == old(source.pushed) + frames
    ensures var calls := Forward(Lagged(old(source.frameQueue), frames), times);
            && session.View() == RunState(old(session.View()), calls)
            && session.sent == old(session.sent) + Trace(old(session.View()), calls, session.clock)
    ensures source.fates == old(source.fates) + LagFates(old(source.frameQueue), frames, |frames|)
    ensures old(source.frameQueue) == [] ==>
              && source.frameQueue == []
              && source.fates == old(source.fates) + Deliveries(frames)
              && session.sent == old(session.sent) + Trace(old(session.View()), Forward(frames, times), session.clock)
    ensures session.tcpSock >= 0 ==>
              var nalus := FlatMap(NalusIn, Lagged(old(source.frameQueue), frames));
              Receive(EncodeAll(Messages(OnWire(session.sent[|old(session.sent)|..])))) == Some(nalus)
              <==> AllRecoverable(nalus)
  {
    hide Next, Emitted, RunState, Trace, CallsOf, Queued, Fates, LagFates, Lagged;
    hide Receive, EncodeAll, OnWire, Messages, FlatMap, AllRecoverable;
    ghost var waiting := source.frameQueue;
    ghost var stream := Backlog(waiting) + frames;
    ghost var st := session.View();
    ghost var calls: seq<Call> := [];
    var i := 0;
    RunNothing(st, stream, times, session.clock);
    AppendNothing(session.sent);
    AppendNothing(source.pushed);
    AppendNothing(source.fates);
    NoFates(waiting, frames);
    while i < |frames|
      invariant 0 <= i <= |frames|
      invariant source.Valid() && source.callback == session
      invariant source.pushed == old(source.pushed) + frames[..i]
      invariant source.frameQueue == if i == 0 then waiting else stream[i..i + |Backlog(waiting)|]
      invariant source.fates == old(source.fates) + LagFates(waiting, frames, i)
      invariant calls == Forward(stream, times[..i])
      invariant session.View() == RunState(st, calls)
      invariant session.sent == old(session.sent) + Trace(st, calls, session.clock)
    {
      ghost var before := session.View();
      WindowMoves(waiting, frames, i, source.frameQueue);
      AppendAssoc(old(source.fates), LagFates(waiting, frames, i), Fates(source.View(), Push(frames[i])));
      source.PushFrame(frames[i], times[i]);
      ghost var call := Call.SendFrame(stream[i].buff, stream[i].pts, times[i]);
      RunSnoc(st, calls, call, session.clock);
      SendingKeepsSocket(before, call);
      ghost var emitted := CallsOf(before.sock, Emitted(before, call, session.clock));
      AppendAssoc(old(session.sent), Trace(st, calls, session.clock), emitted);
      TakeOneMore(frames, i);
      AppendAssoc(old(source.pushed), frames[..i], [frames[i]]);
      ForwardSnoc(stream, times, i);
      calls := calls + [call];
      i := i + 1;
    }
    ForwardDone(waiting, frames, times);
    if session.tcpSock >= 0 {
      SocketKept(st, Forward(Lagged(waiting, frames), times));
      SourceToReceiver(st, waiting, frames, times, session.clock);
      DropPrefix(old(session.sent), Trace(st, Forward(Lagged(waiting, frames), times), session.clock));
    }
  }
}
