/** The bounded, drop-oldest frame source: at most one frame is delivered per push. */
module FramedSource {
  import opened Bytes
  import opened Sender
  import opened Session

  const MAX_QUEUE_SIZE := 30

  datatype Frame = Frame(buff: seq<byte>, pts: int, chn: int, streamType: int, frameType: int)

  /** What the queue is and whether a callback is installed. */
  datatype Line = Line(waiting: seq<Frame>, installed: bool)

  datatype Action = SetCallback(installed: bool) | Push(frame: Frame)

  /** How a frame left the queue. */
  datatype Fate = Dropped(frame: Frame) | Delivered(frame: Frame)

  // ---------- One action ----------

  /** The queue once the oldest frame has made room and the new one is in. */
  function Queued(waiting: seq<Frame>, frame: Frame): (queue: seq<Frame>)
    ensures queue != []
  {
    (if |waiting| >= MAX_QUEUE_SIZE then waiting[1..] else waiting) + [frame]
  }

  function After(line: Line, a: Action): Line {
    match a
    case SetCallback(installed) => line.(installed := installed)
    case Push(frame) =>
      var queue := Queued(line.waiting, frame);
      line.(waiting := if line.installed then queue[1..] else queue)
  }

  function Fates(line: Line, a: Action): seq<Fate> {
    match a
    case SetCallback(_) => []
    case Push(frame) =>
      (if |line.waiting| >= MAX_QUEUE_SIZE then [Dropped(line.waiting[0])] else [])
      + (if line.installed then [Delivered(Queued(line.waiting, frame)[0])] else [])
  }

  // ---------- Any interleaving of actions ----------

  function AfterAll(line: Line, actions: seq<Action>): Line
    decreases |actions|
  {
    if actions == [] then line else AfterAll(After(line, actions[0]), actions[1..])
  }

  function AllFates(line: Line, actions: seq<Action>): seq<Fate>
    decreases |actions|
  {
    if actions == [] then [] else Fates(line, actions[0]) + AllFates(After(line, actions[0]), actions[1..])
  }

  function FramesOf(fates: seq<Fate>): seq<Frame> {
    seq(|fates|, i requires 0 <= i < |fates| => fates[i].frame)
  }

  function Pushed(actions: seq<Action>): seq<Frame> {
    if actions == [] then []
    else (if actions[0].Push? then [actions[0].frame] else []) + Pushed(actions[1..])
  }

  lemma FramesOfAppend(xs: seq<Fate>, ys: seq<Fate>)
    ensures FramesOf(xs + ys) == FramesOf(xs) + FramesOf(ys)
  {
  }

  /** One action consumes from the front and adds at the back, and never overfills the queue. */
  lemma ActionKeepsHistory(line: Line, a: Action)
    requires |line.waiting| <= MAX_QUEUE_SIZE
    ensures FramesOf(Fates(line, a)) + After(line, a).waiting == line.waiting + Pushed([a])
    ensures |After(line, a).waiting| <= MAX_QUEUE_SIZE
  {
    assert [a][1..] == [];
    if a.Push? {
      var queue := Queued(line.waiting, a.frame);
      assert queue == [queue[0]] + queue[1..];
    }
  }

  lemma PushedCons(a: Action, rest: seq<Action>)
    ensures Pushed([a] + rest) == Pushed([a]) + Pushed(rest)
  {
    DropFirst(a, rest);
    assert [a][1..] == [];
  }

  /**
   * For every interleaving of `setCallback` and `pushFrame`: what was delivered or dropped, followed by
   * what still waits, is what waited followed by what was pushed. So every frame leaves at most once,
   * in order and unaltered, and the queue is a suffix of the history, at most 30 frames long.
   */
  lemma {:induction false} HistoryKept(line: Line, actions: seq<Action>)
    requires |line.waiting| <= 30
    ensures FramesOf(AllFates(line, actions)) + AfterAll(line, actions).waiting == line.waiting + Pushed(actions)
    ensures |AfterAll(line, actions).waiting| <= 30
    decreases |actions|
  {
    if actions == [] {
      AppendNothing(line.waiting);
    } else {
      var next, rest := After(line, actions[0]), actions[1..];
      ActionKeepsHistory(line, actions[0]);
      HistoryKept(next, rest);
      FramesOfAppend(Fates(line, actions[0]), AllFates(next, rest));
      AppendAssoc(FramesOf(Fates(line, actions[0])), FramesOf(AllFates(next, rest)), AfterAll(next, rest).waiting);
      AppendAssoc(FramesOf(Fates(line, actions[0])), next.waiting, Pushed(rest));
      AppendAssoc(line.waiting, Pushed([actions[0]]), Pushed(rest));
      PushedCons(actions[0], rest);
      FirstAndRest(actions);
    }
  }

  // ---------- Runs of pushes ----------

  function Pushes(frames: seq<Frame>): seq<Action> {
    seq(|frames|, i requires 0 <= i < |frames| => Push(frames[i]))
  }

  function Deliveries(frames: seq<Frame>): seq<Fate> {
    seq(|frames|, i requires 0 <= i < |frames| => Delivered(frames[i]))
  }

  function Drops(frames: seq<Frame>): seq<Fate> {
    seq(|frames|, i requires 0 <= i < |frames| => Dropped(frames[i]))
  }

  lemma PushFirst(line: Line, frames: seq<Frame>)
    requires frames != []
    ensures AllFates(line, Pushes(frames))
            == Fates(line, Push(frames[0])) + AllFates(After(line, Push(frames[0])), Pushes(frames[1..]))
    ensures AfterAll(line, Pushes(frames)) == AfterAll(After(line, Push(frames[0])), Pushes(frames[1..]))
  {
    assert Pushes(frames)[0] == Push(frames[0]) && Pushes(frames)[1..] == Pushes(frames[1..]);
  }

  lemma NoPushes(line: Line)
    ensures AllFates(line, Pushes([])) == [] && AfterAll(line, Pushes([])) == line
    ensures Deliveries([]) == [] && Drops([]) == []
  {
  }

  lemma DeliveriesCons(stream: seq<Frame>, n: nat)
    requires 0 < n <= |stream|
    ensures Deliveries(stream[..n]) == [Delivered(stream[0])] + Deliveries(stream[1..][..n - 1])
  {
  }

  /** The stream behind a backlog, when its first frame is delivered and the first push is in. */
  lemma StreamMoves(kept: seq<Frame>, frames: seq<Frame>)
    requires frames != []
    ensures var stream, rest := kept + frames, (kept + [frames[0]])[1..] + frames[1..];
            && (kept + [frames[0]])[0] == stream[0]
            && Deliveries(stream[..|frames|]) == [Delivered(stream[0])] + Deliveries(rest[..|frames| - 1])
            && stream[|frames|..] == rest[|frames| - 1..]
  {
    var stream := kept + frames;
    assert (kept + [frames[0]])[1..] + frames[1..] == stream[1..];
    assert stream[1..][|frames| - 1..] == stream[|frames|..];
    DeliveriesCons(stream, |frames|);
  }

  /** With a backlog below the capacity every push delivers the frame pushed that many pushes before it. */
  lemma {:induction false} LagBelowCapacity(waiting: seq<Frame>, frames: seq<Frame>)
    requires |waiting| < MAX_QUEUE_SIZE
    ensures AllFates(Line(waiting, true), Pushes(frames)) == Deliveries((waiting + frames)[..|frames|])
    ensures AfterAll(Line(waiting, true), Pushes(frames)) == Line((waiting + frames)[|frames|..], true)
    decreases |frames|
  {
    hide AllFates, AfterAll, Pushes, Deliveries;
    if frames == [] {
      AppendNothing(waiting);
      NoPushes(Line(waiting, true));
    } else {
      PushFirst(Line(waiting, true), frames);
      LagBelowCapacity((waiting + [frames[0]])[1..], frames[1..]);
      StreamMoves(waiting, frames);
    }
  }

  /** The backlog that stays after a callback is installed: a full queue loses its oldest frame first. */
  function Backlog(waiting: seq<Frame>): seq<Frame> {
    if |waiting| >= MAX_QUEUE_SIZE then waiting[1..] else waiting
  }

  /**
   * Constant lag: from a backlog of `k` frames with a callback installed, every push delivers exactly
   * one frame, the one pushed `min(k, 29)` pushes before it; the backlog stays; and one frame is
   * dropped, on the first push, exactly if the queue was full.
   */
  lemma ConstantLag(waiting: seq<Frame>, frames: seq<Frame>)
    requires |waiting| <= 30 && frames != []
    ensures var stream := (if |waiting| == 30 then waiting[1..] else waiting) + frames;
            && AllFates(Line(waiting, true), Pushes(frames))
               == (if |waiting| == 30 then [Dropped(waiting[0])] else []) + Deliveries(stream[..|frames|])
            && AfterAll(Line(waiting, true), Pushes(frames)) == Line(stream[|frames|..], true)
    ensures |AfterAll(Line(waiting, true), Pushes(frames)).waiting| == if |waiting| == 30 then 29 else |waiting|
  {
    hide AllFates, AfterAll, Pushes, Deliveries;
    var kept := Backlog(waiting);
    PushFirst(Line(waiting, true), frames);
    LagBelowCapacity((kept + [frames[0]])[1..], frames[1..]);
    StreamMoves(kept, frames);
  }

  lemma ShiftByOne(frame: Frame, rest: seq<Frame>, n: nat)
    requires n <= |rest|
    ensures ([frame] + rest)[n + 1..] == rest[n..]
    ensures Drops(([frame] + rest)[..n + 1]) == [Dropped(frame)] + Drops(rest[..n])
  {
    DropFirst(frame, rest);
  }

  lemma QueueShift(waiting: seq<Frame>, frames: seq<Frame>)
    requires waiting != [] && frames != []
    ensures waiting + frames == [waiting[0]] + (waiting[1..] + [frames[0]] + frames[1..])
  {
  }

  lemma {:induction false} FullDropsOldest(waiting: seq<Frame>, frames: seq<Frame>)
    requires |waiting| == MAX_QUEUE_SIZE
    ensures AfterAll(Line(waiting, false), Pushes(frames)) == Line((waiting + frames)[|frames|..], false)
    ensures AllFates(Line(waiting, false), Pushes(frames)) == Drops((waiting + frames)[..|frames|])
    decreases |frames|
  {
    hide AllFates, AfterAll, Pushes, Drops;
    if frames == [] {
      AppendNothing(waiting);
      NoPushes(Line(waiting, false));
    } else {
      var queue := waiting[1..] + [frames[0]];
      PushFirst(Line(waiting, false), frames);
      FullDropsOldest(queue, frames[1..]);
      QueueShift(waiting, frames);
      ShiftByOne(waiting[0], queue + frames[1..], |frames| - 1);
    }
  }

  /** The fates that the first `n` pushes bring about. */
  function LagFates(waiting: seq<Frame>, frames: seq<Frame>, n: nat): seq<Fate>
    requires n <= |frames|
  {
    (if n > 0 && |waiting| == MAX_QUEUE_SIZE then [Dropped(waiting[0])] else [])
    + Deliveries((Backlog(waiting) + frames)[..n])
  }

  /** Push `i` delivers element `i` of the stream and leaves the next window of it waiting. */
  lemma WindowMoves(waiting: seq<Frame>, frames: seq<Frame>, i: nat, queue: seq<Frame>)
    requires |waiting| <= MAX_QUEUE_SIZE && i < |frames|
    requires var stream := Backlog(waiting) + frames;
             queue == if i == 0 then waiting else stream[i..i + |Backlog(waiting)|]
    ensures var stream := Backlog(waiting) + frames;
            && Queued(queue, frames[i])[0] == stream[i]
            && Queued(queue, frames[i])[1..] == stream[i + 1..i + 1 + |Backlog(waiting)|]
    ensures LagFates(waiting, frames, i) + Fates(Line(queue, true), Push(frames[i])) == LagFates(waiting, frames, i + 1)
  {
    var stream := Backlog(waiting) + frames;
    assert Queued(queue, frames[i]) == stream[i..i + 1 + |Backlog(waiting)|];
    assert Deliveries(stream[..i + 1]) == Deliveries(stream[..i]) + [Delivered(stream[i])];
  }

  /** Without a callback the queue keeps the newest 30 frames and drops all older ones, oldest first. */
  lemma {:induction false} NewestKept(waiting: seq<Frame>, frames: seq<Frame>)
    requires |waiting| <= 30
    ensures var stream := waiting + frames;
            var excess := if |stream| > 30 then |stream| - 30 else 0;
            && AfterAll(Line(waiting, false), Pushes(frames)) == Line(stream[excess..], false)
            && AllFates(Line(waiting, false), Pushes(frames)) == Drops(stream[..excess])
    decreases |frames|
  {
    hide AllFates, AfterAll, Pushes, Drops;
    if |waiting| == MAX_QUEUE_SIZE {
      FullDropsOldest(waiting, frames);
    } else if frames == [] {
      AppendNothing(waiting);
      NoPushes(Line(waiting, false));
    } else {
      PushFirst(Line(waiting, false), frames);
      NewestKept(waiting + [frames[0]], frames[1..]);
      FirstAndRest(frames);
      AppendAssoc(waiting, [frames[0]], frames[1..]);
    }
  }

  // ---------- Callbacks ----------

  /** The last setting of the callback among some actions. */
  function LastSetting(installed: bool, actions: seq<Action>): bool
    decreases |actions|
  {
    if actions == [] then installed
    else LastSetting(if actions[0].Push? then installed else actions[0].installed, actions[1..])
  }

  lemma {:induction false} SettingHolds(line: Line, actions: seq<Action>)
    ensures AfterAll(line, actions).installed == LastSetting(line.installed, actions)
    decreases |actions|
  {
    if actions != [] {
      SettingHolds(After(line, actions[0]), actions[1..]);
    }
  }

  /**
   * Any push of any interleaving: from a full queue the oldest frame is dropped first, and the oldest
   * frame then in the queue is delivered if and only if the last callback set was not null.
   */
  lemma PushFates(line: Line, actions: seq<Action>, frame: Frame)
    requires |line.waiting| <= 30
    ensures var now := AfterAll(line, actions); var queue := now.waiting;
            var kept := (if |queue| == 30 then queue[1..] else queue) + [frame];
            var delivers := LastSetting(line.installed, actions);
            && Fates(now, Push(frame)) ==
               (if |queue| == 30 then [Dropped(queue[0])] else []) + (if delivers then [Delivered(kept[0])] else [])
            && After(now, Push(frame)) == Line(if delivers then kept[1..] else kept, delivers)
  {
    HistoryKept(line, actions);
    SettingHolds(line, actions);
  }

  lemma SetFirst(line: Line, installed: bool, frames: seq<Frame>)
    ensures var set1 := Line(line.waiting, installed);
            && AllFates(line, [SetCallback(installed)] + Pushes(frames)) == AllFates(set1, Pushes(frames))
            && AfterAll(line, [SetCallback(installed)] + Pushes(frames)) == AfterAll(set1, Pushes(frames))
  {
    DropFirst(SetCallback(installed), Pushes(frames));
    AppendNothing(AllFates(Line(line.waiting, installed), Pushes(frames)));
  }

  /** Installing a callback, whatever was set before, starts the constant lag. */
  lemma InstalledDelivers(waiting: seq<Frame>, installed: bool, frames: seq<Frame>)
    requires |waiting| <= 30 && frames != []
    ensures var actions := [SetCallback(true)] + Pushes(frames);
            var stream := (if |waiting| == 30 then waiting[1..] else waiting) + frames;
            && AllFates(Line(waiting, installed), actions)
               == (if |waiting| == 30 then [Dropped(waiting[0])] else []) + Deliveries(stream[..|frames|])
            && AfterAll(Line(waiting, installed), actions) == Line(stream[|frames|..], true)
  {
    SetFirst(Line(waiting, installed), true, frames);
    ConstantLag(waiting, frames);
  }

  /** Removing it keeps the newest 30 frames from then on. */
  lemma RemovedKeeps(waiting: seq<Frame>, installed: bool, frames: seq<Frame>)
    requires |waiting| <= 30
    ensures var actions := [SetCallback(false)] + Pushes(frames);
            var stream := waiting + frames;
            var excess := if |stream| > 30 then |stream| - 30 else 0;
            && AfterAll(Line(waiting, installed), actions) == Line(stream[excess..], false)
            && AllFates(Line(waiting, installed), actions) == Drops(stream[..excess])
  {
    SetFirst(Line(waiting, installed), false, frames);
    NewestKept(waiting, frames);
  }

  lemma HistoryStep(fates: seq<Fate>, queue: seq<Frame>, pushed: seq<Frame>, line: Line, a: Action, fates': seq<Fate>)
    requires FramesOf(fates) + queue == pushed && line.waiting == queue && |queue| <= MAX_QUEUE_SIZE
    requires fates' == fates + Fates(line, a)
    ensures FramesOf(fates') + After(line, a).waiting == pushed + Pushed([a])
  {
    ActionKeepsHistory(line, a);
    FramesOfAppend(fates, Fates(line, a));
    AppendAssoc(FramesOf(fates), FramesOf(Fates(line, a)), After(line, a).waiting);
    AppendAssoc(FramesOf(fates), queue, Pushed([a]));
  }

  // ---------- The source itself ----------

  /** The callback is null or the one that forwards to a session's `SendFrame`. */
  class CustomFramedSource {
    var frameQueue: seq<Frame>
    var callback: RTPSendingSession?

    /** Everything ever pushed, and how what left the queue left it. */
    ghost var pushed: seq<Frame>
    ghost var fates: seq<Fate>

    ghost predicate Valid()
      reads this
    {
      |frameQueue| <= MAX_QUEUE_SIZE && FramesOf(fates) + frameQueue == pushed
    }

    ghost function View(): Line
      reads this
    {
      Line(frameQueue, callback != null)
    }

    constructor ()
      ensures Valid() && View() == Line([], false)
      ensures pushed == [] && fates == []
    {
      frameQueue, callback, pushed, fates := [], null, [], [];
    }

    method SetCallback(cb: RTPSendingSession?)
      requires Valid()
      modifies this`callback
      ensures Valid() && callback == cb
      ensures View() == After(old(View()), Action.SetCallback(cb != null))
    {
      callback := cb;
    }

    /** `now` is the time of day should the session need it. */
    method PushFrame(frame: Frame, now: TimeOfDay)
      requires Valid()
      modifies this`frameQueue, this`pushed, this`fates, callback
      ensures Valid()
      ensures View() == After(old(View()), Push(frame))
      ensures pushed == old(pushed) + [frame]
      ensures fates == old(fates) + Fates(old(View()), Push(frame))
      ensures callback != null ==>
                var oldest := Queued(old(frameQueue), frame)[0];
                var forwarded := Call.SendFrame(oldest.buff, oldest.pts, now);
                && callback.View() == Next(old(callback.View()), forwarded)
                && callback.sent == old(callback.sent)
                   + CallsOf(callback.tcpSock, Emitted(old(callback.View()), forwarded, callback.clock))
    {
      hide Next, Emitted, CallsOf, FramesOf;
      ActionKeepsHistory(View(), Push(frame));
      ghost var before := View();
      if |frameQueue| >= MAX_QUEUE_SIZE {
        fates := fates + [Dropped(frameQueue[0])];
        frameQueue := frameQueue[1..];
      }
      frameQueue := frameQueue + [frame];
      pushed := pushed + [frame];
      DeliverNext(now);
      HistoryStep(old(fates), old(frameQueue), old(pushed), before, Push(frame), fates);
    }

    method DeliverNext(now: TimeOfDay)
      modifies this`frameQueue, this`fates, callback
      ensures callback == null || old(frameQueue) == [] ==> frameQueue == old(frameQueue) && fates == old(fates)
      ensures callback != null && old(frameQueue) != [] ==>
                var frame := old(frameQueue)[0];
                var forwarded := Call.SendFrame(frame.buff, frame.pts, now);
                && frameQueue == old(frameQueue)[1..]
                && fates == old(fates) + [Delivered(frame)]
                && callback.View() == Next(old(callback.View()), forwarded)
                && callback.sent == old(callback.sent)
                   + CallsOf(callback.tcpSock, Emitted(old(callback.View()), forwarded, callback.clock))
    {
      if callback == null || |frameQueue| == 0 {
        return;
      }
      var frame := frameQueue[0];
      callback.SendFrame(frame.buff, frame.pts, now);
      fates := fates + [Delivered(frame)];
      frameQueue := frameQueue[1..];
    }
  }
}
