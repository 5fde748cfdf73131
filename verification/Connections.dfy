/** A whole run cut at its starts: each piece is what one connection carries. */
module Connections {
  import opened Bytes
  import opened Payload
  import opened Wire
  import opened Sender
  import opened Runs
  import opened Delivery

  /** The calls before the first start, and then those from each start on. */
  function CutAtStarts(calls: seq<Call>): (pieces: seq<seq<Call>>)
    ensures pieces != []
  {
    if calls == [] then [[]]
    else
      var pieces := CutAtStarts(calls[1..]);
      if calls[0].Start? then [[], [calls[0]] + pieces[0]] + pieces[1..]
      else [[calls[0]] + pieces[0]] + pieces[1..]
  }

  /** A piece begins with its start, if it has one, and holds no other. */
  ghost predicate OneStart(piece: seq<Call>, first: bool) {
    && (!first ==> piece != [] && piece[0].Start?)
    && forall k | (if first then 0 else 1) <= k < |piece| :: !piece[k].Start?
  }

  lemma CutsBefore(piece: seq<Call>, rest: seq<seq<Call>>)
    ensures Flatten([[], piece] + rest) == piece + Flatten(rest)
  {
    var all := [[], piece] + rest;
    assert all[1..] == [piece] + rest;
    DropFirst(piece, rest);
    AppendNothing(piece + Flatten(rest));
  }

  lemma {:induction false} PiecesOfRun(calls: seq<Call>)
    ensures var pieces := CutAtStarts(calls);
            Flatten(pieces) == calls && forall i | 0 <= i < |pieces| :: OneStart(pieces[i], i == 0)
    decreases |calls|
  {
    if calls != [] {
      var pieces := CutAtStarts(calls[1..]);
      PiecesOfRun(calls[1..]);
      FirstAndRest(calls);
      AppendAssoc([calls[0]], pieces[0], Flatten(pieces[1..]));
      var longer := [calls[0]] + pieces[0];
      assert OneStart(pieces[0], true);
      assert OneStart(longer, !calls[0].Start?);
      if calls[0].Start? {
        CutsBefore(longer, pieces[1..]);
      } else {
        DropFirst(longer, pieces[1..]);
      }
    }
  }

  /** Per piece: the octets on the wire, and the NAL units of the frames sent over an open connection. */
  function ConnectionOctets(st: State, pieces: seq<seq<Call>>, clock: TickClock): seq<seq<byte>>
    decreases |pieces|
  {
    if pieces == [] then []
    else [WireOctets(st, pieces[0], clock)] + ConnectionOctets(RunState(st, pieces[0]), pieces[1..], clock)
  }

  function ConnectionNalus(st: State, pieces: seq<seq<Call>>): seq<seq<seq<byte>>>
    decreases |pieces|
  {
    if pieces == [] then []
    else [NalusOnWire(st, pieces[0])] + ConnectionNalus(RunState(st, pieces[0]), pieces[1..])
  }

  /** Everything a piece puts on the wire goes to one descriptor: the one its start opened. */
  lemma {:induction false} OneDescriptor(st: State, calls: seq<Call>, clock: TickClock)
    requires NeverStarts(calls)
    ensures forall c | c in OnWire(Trace(st, calls, clock)) :: c.fd == st.sock
    decreases |calls|
  {
    if calls != [] {
      var st', rest := Next(st, calls[0]), calls[1..];
      assert calls[0] in calls;
      if st'.sock == st.sock {
        OneDescriptor(st', rest, clock);
      } else {
        SilentUntilStart(st', rest, clock);
      }
      FlatMapAppend(IfOpen, CallsOf(st.sock, Emitted(st, calls[0], clock)), Trace(st', rest, clock));
      OnWireOfCalls(st.sock, Emitted(st, calls[0], clock));
    }
  }

  lemma PieceOnOneDescriptor(st: State, piece: seq<Call>, clock: TickClock)
    requires OneStart(piece, false)
    ensures forall c | c in OnWire(Trace(st, piece, clock)) :: c.fd == Next(st, piece[0]).sock
  {
    forall c | c in piece[1..]
      ensures !c.Start?
    {
      var k :| 0 <= k < |piece[1..]| && piece[1..][k] == c;
      assert piece[k + 1] == c;
    }
    OneDescriptor(Next(st, piece[0]), piece[1..], clock);
    AppendNothing(Trace(Next(st, piece[0]), piece[1..], clock));
  }

  lemma WireOctetsAppend(st: State, xs: seq<Call>, ys: seq<Call>, clock: TickClock)
    ensures WireOctets(st, xs + ys, clock) == WireOctets(st, xs, clock) + WireOctets(RunState(st, xs), ys, clock)
  {
    hide Trace, RunState, Messages, FlatMap;
    var first, second := Trace(st, xs, clock), Trace(RunState(st, xs), ys, clock);
    TraceAppend(st, xs, ys, clock);
    FlatMapAppend(IfOpen, first, second);
    MessagesAppend(OnWire(first), OnWire(second));
    FlatMapAppend(Encode, Messages(OnWire(first)), Messages(OnWire(second)));
  }

  lemma {:induction false} OctetsOfPieces(st: State, pieces: seq<seq<Call>>, clock: TickClock)
    ensures Flatten(ConnectionOctets(st, pieces, clock)) == WireOctets(st, Flatten(pieces), clock)
    decreases |pieces|
  {
    if pieces != [] {
      OctetsOfPieces(RunState(st, pieces[0]), pieces[1..], clock);
      WireOctetsAppend(st, pieces[0], Flatten(pieces[1..]), clock);
      DropFirst(WireOctets(st, pieces[0], clock), ConnectionOctets(RunState(st, pieces[0]), pieces[1..], clock));
    }
  }

  lemma {:induction false} NalusAppend(st: State, xs: seq<Call>, ys: seq<Call>)
    ensures NalusOnWire(st, xs + ys) == NalusOnWire(st, xs) + NalusOnWire(RunState(st, xs), ys)
    decreases |xs|
  {
    if xs == [] {
      AppendNothing(ys);
      AppendNothing(NalusOnWire(st, ys));
    } else {
      hide NalusOnWire, Next;
      var now := if st.sock >= 0 then NalusOf(xs[0]) else [];
      NalusAppend(Next(st, xs[0]), xs[1..], ys);
      NalusStep(st, xs);
      NalusStep(st, xs + ys);
      RestOfAppend(xs, ys);
      AppendAssoc(now, NalusOnWire(Next(st, xs[0]), xs[1..]), NalusOnWire(RunState(st, xs), ys));
    }
  }

  lemma {:induction false} NalusOfPieces(st: State, pieces: seq<seq<Call>>)
    ensures Flatten(ConnectionNalus(st, pieces)) == NalusOnWire(st, Flatten(pieces))
    decreases |pieces|
  {
    if pieces != [] {
      NalusOfPieces(RunState(st, pieces[0]), pieces[1..]);
      NalusAppend(st, pieces[0], Flatten(pieces[1..]));
      DropFirst(NalusOnWire(st, pieces[0]), ConnectionNalus(RunState(st, pieces[0]), pieces[1..]));
    }
  }

  lemma {:induction false} PiecesDelivered(st: State, pieces: seq<seq<Call>>, clock: TickClock)
    ensures var octets, nalus := ConnectionOctets(st, pieces, clock), ConnectionNalus(st, pieces);
            && |octets| == |nalus| == |pieces|
            && forall i | 0 <= i < |pieces| :: Receive(octets[i]) == Some(nalus[i]) <==> AllRecoverable(nalus[i])
    decreases |pieces|
  {
    if pieces != [] {
      hide Receive, WireOctets, NalusOnWire, AllRecoverable, RunState;
      var octets, nalus := ConnectionOctets(st, pieces, clock), ConnectionNalus(st, pieces);
      PiecesDelivered(RunState(st, pieces[0]), pieces[1..], clock);
      DeliveredExactly(st, pieces[0], clock);
      assert octets[1..] == ConnectionOctets(RunState(st, pieces[0]), pieces[1..], clock);
      assert nalus[1..] == ConnectionNalus(RunState(st, pieces[0]), pieces[1..]);
      forall i | 1 <= i < |pieces|
        ensures Receive(octets[i]) == Some(nalus[i]) <==> AllRecoverable(nalus[i])
      {
        assert octets[i] == octets[1..][i - 1] && nalus[i] == nalus[1..][i - 1];
      }
    }
  }

  /**
   * For every run from every state: cut at the starts, each connection's octets give a receiver of that
   * connection the NAL units sent on it, if and only if all of them are recoverable; and the pieces are
   * all the run puts on the wire, octets and NAL units, in order.
   */
  lemma ConnectionsDelivered(st: State, calls: seq<Call>, clock: TickClock)
    ensures var pieces := CutAtStarts(calls);
            var octets, nalus := ConnectionOctets(st, pieces, clock), ConnectionNalus(st, pieces);
            && |octets| == |nalus| == |pieces|
            && (forall i | 0 <= i < |pieces| :: Receive(octets[i]) == Some(nalus[i]) <==> AllRecoverable(nalus[i]))
            && Flatten(octets) == WireOctets(st, calls, clock)
            && Flatten(nalus) == NalusOnWire(st, calls)
  {
    hide Receive, WireOctets, NalusOnWire, AllRecoverable;
    NalusOfPieces(st, CutAtStarts(calls));
    PiecesOfRun(calls);
    PiecesDelivered(st, CutAtStarts(calls), clock);
    OctetsOfPieces(st, CutAtStarts(calls), clock);
  }
}
