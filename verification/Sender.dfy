/** The sender's state and the messages each of its calls emits, as values. */
module Sender {
  import opened Bytes
  import opened AnnexB
  import opened Payload
  import opened Wire

  const SR_INTERVAL := 1_000_000
  const NTP_OFFSET := 2_208_988_800

  /** The deterministic conversion of a microsecond difference to 90 kHz ticks; see module Clock. */
  type TickClock = int -> uint32

  /** What `gettimeofday` yields. */
  type TimeOfDay = t: (int, int) | 0 <= t.1 < 1_000_000 witness (0, 0)

  datatype State = State(
    sock: int,          // the descriptor; negative when there is no connection
    nextSeq: uint16,
    ssrc: uint32,
    basePts: int,       // negative until the first frame with a non-negative pts
    packets: uint32,
    octets: uint32,
    lastSrPts: int)

  /** A fresh session; its SSRC is indeterminate until the first `Start`. */
  function Initial(ssrc: uint32): State {
    State(-1, 0, ssrc, -1, 0, 0, 0)
  }

  /** The calls a session serves. */
  datatype Call =
    | Start(newSsrc: uint32, fd: int, connects: bool)
    | Stop
    | SendFrame(data: seq<byte>, pts: int, now: TimeOfDay)

  // ---------- Messages ----------

  /** The RTP packets that carry `chunks`, numbered from the state's next sequence number. */
  function RtpOf(st: State, chunks: seq<Chunk>, ts: uint32): (ms: seq<Message>)
    ensures |ms| == |chunks|
  {
    seq(|chunks|, i requires 0 <= i < |chunks| =>
      Rtp(chunks[i].marker, ToUint16(st.nextSeq + i), ts, st.ssrc, chunks[i].payload))
  }

  /** The state after these chunks are sent. */
  function Count(st: State, chunks: seq<Chunk>): State {
    st.(nextSeq := ToUint16(st.nextSeq + |chunks|),
        packets := ToUint32(st.packets + |chunks|),
        octets := ToUint32(st.octets + TotalSize(chunks)))
  }

  /** `((uint64_t)usec << 32) / 1000000` */
  function NtpFraction(usec: int): uint32
    requires 0 <= usec < 1_000_000
  {
    usec * 0x1_0000_0000 / 1_000_000
  }

  function ReportOf(st: State, ts: uint32, now: TimeOfDay): Message {
    SenderReport(st.ssrc, ToUint32(now.0 + NTP_OFFSET), NtpFraction(now.1), ts, st.packets, st.octets)
  }

  // ---------- One frame ----------

  /** The base is fixed by the first frame with a non-negative pts. */
  function BaseFor(st: State, pts: int): int {
    if st.basePts < 0 then pts else st.basePts
  }

  function Timestamp(st: State, pts: int, clock: TickClock): uint32 {
    clock(pts - BaseFor(st, pts))
  }

  predicate ReportDue(st: State, pts: int) {
    pts - st.lastSrPts >= SR_INTERVAL
  }

  /** The state once the frame's packets are sent. */
  function AfterPackets(st: State, data: seq<byte>, pts: int): State {
    Count(st.(basePts := BaseFor(st, pts)), FrameChunks(Split(data)))
  }

  function FramePackets(st: State, data: seq<byte>, ts: uint32): seq<Message> {
    RtpOf(st, FrameChunks(Split(data)), ts)
  }

  // ---------- One call ----------

  function Next(st: State, call: Call): State {
    match call
    case Start(newSsrc, fd, connects) =>
      st.(ssrc := newSsrc, sock := if fd < 0 then fd else if connects then fd else -1)
    case Stop => st.(sock := if st.sock >= 0 then -1 else st.sock)
    case SendFrame(data, pts, now) =>
      AfterPackets(st, data, pts).(lastSrPts := if ReportDue(st, pts) then pts else st.lastSrPts)
  }

  function Emitted(st: State, call: Call, clock: TickClock): seq<Message> {
    match call
    case Start(_, _, _) => []
    case Stop => []
    case SendFrame(data, pts, now) =>
      var ts := Timestamp(st, pts, clock);
      FramePackets(st, data, ts)
      + if ReportDue(st, pts) then [ReportOf(AfterPackets(st, data, pts), ts, now)] else []
  }

  lemma CallTimestamps(st: State, data: seq<byte>, pts: int, now: TimeOfDay, clock: TickClock)
    ensures var ms := Emitted(st, SendFrame(data, pts, now), clock);
            forall i | 0 <= i < |ms| :: ms[i].timestamp == Timestamp(st, pts, clock)
  {
  }

  // ---------- The log of send(2) ----------

  /** One `send(2)` call: the descriptor, and the message whose encoding was handed to it. */
  datatype SendCall = SendCall(fd: int, message: Message)

  function CallsOf(fd: int, ms: seq<Message>): seq<SendCall> {
    seq(|ms|, i requires 0 <= i < |ms| => SendCall(fd, ms[i]))
  }

  lemma CallsOfAppend(fd: int, xs: seq<Message>, ys: seq<Message>)
    ensures CallsOf(fd, xs + ys) == CallsOf(fd, xs) + CallsOf(fd, ys)
  {
  }

  // ---------- Sending in two parts ----------

  lemma CountAppend(st: State, xs: seq<Chunk>, ys: seq<Chunk>)
    ensures Count(st, xs + ys) == Count(Count(st, xs), ys)
  {
    TotalSizeAppend(xs, ys);
    WrapEarly16(st.nextSeq + |xs|, |ys|);
    WrapEarly32(st.packets + |xs|, |ys|);
    WrapEarly32(st.octets + TotalSize(xs), TotalSize(ys));
  }

  lemma RtpOfAppend(st: State, xs: seq<Chunk>, ys: seq<Chunk>, ts: uint32)
    ensures RtpOf(st, xs + ys, ts) == RtpOf(st, xs, ts) + RtpOf(Count(st, xs), ys, ts)
  {
    var both := RtpOf(st, xs, ts) + RtpOf(Count(st, xs), ys, ts);
    forall i | 0 <= i < |xs + ys|
      ensures RtpOf(st, xs + ys, ts)[i] == both[i]
    {
      if i >= |xs| {
        WrapEarly16(st.nextSeq + |xs|, i - |xs|);
      }
    }
  }
}
