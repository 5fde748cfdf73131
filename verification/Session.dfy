/** The sending session: its fields are updated in place, one method per method of the original. */
module Session {
  import opened Bytes
  import opened AnnexB
  import opened Payload
  import opened Wire
  import opened Sender

  /** Between two states of a session and of its log, exactly these chunks were sent. */
  ghost predicate Sending(before: State, log: seq<SendCall>, after: State, log': seq<SendCall>,
                          chunks: seq<Chunk>, ts: uint32)
  {
    && after == Count(before, chunks)
    && log' == log + CallsOf(before.sock, RtpOf(before, chunks, ts))
  }

  lemma SendingNothing(st: State, log: seq<SendCall>, ts: uint32)
    ensures Sending(st, log, st, log, [], ts)
  {
  }

  lemma SendingMore(st0: State, log0: seq<SendCall>, st1: State, log1: seq<SendCall>, st2: State, log2: seq<SendCall>,
                    xs: seq<Chunk>, ys: seq<Chunk>, ts: uint32)
    requires Sending(st0, log0, st1, log1, xs, ts)
    requires Sending(st1, log1, st2, log2, ys, ts)
    ensures Sending(st0, log0, st2, log2, xs + ys, ts)
  {
    CountAppend(st0, xs, ys);
    RtpOfAppend(st0, xs, ys, ts);
    CallsOfAppend(st0.sock, RtpOf(st0, xs, ts), RtpOf(Count(st0, xs), ys, ts));
  }

  lemma SendingOne(st: State, payload: seq<byte>, marker: bool, ts: uint32)
    ensures RtpOf(st, [Chunk(payload, marker)], ts) == [Rtp(marker, st.nextSeq, ts, st.ssrc, payload)]
    ensures forall m: Message :: CallsOf(st.sock, [m]) == [SendCall(st.sock, m)]
    ensures TotalSize([Chunk(payload, marker)]) == |payload|
  {
    assert [Chunk(payload, marker)][1..] == [];
  }

  // ---------- Buffers ----------

  /** A freshly allocated buffer holding `head` and then `tail`. */
  method Concatenate(head: seq<byte>, tail: seq<byte>) returns (buffer: array<byte>)
    ensures fresh(buffer) && buffer[..] == head + tail
  {
    buffer := new byte[|head| + |tail|](_ => 0);
    Memcpy(buffer, 0, head);
    Memcpy(buffer, |head|, tail);
  }

  /** The interleaved frame around an RTP or RTCP packet. */
  method TcpFrame(channel: byte, packet: seq<byte>) returns (tcpFrame: array<byte>)
    ensures fresh(tcpFrame) && tcpFrame[..] == Interleave(channel, packet)
  {
    tcpFrame := new byte[4 + |packet|](_ => 0);
    tcpFrame[0] := DOLLAR;
    tcpFrame[1] := channel;
    Memcpy(tcpFrame, 2, Htons(ToUint16(|packet|)));
    Memcpy(tcpFrame, 4, packet);
  }

  // ---------- Steps of the loops ----------

  lemma SliceOfSlice(s: seq<byte>, start: nat, size: nat, i: nat, j: nat)
    requires start + size <= |s| && i <= j <= size
    ensures s[start..start + size][i..j] == s[start + i..start + j]
  {
    var nalu := s[start..start + size];
    assert forall k | i <= k < j :: nalu[k] == s[start + k];
  }

  lemma EndBitOf(nal: byte, first: bool, last: bool)
    requires !(first && last)
    ensures HasEnd(FuHeader(nal, first, last)) == last
  {
  }

  /** The fragment the loop builds at `pos` is the `k`-th, and the next one begins behind its body. */
  lemma FragmentIs(nalu: seq<byte>, k: nat, pos: nat, len: nat)
    requires |nalu| > MTU && pos == Offset(|nalu|, k) < |nalu|
    requires len == if |nalu| - pos <= FRAGMENT_BODY then |nalu| - pos else FRAGMENT_BODY
    ensures k < |NaluChunks(nalu)| && pos + len == Offset(|nalu|, k + 1)
    ensures var fuHeader := FuHeader(nalu[0], pos == 1, |nalu| - pos - len == 0);
            NaluChunks(nalu)[k] == Chunk([FuIndicator(nalu[0]), fuHeader] + nalu[pos..pos + len], HasEnd(fuHeader))
  {
    var count := FragmentCount(|nalu|);
    assert FRAGMENT_BODY * (count - 1) < |nalu| - 1 <= FRAGMENT_BODY * count;
    assert pos == 1 + FRAGMENT_BODY * k && pos + len == Offset(|nalu|, k + 1);
    assert pos == 1 <==> k == 0;
    assert |nalu| - pos - len == 0 <==> k == count - 1;
    EndBitOf(nalu[0], k == 0, k == count - 1);
    assert NaluChunks(nalu)[k] == Fragment(nalu, k);
  }

  lemma SizesOf(nalu: seq<byte>)
    ensures |nalu| <= MTU ==> NaluChunks(nalu) == [Chunk(nalu, true)]
    ensures |nalu| > MTU ==> NaluChunks(nalu)[..0] == []
    ensures |nalu| > MTU ==> NaluChunks(nalu)[..FragmentCount(|nalu|)] == NaluChunks(nalu)
  {
  }

  /** The chunks of the NAL units that the outer loop still has to find from `pos` on. */
  ghost function Pending(data: seq<byte>, pos: nat): seq<Chunk>
    requires pos <= |data|
  {
    FrameChunks(Split(data[pos..]))
  }

  lemma PendingAtStart(data: seq<byte>)
    ensures Pending(data, 0) == FrameChunks(Split(data))
  {
    assert data[0..] == data;
  }

  lemma ScanFrom(data: seq<byte>, start: nat, end: nat)
    requires start <= end <= |data|
    requires end < |data| ==> RecognisedAt(data, end)
    requires forall j | start <= j < end :: !RecognisedAt(data, j)
    ensures Scan(data[start..]) == end - start
  {
    var s := data[start..];
    forall i | 0 <= i < |s|
      ensures RecognisedAt(s, i) == RecognisedAt(data, start + i)
    {
    }
    ScanIsFirst(s, end - start);
  }

  /** The scan from a start code at `pos` ended at the first recognised one behind it, or at the end. */
  lemma EndOfNalu(data: seq<byte>, pos: nat, end: nat)
    requires RecognisedAt(data, pos) && pos + 4 <= end <= |data|
    requires end < |data| ==> RecognisedAt(data, end)
    requires forall j | pos + 4 <= j < end :: !RecognisedAt(data, j)
    ensures Pending(data, pos) == NaluChunks(data[pos + 4..end]) + Pending(data, end)
  {
    ScanFrom(data, pos + 4, end);
    var s := data[pos..];
    assert s[4..] == data[pos + 4..];
    assert s[4..end - pos] == data[pos + 4..end] && s[end - pos..] == data[end..];
    assert Split(s) == [data[pos + 4..end]] + Split(data[end..]);
  }

  lemma SkipOctet(data: seq<byte>, pos: nat)
    requires pos < |data| && !RecognisedAt(data, pos)
    ensures Pending(data, pos) == Pending(data, pos + 1)
  {
    assert data[pos..][1..] == data[pos + 1..];
  }

  /** Four octets or fewer hold no recognised start code. */
  lemma {:induction false} NothingLeft(data: seq<byte>, pos: nat)
    requires pos <= |data| <= pos + 4
    ensures Pending(data, pos) == []
    decreases |data| - pos
  {
    if pos < |data| {
      SkipOctet(data, pos);
      NothingLeft(data, pos + 1);
    }
  }

  // ---------- The session ----------

  class RTPSendingSession {
    var tcpSock: int
    var rtpSeq: uint16
    var rtpSsrc: uint32
    var basePts: int
    var pktCount: uint32
    var octetCount: uint32
    var lastRtcpPts: int
    const clock: TickClock

    /** Every `send(2)` call so far, in order. */
    ghost var sent: seq<SendCall>

    ghost function View(): State
      reads this
    {
      State(tcpSock, rtpSeq, rtpSsrc, basePts, pktCount, octetCount, lastRtcpPts)
    }

    /** `indeterminate` is whatever the uninitialised SSRC field holds. */
    constructor (clock: TickClock, indeterminate: uint32)
      ensures View() == Initial(indeterminate)
      ensures tcpSock < 0 && rtpSeq == 0 && rtpSsrc == indeterminate && basePts == -1
      ensures pktCount == 0 && octetCount == 0 && lastRtcpPts == 0
      ensures this.clock == clock && sent == []
    {
      this.clock := clock;
      tcpSock, rtpSeq, rtpSsrc, basePts := -1, 0, indeterminate, -1;
      pktCount, octetCount, lastRtcpPts := 0, 0, 0;
      sent := [];
    }

    /** `ssrc` is the random draw; `fd` and `connects` are the outcomes of `socket` and `connect`. */
    method Start(ssrc: uint32, fd: int, connects: bool) returns (ok: bool)
      requires ssrc != 0
      modifies this`tcpSock, this`rtpSsrc
      ensures View() == Next(old(View()), Call.Start(ssrc, fd, connects))
      ensures ok <==> fd >= 0 && connects
      ensures ok ==> tcpSock == fd
      ensures !ok ==> tcpSock < 0
      ensures rtpSsrc == ssrc
    {
      rtpSsrc := ssrc;
      ok := CreateSockets(fd, connects);
    }

    method Stop()
      modifies this`tcpSock
      ensures View() == Next(old(View()), Call.Stop)
      ensures tcpSock < 0
    {
      if tcpSock >= 0 {
        tcpSock := -1;
      }
    }

    method CreateSockets(fd: int, connects: bool) returns (ok: bool)
      modifies this`tcpSock
      ensures ok <==> tcpSock >= 0
      ensures tcpSock == if fd < 0 || connects then fd else -1
    {
      tcpSock := fd;
      if tcpSock < 0 {
        return false;
      }
      if !connects {
        tcpSock := -1;
        return false;
      }
      return true;
    }

    /** `send(2)` on a stream socket, taken to accept the whole buffer, which must encode `message`. */
    ghost method Send(octets: seq<byte>, message: Message)
      requires octets == Encode(message)
      modifies this`sent
      ensures sent == old(sent) + [SendCall(tcpSock, message)]
    {
      sent := sent + [SendCall(tcpSock, message)];
    }

    method SendFrame(data: seq<byte>, pts: int, now: TimeOfDay)
      modifies this
      ensures View() == Next(old(View()), Call.SendFrame(data, pts, now))
      ensures sent == old(sent) + CallsOf(tcpSock, Emitted(old(View()), Call.SendFrame(data, pts, now), clock))
      ensures tcpSock == old(tcpSock) && rtpSsrc == old(rtpSsrc)
      ensures basePts == if old(basePts) < 0 then pts else old(basePts)
      ensures lastRtcpPts == if pts - old(lastRtcpPts) >= 1_000_000 then pts else old(lastRtcpPts)
      ensures forall i | |old(sent)| <= i < |sent| ::
                sent[i].fd == tcpSock && sent[i].message.timestamp == clock(pts - basePts)
    {
      hide Count, Split, FrameChunks, NaluChunks, ReportOf, ToUint16, ToUint32;
      ghost var st := View();
      if basePts < 0 {
        basePts := pts;
      }
      var delta := pts - basePts;
      var timestamp := clock(delta);
      ghost var work, skipped := ParseAndSendFrame(data, pts);
      ghost var packets := FramePackets(st, data, timestamp);
      assert sent == old(sent) + CallsOf(tcpSock, packets);
      if pts - lastRtcpPts >= SR_INTERVAL {
        SendRtcpSr(timestamp, now);
        CallsOfAppend(tcpSock, packets, [ReportOf(AfterPackets(st, data, pts), timestamp, now)]);
        lastRtcpPts := pts;
      }
      CallTimestamps(st, data, pts, now, clock);
    }

    method SendRtpPacket(payload: seq<byte>, marker: bool, timestamp: uint32)
      modifies this`rtpSeq, this`pktCount, this`octetCount, this`sent
      ensures Sending(old(View()), old(sent), View(), sent, [Chunk(payload, marker)], timestamp)
      ensures sent == old(sent) + [SendCall(tcpSock, Rtp(marker, old(rtpSeq), timestamp, rtpSsrc, payload))]
      ensures rtpSeq == (old(rtpSeq) + 1) % 0x1_0000
      ensures pktCount == (old(pktCount) + 1) % 0x1_0000_0000
      ensures octetCount == (old(octetCount) + |payload|) % 0x1_0000_0000
    {
      hide RtpHeader, Interleave, Htons, TotalSize;
      var header := RtpHeader(marker, rtpSeq, timestamp, rtpSsrc);
      ghost var message := Rtp(marker, rtpSeq, timestamp, rtpSsrc, payload);
      rtpSeq := ToUint16(rtpSeq + 1);

      var packet := Concatenate(header, payload);
      var tcpFrame := TcpFrame(RTP_CHANNEL, packet[..]);
      Send(tcpFrame[..], message);

      pktCount := ToUint32(pktCount + 1);
      octetCount := ToUint32(octetCount + |payload|);
      SendingOne(old(View()), payload, marker, timestamp);
    }

    method SendRtcpSr(timestamp: uint32, now: TimeOfDay)
      modifies this`sent
      ensures sent == old(sent) + CallsOf(tcpSock, [ReportOf(View(), timestamp, now)])
    {
      ghost var message := ReportOf(View(), timestamp, now);
      var sr := [VERSION_OCTET, PACKET_TYPE_SR] + Htons(6) + Htonl(rtpSsrc)
        + Htonl(ToUint32(now.0 + NTP_OFFSET)) + Htonl(NtpFraction(now.1))
        + Htonl(timestamp) + Htonl(pktCount) + Htonl(octetCount);
      assert sr == Body(message);

      var tcpFrame := TcpFrame(RTCP_CHANNEL, sr);
      Send(tcpFrame[..], message);
    }

    /**
     * The NAL unit is `data[start..start + size]`. Its first octet is read before the size is looked
     * at, so `data[start]` must be readable even for an empty NAL unit.
     */
    method PacketizeAndSendNalu(data: seq<byte>, start: nat, size: nat, timestamp: uint32)
      requires start < |data| && start + size <= |data|
      modifies this`rtpSeq, this`pktCount, this`octetCount, this`sent
      ensures Sending(old(View()), old(sent), View(), sent, NaluChunks(data[start..start + size]), timestamp)
    {
      hide Count, RtpOf, CallsOf, NaluChunks, FragmentBody, Sending, HasEnd;
      ghost var nalu := data[start..start + size];
      ghost var chunks := NaluChunks(nalu);
      SendingNothing(View(), sent, timestamp);
      SizesOf(nalu);
      var nalHeader := data[start];
      var nalType := TypeOf(nalHeader);
      if size <= MTU {
        SendRtpPacket(data[start..start + size], true, timestamp);
        return;
      }

      var fuIndicator := FuIndicator(nalHeader);
      var fuHeaderStart: byte := 0x80 + nalType;
      var fuHeaderMid := nalType;
      var fuHeaderEnd: byte := 0x40 + nalType;

      var pos := 1;
      ghost var k: nat := 0;
      ghost var st := View();
      while pos < size
        invariant 0 <= k <= |chunks| && pos == Offset(size, k)
        invariant Sending(st, old(sent), View(), sent, chunks[..k], timestamp)
        decreases size - pos
      {
        var remaining := size - pos;
        var payloadLen := if remaining <= FRAGMENT_BODY then remaining else FRAGMENT_BODY;
        var fuHeader := if pos == 1 then fuHeaderStart
                        else if remaining - payloadLen == 0 then fuHeaderEnd
                        else fuHeaderMid;

        var buf := Concatenate([fuIndicator, fuHeader], data[start + pos..start + pos + payloadLen]);
        SliceOfSlice(data, start, size, pos, pos + payloadLen);
        FragmentIs(nalu, k, pos, payloadLen);
        assert Chunk(buf[..], HasEnd(fuHeader)) == chunks[k];
        ghost var mid, log := View(), sent;
        SendRtpPacket(buf[..], HasEnd(fuHeader), timestamp);
        SendingMore(st, old(sent), mid, log, View(), sent, chunks[..k], [chunks[k]], timestamp);
        TakeOneMore(chunks, k);
        pos := pos + payloadLen;
        k := k + 1;
      }
      assert chunks[..k] == chunks;
    }

    /** The inner scan: where the NAL unit that begins at `start` ends. `scanned` counts its iterations. */
    static method EndFrom(data: seq<byte>, start: nat) returns (end: nat, ghost scanned: nat)
      requires start <= |data|
      ensures start <= end <= |data|
      ensures end < |data| ==> RecognisedAt(data, end)
      ensures forall j | start <= j < end :: !RecognisedAt(data, j)
      ensures scanned <= end - start + 1
    {
      end, scanned := |data|, 0;
      var i := start;
      while i + 4 < |data|
        invariant start <= i <= |data| && end == |data| && scanned == i - start
        invariant forall j | start <= j < i :: !RecognisedAt(data, j)
        decreases |data| - i
      {
        scanned := scanned + 1;
        if data[i] == 0x00 && data[i + 1] == 0x00 && data[i + 2] == 0x00 && data[i + 3] == 0x01 {
          end := i;
          break;
        }
        i := i + 1;
      }
    }

    /**
     * The branch taken at a start code: scan for the next one and send the NAL unit between them.
     * `work` counts the iterations of the scan.
     */
    method SendNaluAt(data: seq<byte>, pos: nat, timestamp: uint32) returns (end: nat, ghost work: nat)
      requires RecognisedAt(data, pos)
      modifies this`rtpSeq, this`pktCount, this`octetCount, this`sent
      ensures pos + 4 <= end <= |data|
      ensures end < |data| ==> RecognisedAt(data, end)
      ensures Pending(data, pos) == NaluChunks(data[pos + 4..end]) + Pending(data, end)
      ensures Sending(old(View()), old(sent), View(), sent, NaluChunks(data[pos + 4..end]), timestamp)
      ensures work <= end - pos - 3
    {
      var start := pos + 4;
      end, work := EndFrom(data, start);
      EndOfNalu(data, pos, end);
      PacketizeAndSendNalu(data, start, end - start, timestamp);
    }

    /**
     * `work` counts the iterations of both loops, `skipped` those that found no start code: the skip
     * branch is never taken again after the first start code.
     */
    method ParseAndSendFrame(data: seq<byte>, pts: int) returns (ghost work: nat, ghost skipped: nat)
      modifies this`rtpSeq, this`pktCount, this`octetCount, this`sent
      ensures Sending(old(View()), old(sent), View(), sent, FrameChunks(Split(data)), clock(pts - basePts))
      ensures work <= |data| && skipped <= Scan(data)
    {
      hide Count, RtpOf, CallsOf, NaluChunks, FrameChunks, Split, Pending, Sending, Scan;
      PendingAtStart(data);
      ScanFindsFirst(data);
      var pos := 0;
      ghost var st := View();
      ghost var ts := clock(pts - basePts);
      ghost var done: seq<Chunk> := [];
      work, skipped := 0, 0;
      SendingNothing(View(), sent, ts);
      while pos + 4 < |data|
        invariant 0 <= pos <= |data|
        invariant FrameChunks(Split(data)) == done + Pending(data, pos)
        invariant Sending(st, old(sent), View(), sent, done, ts)
        invariant ts == clock(pts - basePts)
        invariant work <= pos && skipped <= Scan(data)
        invariant pos == skipped || pos == |data| || RecognisedAt(data, pos)
        decreases |data| - pos
      {
        work := work + 1;
        if data[pos] == 0x00 && data[pos + 1] == 0x00 && data[pos + 2] == 0x00 && data[pos + 3] == 0x01 {
          ghost var mid, log := View(), sent;
          var end, scanned := SendNaluAt(data, pos, clock(pts - basePts));
          ghost var chunks := NaluChunks(data[pos + 4..end]);
          SendingMore(st, old(sent), mid, log, View(), sent, done, chunks, ts);
          AppendAssoc(done, chunks, Pending(data, end));
          done := done + chunks;
          work := work + scanned;
          pos := end;
        } else {
          SkipOctet(data, pos);
          skipped := skipped + 1;
          pos := pos + 1;
        }
      }
      NothingLeft(data, pos);
      AppendNothing(done);
    }
  }
}
