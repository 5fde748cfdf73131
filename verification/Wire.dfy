/**
 * What goes over the TCP connection: RTP packets (section 5.1 of RFC 3550) and Sender Reports
 * (section 6.4.1 of RFC 3550), each behind a `$`, a channel and a 16-bit length (section 10.12 of
 * RFC 2326). The receiver's reader is the reference.
 */
module Wire {
  import opened Bytes
  import opened Payload

  const DOLLAR: byte := 0x24
  const RTP_CHANNEL: byte := 0
  const RTCP_CHANNEL: byte := 1
  const VERSION_OCTET: byte := 0x80
  const PAYLOAD_TYPE_H264: byte := 98
  const PACKET_TYPE_SR: byte := 200
  const RTP_HEADER_SIZE := 12
  const SR_SIZE := 28

  datatype Message =
    | Rtp(marker: bool, sequence: uint16, timestamp: uint32, ssrc: uint32, payload: seq<byte>)
    | SenderReport(ssrc: uint32, ntpSec: uint32, ntpFrac: uint32, timestamp: uint32,
                   packetCount: uint32, octetCount: uint32)

  // ---------- Sender ----------

  function MarkerOctet(marker: bool): byte {
    (if marker then 0x80 else 0) + PAYLOAD_TYPE_H264
  }

  /** The two constant octets are the sender's bit expressions. */
  lemma HeaderBits()
    ensures VERSION_OCTET == ((2 as bv8) << 6) as int
    ensures MarkerOctet(true) == ((0x80 as bv8) | ((98 as bv8) & 0x7F)) as int
    ensures MarkerOctet(false) == ((0x00 as bv8) | ((98 as bv8) & 0x7F)) as int
  {
  }

  function RtpHeader(marker: bool, sequence: uint16, timestamp: uint32, ssrc: uint32): (header: seq<byte>)
    ensures |header| == RTP_HEADER_SIZE
  {
    [VERSION_OCTET, MarkerOctet(marker)] + Htons(sequence) + Htonl(timestamp) + Htonl(ssrc)
  }

  function BodySize(m: Message): nat {
    if m.Rtp? then RTP_HEADER_SIZE + |m.payload| else SR_SIZE
  }

  function Body(m: Message): (body: seq<byte>)
    ensures |body| == BodySize(m)
  {
    match m
    case Rtp(marker, sequence, timestamp, ssrc, payload) =>
      RtpHeader(marker, sequence, timestamp, ssrc) + payload
    case SenderReport(ssrc, ntpSec, ntpFrac, timestamp, packetCount, octetCount) =>
      [VERSION_OCTET, PACKET_TYPE_SR] + Htons(6) + Htonl(ssrc) + Htonl(ntpSec) + Htonl(ntpFrac)
      + Htonl(timestamp) + Htonl(packetCount) + Htonl(octetCount)
  }

  /** The interleaved header; a body too long for the 16-bit length field has its length truncated. */
  function Interleave(channel: byte, body: seq<byte>): seq<byte> {
    [DOLLAR, channel] + Htons(ToUint16(|body|)) + body
  }

  function Encode(m: Message): seq<byte> {
    Interleave(if m.Rtp? then RTP_CHANNEL else RTCP_CHANNEL, Body(m))
  }

  function EncodeAll(ms: seq<Message>): seq<byte> {
    FlatMap(Encode, ms)
  }

  /** The messages whose length the interleaved header can express. */
  predicate Framable(m: Message) {
    BodySize(m) < 0x1_0000
  }

  /** The number that octets `at` to `at + 3` of a buffer hold, most significant first. */
  ghost predicate Holds32(s: seq<byte>, at: nat, n: int) {
    && at + 4 <= |s|
    && n == 0x100_0000 * (s[at] as int) + 0x1_0000 * (s[at + 1] as int) + 0x100 * (s[at + 2] as int) + s[at + 3] as int
  }

  ghost predicate Holds16(s: seq<byte>, at: nat, n: int) {
    at + 2 <= |s| && n == 0x100 * (s[at] as int) + s[at + 1] as int
  }

  lemma HtonlHolds(s: seq<byte>, at: nat, n: uint32)
    requires at + 4 <= |s| && s[at..at + 4] == Htonl(n)
    ensures Holds32(s, at, n)
  {
    var field := s[at..at + 4];
    assert s[at] == field[0] && s[at + 1] == field[1] && s[at + 2] == field[2] && s[at + 3] == field[3];
    DigitsOf32(n);
  }

  lemma HtonsHolds(s: seq<byte>, at: nat, n: uint16)
    requires at + 2 <= |s| && s[at..at + 2] == Htons(n)
    ensures Holds16(s, at, n)
  {
    assert s[at] == s[at..at + 2][0] && s[at + 1] == s[at..at + 2][1];
  }

  /** An RTP packet octet by octet: `$`, channel 0, length, then the header of section 5.1 of RFC 3550. */
  lemma RtpOctets(m: Message)
    requires m.Rtp?
    ensures var s := Encode(m);
            && |s| == 16 + |m.payload|
            && s[0] == 0x24 && s[1] == 0 && Holds16(s, 2, (12 + |m.payload|) % 0x1_0000)
            && s[4] == 0x80 && s[5] == (if m.marker then 0xE2 else 0x62)
            && Holds16(s, 6, m.sequence) && Holds32(s, 8, m.timestamp) && Holds32(s, 12, m.ssrc)
            && s[16..] == m.payload
  {
    hide Htonl, Htons, Holds16, Holds32;
    var s := Encode(m);
    assert s[2..4] == Htons(ToUint16(12 + |m.payload|)) && s[6..8] == Htons(m.sequence);
    assert s[8..12] == Htonl(m.timestamp) && s[12..16] == Htonl(m.ssrc);
    HtonsHolds(s, 2, ToUint16(12 + |m.payload|));
    HtonsHolds(s, 6, m.sequence);
    HtonlHolds(s, 8, m.timestamp);
    HtonlHolds(s, 12, m.ssrc);
    assert s[16..] == m.payload;
  }

  lemma ReportSlices(m: Message)
    requires m.SenderReport?
    ensures var body := Body(m);
            && body[0] == 0x80 && body[1] == 200 && body[2..4] == Htons(6) && body[4..8] == Htonl(m.ssrc)
            && body[8..12] == Htonl(m.ntpSec) && body[12..16] == Htonl(m.ntpFrac) && body[16..20] == Htonl(m.timestamp)
            && body[20..24] == Htonl(m.packetCount) && body[24..28] == Htonl(m.octetCount)
  {
    hide Htonl, Htons;
    var fixed := [VERSION_OCTET, PACKET_TYPE_SR] + Htons(6);
    var first := fixed + Htonl(m.ssrc) + Htonl(m.ntpSec) + Htonl(m.ntpFrac);
    var body := Body(m);
    assert body == first + (Htonl(m.timestamp) + Htonl(m.packetCount) + Htonl(m.octetCount));
    assert body[..16] == first;
    assert body[2..4] == first[2..4] && body[4..8] == first[4..8];
    assert body[8..12] == first[8..12] && body[12..16] == first[12..16];
  }

  /** Behind the four octets of the interleaved header everything moves by four. */
  lemma Moved(head: seq<byte>, body: seq<byte>, i: nat, j: nat)
    requires |head| == 4 && i <= j <= |body|
    ensures (head + body)[i + 4..j + 4] == body[i..j]
  {
  }

  lemma BodyHolds32(head: seq<byte>, body: seq<byte>, at: nat, n: uint32)
    requires |head| == 4 && at + 4 <= |body| && body[at..at + 4] == Htonl(n)
    ensures Holds32(head + body, at + 4, n)
  {
    Moved(head, body, at, at + 4);
    HtonlHolds(head + body, at + 4, n);
  }

  /** A Sender Report octet by octet: `$`, channel 1, 28, then section 6.4.1 of RFC 3550. */
  lemma ReportOctets(m: Message)
    requires m.SenderReport?
    ensures var s := Encode(m);
            && |s| == 32
            && s[0] == 0x24 && s[1] == 1 && Holds16(s, 2, 28)
            && s[4] == 0x80 && s[5] == 200 && Holds16(s, 6, 6) && Holds32(s, 8, m.ssrc)
            && Holds32(s, 12, m.ntpSec) && Holds32(s, 16, m.ntpFrac) && Holds32(s, 20, m.timestamp)
            && Holds32(s, 24, m.packetCount) && Holds32(s, 28, m.octetCount)
  {
    hide Body, Htonl, Htons, Holds16, Holds32;
    var head, body := [DOLLAR, RTCP_CHANNEL] + Htons(28), Body(m);
    assert Encode(m) == head + body;
    ReportSlices(m);
    HtonsHolds(head + body, 2, 28);
    Moved(head, body, 2, 4);
    HtonsHolds(head + body, 6, 6);
    BodyHolds32(head, body, 4, m.ssrc);
    BodyHolds32(head, body, 8, m.ntpSec);
    BodyHolds32(head, body, 12, m.ntpFrac);
    BodyHolds32(head, body, 16, m.timestamp);
    BodyHolds32(head, body, 20, m.packetCount);
    BodyHolds32(head, body, 24, m.octetCount);
  }

  // ---------- Receiver ----------

  function DecodeBody(channel: byte, body: seq<byte>): Option<Message> {
    if channel == RTP_CHANNEL then
      if |body| < RTP_HEADER_SIZE || body[0] != VERSION_OCTET || body[1] % 0x80 != PAYLOAD_TYPE_H264 then None
      else Some(Rtp(body[1] >= 0x80, ReadU16(body, 2), ReadU32(body, 4), ReadU32(body, 8), body[12..]))
    else if channel == RTCP_CHANNEL then
      if |body| != SR_SIZE || body[0] != VERSION_OCTET || body[1] != PACKET_TYPE_SR then None
      else if 4 * (ReadU16(body, 2) + 1) != |body| then None
      else Some(SenderReport(ReadU32(body, 4), ReadU32(body, 8), ReadU32(body, 12), ReadU32(body, 16),
                             ReadU32(body, 20), ReadU32(body, 24)))
    else None
  }

  /** Cuts the octet stream at the lengths it announces and decodes every piece. */
  function Decode(s: seq<byte>): Option<seq<Message>>
    decreases |s|
  {
    if s == [] then Some([])
    else if |s| < 4 || s[0] != DOLLAR || |s| < 4 + ReadU16(s, 2) then None
    else
      var size := ReadU16(s, 2);
      match DecodeBody(s[1], s[4..4 + size])
      case None => None
      case Some(m) =>
        match Decode(s[4 + size..])
        case None => None
        case Some(ms) => Some([m] + ms)
  }

  // ---------- Round trip ----------

  lemma DecodeRtpBody(m: Message)
    requires m.Rtp?
    ensures DecodeBody(RTP_CHANNEL, Body(m)) == Some(m)
  {
    var body := Body(m);
    assert body[0] == VERSION_OCTET && body[1] == MarkerOctet(m.marker) && body[2..4] == Htons(m.sequence);
    ReadBack16(body, 2, m.sequence);
    assert body[4..8] == Htonl(m.timestamp) && body[8..12] == Htonl(m.ssrc);
    ReadBack32(body, 4, m.timestamp);
    ReadBack32(body, 8, m.ssrc);
    assert body[12..] == m.payload;
  }

  lemma DecodeSrBody(m: Message)
    requires m.SenderReport?
    ensures DecodeBody(RTCP_CHANNEL, Body(m)) == Some(m)
  {
    var body := Body(m);
    ReportSlices(m);
    ReadBack16(body, 2, 6);
    ReadBack32(body, 4, m.ssrc);
    ReadBack32(body, 8, m.ntpSec);
    ReadBack32(body, 12, m.ntpFrac);
    ReadBack32(body, 16, m.timestamp);
    ReadBack32(body, 20, m.packetCount);
    ReadBack32(body, 24, m.octetCount);
  }

  /** One step of the reader on an encoded message: with a truncated length it cuts too early. */
  lemma DecodeStep(m: Message, rest: seq<byte>)
    ensures var s := Encode(m) + rest;
            && |s| >= 4 && s[0] == DOLLAR && s[1] == (if m.Rtp? then RTP_CHANNEL else RTCP_CHANNEL)
            && ReadU16(s, 2) == ToUint16(|Body(m)|)
            && s[4..] == Body(m) + rest
  {
    hide Body, ToUint16;
    var s := Encode(m) + rest;
    assert s[2..4] == Htons(ToUint16(|Body(m)|));
    ReadBack16(s, 2, ToUint16(|Body(m)|));
  }

  /** One step of the reader on a stream that begins with a complete body. */
  lemma DecodeBegun(s: seq<byte>, m: Message, body: seq<byte>, rest: seq<byte>)
    requires |s| >= 4 && s[0] == DOLLAR && ReadU16(s, 2) == |body| && s[4..] == body + rest
    requires DecodeBody(s[1], body) == Some(m)
    ensures Decode(s) == match Decode(rest) case None => None case Some(ms) => Some([m] + ms)
  {
    assert s[4..4 + |body|] == s[4..][..|body|] == body;
    assert s[4 + |body|..] == s[4..][|body|..] == rest;
  }

  lemma DecodeMessage(m: Message, rest: seq<byte>)
    requires Framable(m)
    ensures Decode(Encode(m) + rest) == match Decode(rest) case None => None case Some(ms) => Some([m] + ms)
  {
    hide Encode, Body, DecodeBody, Decode;
    DecodeStep(m, rest);
    if m.Rtp? {
      DecodeRtpBody(m);
    } else {
      DecodeSrBody(m);
    }
    DecodeBegun(Encode(m) + rest, m, Body(m), rest);
  }

  /** A message too long for its length field is not read back, whatever follows. */
  lemma UnframableLost(m: Message, rest: seq<byte>)
    requires !Framable(m)
    ensures var out := Decode(Encode(m) + rest); out.None? || out.value[0] != m
  {
    DecodeStep(m, rest);
  }

  lemma DecodeFirst(m: Message, rest: seq<byte>, ms: seq<Message>)
    ensures Decode(Encode(m) + rest) == Some([m] + ms) <==> Framable(m) && Decode(rest) == Some(ms)
  {
    if Framable(m) {
      DecodeMessage(m, rest);
      var out := Decode(rest);
      assert out.Some? ==> ([m] + out.value)[1..] == out.value;
    } else {
      UnframableLost(m, rest);
    }
    assert ([m] + ms)[0] == m && ([m] + ms)[1..] == ms;
  }

  /** Interleaved framing is uniquely decodable, for exactly the lists of framable messages. */
  lemma {:induction false} DecodeExactly(ms: seq<Message>)
    ensures Decode(EncodeAll(ms)) == Some(ms) <==> forall m | m in ms :: Framable(m)
  {
    if ms != [] {
      DecodeExactly(ms[1..]);
      DecodeFirst(ms[0], EncodeAll(ms[1..]), ms[1..]);
      assert ms == [ms[0]] + ms[1..];
    }
  }
}
