/**
 * The RTP payload format for H.264 (RFC 6184): a NAL unit is one single-NAL packet (section 5.6)
 * or a run of FU-A fragments (section 5.8). The receiver's depacketizer is the reference.
 */
module Payload {
  import opened Bytes

  const MTU := 1400
  const FRAGMENT_BODY := MTU - 2
  const STAP_A := 24
  const FU_A := 28

  /** One RTP payload, with the marker bit it is sent with. */
  datatype Chunk = Chunk(payload: seq<byte>, marker: bool)

  // ---------- NAL and FU octets ----------

  /** `nal & 0x1F` */
  function TypeOf(nal: byte): byte { nal % 0x20 }

  /** `nal & 0xE0`: the forbidden bit and the reference level */
  function ImportanceOf(nal: byte): byte { nal / 0x20 * 0x20 }

  function FuIndicator(nal: byte): byte { ImportanceOf(nal) + FU_A }

  function FuHeader(nal: byte, first: bool, last: bool): byte {
    (if first then 0x80 else if last then 0x40 else 0) + TypeOf(nal)
  }

  predicate HasStart(fuHeader: byte) { fuHeader >= 0x80 }

  /** `(fuHeader & 0x40) != 0` */
  predicate HasEnd(fuHeader: byte) { fuHeader / 0x40 % 2 == 1 }

  /** The NAL octet a receiver rebuilds from a fragment. */
  function RebuiltNal(fuIndicator: byte, fuHeader: byte): byte {
    ImportanceOf(fuIndicator) + TypeOf(fuHeader)
  }

  /** The arithmetic above is the sender's bit arithmetic, for every octet. */
  lemma NalBits(nal: bv8)
    ensures TypeOf(nal as int) == (nal & 0x1F) as int
    ensures ImportanceOf(nal as int) == (nal & 0xE0) as int
    ensures FuIndicator(nal as int) == ((nal & 0xE0) | 28) as int
  {
    assert (nal & 0xE0) as int + (nal & 0x1F) as int == nal as int;
    assert (nal & 0xE0) as int == 0x20 * ((nal >> 5) as int);
    assert (nal & 0x1F) as int < 0x20;
    assert ((nal & 0xE0) | 28) as int == (nal & 0xE0) as int + 28;
  }

  lemma FuHeaderBits(nal: bv8)
    ensures FuHeader(nal as int, true, false) == (0x80 | (nal & 0x1F)) as int
    ensures FuHeader(nal as int, false, true) == (0x40 | (nal & 0x1F)) as int
    ensures FuHeader(nal as int, false, false) == (nal & 0x1F) as int
  {
    NalBits(nal);
    var t := nal & 0x1F;
    assert (0x80 | t) as int == 0x80 + t as int && (0x40 | t) as int == 0x40 + t as int;
  }

  lemma FlagBits(fuHeader: bv8)
    ensures HasStart(fuHeader as int) <==> (fuHeader & 0x80) != 0
    ensures HasEnd(fuHeader as int) <==> (fuHeader & 0x40) != 0
  {
    assert (fuHeader & 0x80) != 0 <==> fuHeader >= 0x80;
  }

  // ---------- Sender ----------

  /** ceil((size - 1) / 1398) */
  function FragmentCount(size: nat): nat
    requires size > 0
  {
    (size - 1 + FRAGMENT_BODY - 1) / FRAGMENT_BODY
  }

  /** Where the body of fragment `k` begins in the NAL unit; fragment `FragmentCount` begins at its end. */
  function Offset(size: nat, k: nat): nat
    requires size > 0
  {
    if 1 + FRAGMENT_BODY * k < size then 1 + FRAGMENT_BODY * k else size
  }

  function FragmentBody(nalu: seq<byte>, k: nat): seq<byte>
    requires nalu != []
  {
    nalu[Offset(|nalu|, k)..Offset(|nalu|, k + 1)]
  }

  function Fragment(nalu: seq<byte>, k: nat): Chunk
    requires nalu != []
  {
    var last := k == FragmentCount(|nalu|) - 1;
    Chunk([FuIndicator(nalu[0]), FuHeader(nalu[0], k == 0, last)] + FragmentBody(nalu, k), last)
  }

  /** The packets of one NAL unit. */
  function NaluChunks(nalu: seq<byte>): seq<Chunk> {
    if |nalu| <= MTU then [Chunk(nalu, true)]
    else seq(FragmentCount(|nalu|), k requires 0 <= k => Fragment(nalu, k))
  }

  function FrameChunks(nalus: seq<seq<byte>>): seq<Chunk> {
    FlatMap(NaluChunks, nalus)
  }

  function Payloads(chunks: seq<Chunk>): seq<seq<byte>> {
    seq(|chunks|, i requires 0 <= i < |chunks| => chunks[i].payload)
  }

  function TotalSize(chunks: seq<Chunk>): nat {
    if chunks == [] then 0 else |chunks[0].payload| + TotalSize(chunks[1..])
  }

  lemma TotalSizeAppend(xs: seq<Chunk>, ys: seq<Chunk>)
    ensures TotalSize(xs + ys) == TotalSize(xs) + TotalSize(ys)
  {
    if xs == [] {
      AppendNothing(ys);
    } else {
      TotalSizeAppend(xs[1..], ys);
      RestOfAppend(xs, ys);
    }
  }

  // ---------- Shape of a fragmented NAL unit ----------

  ghost predicate StartBit(c: Chunk) { |c.payload| >= 2 && HasStart(c.payload[1]) }

  ghost predicate EndBit(c: Chunk) { |c.payload| >= 2 && HasEnd(c.payload[1]) }

  /**
   * Section 5.8 of RFC 6184: at least two fragments, S on exactly the first, E (and the marker) on
   * exactly the last; every fragment but the last fills the limit and none exceeds it; and any of
   * them gives back the NAL octet.
   */
  lemma FragmentShape(nalu: seq<byte>, k: nat)
    requires |nalu| > MTU
    requires k < |NaluChunks(nalu)|
    ensures |NaluChunks(nalu)| >= 2
    ensures var c := NaluChunks(nalu)[k]; var last := k == |NaluChunks(nalu)| - 1;
            && 2 < |c.payload| <= MTU
            && (!last ==> |c.payload| == MTU)
            && (StartBit(c) <==> k == 0)
            && (EndBit(c) <==> last)
            && (c.marker <==> last)
            && TypeOf(c.payload[0]) == FU_A
            && RebuiltNal(c.payload[0], c.payload[1]) == nalu[0]
  {
    var size := |nalu|;
    var count := FragmentCount(size);
    assert FRAGMENT_BODY * (count - 1) < size - 1 <= FRAGMENT_BODY * count;
    assert 1 + FRAGMENT_BODY * k < size;
    assert k < count - 1 ==> FRAGMENT_BODY * (k + 1) <= FRAGMENT_BODY * (count - 1);
  }

  /** The payloads without their FU indicator and FU header. */
  function Bodies(chunks: seq<Chunk>): seq<seq<byte>> {
    seq(|chunks|, i requires 0 <= i < |chunks| =>
      if |chunks[i].payload| < 2 then [] else chunks[i].payload[2..])
  }

  lemma BodiesRest(chunks: seq<Chunk>, k: nat)
    requires k < |chunks|
    ensures Bodies(chunks[k..])[1..] == Bodies(chunks[k + 1..])
  {
  }

  lemma CutAt(s: seq<byte>, i: nat, j: nat)
    requires i <= j <= |s|
    ensures s[i..] == s[i..j] + s[j..]
    ensures s[..j] == s[..i] + s[i..j]
  {
  }

  lemma {:induction false} BodiesFrom(nalu: seq<byte>, k: nat)
    requires |nalu| > MTU
    requires k <= FragmentCount(|nalu|)
    ensures Flatten(Bodies(NaluChunks(nalu)[k..])) == nalu[Offset(|nalu|, k)..]
    decreases FragmentCount(|nalu|) - k
  {
    if k < FragmentCount(|nalu|) {
      var chunks := NaluChunks(nalu);
      var bodies := Bodies(chunks[k..]);
      BodiesFrom(nalu, k + 1);
      assert bodies[0] == FragmentBody(nalu, k);
      assert bodies[1..] == Bodies(chunks[k + 1..]) by {
        BodiesRest(chunks, k);
      }
      CutAt(nalu, Offset(|nalu|, k), Offset(|nalu|, k + 1));
    }
  }

  /** The fragment bodies, concatenated, are the NAL unit without its first octet. */
  lemma BodiesCover(nalu: seq<byte>)
    requires |nalu| > MTU
    ensures Flatten(Bodies(NaluChunks(nalu))) == nalu[1..]
  {
    BodiesFrom(nalu, 0);
    assert NaluChunks(nalu)[0..] == NaluChunks(nalu);
  }

  lemma {:induction false} FlattenBound<T>(lists: seq<seq<T>>, bound: nat)
    requires forall k | 0 <= k < |lists| :: |lists[k]| <= bound
    ensures |Flatten(lists)| <= bound * |lists|
  {
    if lists != [] {
      FlattenBound(lists[1..], bound);
      assert bound * |lists| == bound + bound * |lists[1..]|;
    }
  }

  /**
   * The sizes in octets: up to 1400 a NAL unit is one packet; above, fragment `k` carries the 1398 octets
   * from 1 + 1398 * k on, or what is left of them, and all fragments but the last are 1400 octets long.
   */
  lemma PacketSizes(nalu: seq<byte>)
    ensures |nalu| <= 1400 <==> NaluChunks(nalu) == [Chunk(nalu, true)]
    ensures |nalu| > 1400 ==> |NaluChunks(nalu)| == (|nalu| + 1396) / 1398
    ensures |nalu| > 1400 ==> forall k | 0 <= k < |NaluChunks(nalu)| - 1 ::
              |NaluChunks(nalu)[k].payload| == 1400 &&
              NaluChunks(nalu)[k].payload[2..] == nalu[1 + 1398 * k..1399 + 1398 * k]
    ensures |nalu| > 1400 ==> var last := |NaluChunks(nalu)| - 1;
              1 + 1398 * last < |nalu| && NaluChunks(nalu)[last].payload[2..] == nalu[1 + 1398 * last..]
  {
    if |nalu| > 1400 {
      var chunks := NaluChunks(nalu);
      var count := FragmentCount(|nalu|);
      assert 1398 * (count - 1) < |nalu| - 1 <= 1398 * count;
      FragmentShape(nalu, 0);
      forall k | 0 <= k < count - 1
        ensures |chunks[k].payload| == 1400 && chunks[k].payload[2..] == nalu[1 + 1398 * k..1399 + 1398 * k]
      {
        FragmentShape(nalu, k);
        assert 1398 * (k + 1) <= 1398 * (count - 1);
        assert chunks[k].payload[2..] == FragmentBody(nalu, k);
      }
      assert chunks[count - 1].payload[2..] == FragmentBody(nalu, count - 1);
    }
  }

  /** No division into bodies of at most 1398 octets uses fewer fragments. */
  lemma {:induction false} FragmentCountMinimal(nalu: seq<byte>, bodies: seq<seq<byte>>)
    requires |nalu| > MTU
    requires forall k | 0 <= k < |bodies| :: |bodies[k]| <= FRAGMENT_BODY
    requires Flatten(bodies) == nalu[1..]
    ensures |NaluChunks(nalu)| <= |bodies|
  {
    FlattenBound(bodies, FRAGMENT_BODY);
    var total := |nalu| - 1;
    assert total <= FRAGMENT_BODY * |bodies|;
  }

  lemma {:induction false} SizeOfFragments(nalu: seq<byte>, k: nat)
    requires |nalu| > MTU
    requires k <= FragmentCount(|nalu|)
    ensures TotalSize(NaluChunks(nalu)[k..]) == |nalu| - Offset(|nalu|, k) + 2 * (FragmentCount(|nalu|) - k)
    decreases FragmentCount(|nalu|) - k
  {
    var chunks := NaluChunks(nalu);
    if k < FragmentCount(|nalu|) {
      SizeOfFragments(nalu, k + 1);
      assert chunks[k..][1..] == chunks[k + 1..];
    }
  }

  /** The octets one NAL unit adds to the payload total. */
  lemma NaluCost(nalu: seq<byte>)
    ensures |NaluChunks(nalu)| == if |nalu| <= MTU then 1 else FragmentCount(|nalu|)
    ensures TotalSize(NaluChunks(nalu)) ==
            if |nalu| <= MTU then |nalu| else |nalu| - 1 + 2 * FragmentCount(|nalu|)
  {
    var chunks := NaluChunks(nalu);
    if |nalu| <= MTU {
      assert chunks[1..] == [];
    } else {
      SizeOfFragments(nalu, 0);
      assert chunks[0..] == chunks;
    }
  }

  // ---------- Receiver ----------

  datatype Option<+T> = None | Some(value: T)

  function Prepend(nalu: seq<byte>, rest: Option<seq<seq<byte>>>): Option<seq<seq<byte>>> {
    match rest
    case None => None
    case Some(nalus) => Some([nalu] + nalus)
  }

  function PrependAll(nalus: seq<seq<byte>>, rest: Option<seq<seq<byte>>>): Option<seq<seq<byte>>> {
    match rest
    case None => None
    case Some(others) => Some(nalus + others)
  }

  /** The NAL unit types that may travel alone, in an aggregate or in fragments (section 5.2 of RFC 6184). */
  predicate IsSingleType(nal: byte) { 1 <= TypeOf(nal) <= 23 }

  /** The NAL units that the payload format can carry. */
  predicate Recoverable(nalu: seq<byte>) {
    nalu != [] && IsSingleType(nalu[0])
  }

  predicate AllRecoverable(nalus: seq<seq<byte>>) {
    forall nalu | nalu in nalus :: Recoverable(nalu)
  }

  /** The NAL units of a STAP-A behind its first octet, each with a 16-bit size before it (section 5.7.1). */
  function Deaggregate(s: seq<byte>): Option<seq<seq<byte>>>
    decreases |s|
  {
    if s == [] then Some([])
    else if |s| < 2 || |s| < 2 + ReadU16(s, 0) || !Recoverable(s[2..2 + ReadU16(s, 0)]) then None
    else Prepend(s[2..2 + ReadU16(s, 0)], Deaggregate(s[2 + ReadU16(s, 0)..]))
  }

  /**
   * A depacketizer for the non-interleaved mode (section 6.3 of RFC 6184): single NAL units, STAP-A and
   * FU-A; `pending` is the NAL unit being reassembled. It fails on the payload types this mode excludes
   * and on what sections 5.7.1 and 5.8 rule out: an empty aggregate, S and E in one fragment, a
   * fragment of something that is not a NAL unit, a fragment without a start, anything else before the
   * end, and fragments that disagree.
   */
  function Depacketize(payloads: seq<seq<byte>>, pending: Option<seq<byte>>): Option<seq<seq<byte>>>
    decreases |payloads|
  {
    if payloads == [] then
      if pending.None? then Some([]) else None
    else
      var p, rest := payloads[0], payloads[1..];
      if p == [] then None
      else if IsSingleType(p[0]) then
        if pending.None? then Prepend(p, Depacketize(rest, None)) else None
      else if TypeOf(p[0]) == STAP_A then
        if pending.Some? || |p| == 1 || Deaggregate(p[1..]).None? then None
        else PrependAll(Deaggregate(p[1..]).value, Depacketize(rest, None))
      else if TypeOf(p[0]) != FU_A || |p| < 2 || !IsSingleType(p[1]) || (HasStart(p[1]) && HasEnd(p[1])) then None
      else if HasStart(p[1]) then
        if pending.None? then Depacketize(rest, Some([RebuiltNal(p[0], p[1])] + p[2..])) else None
      else if pending.None? || pending.value == [] || pending.value[0] != RebuiltNal(p[0], p[1]) then None
      else if HasEnd(p[1]) then Prepend(pending.value + p[2..], Depacketize(rest, None))
      else Depacketize(rest, Some(pending.value + p[2..]))
  }

  lemma PayloadsAppend(xs: seq<Chunk>, ys: seq<Chunk>)
    ensures Payloads(xs + ys) == Payloads(xs) + Payloads(ys)
  {
  }

  lemma PayloadsRest(chunks: seq<Chunk>, k: nat, rest: seq<seq<byte>>)
    requires k < |chunks|
    ensures var all := Payloads(chunks[k..]) + rest;
            all != [] && all[0] == chunks[k].payload && all[1..] == Payloads(chunks[k + 1..]) + rest
  {
  }

  /** One step of the depacketizer on a fragment that continues the pending NAL unit. */
  lemma DepacketizeStep(all: seq<seq<byte>>, pending: seq<byte>)
    requires all != [] && pending != [] && |all[0]| >= 2
    requires TypeOf(all[0][0]) == FU_A && IsSingleType(all[0][1]) && !HasStart(all[0][1])
    requires RebuiltNal(all[0][0], all[0][1]) == pending[0]
    ensures Depacketize(all, Some(pending)) ==
            if HasEnd(all[0][1]) then Prepend(pending + all[0][2..], Depacketize(all[1..], None))
            else Depacketize(all[1..], Some(pending + all[0][2..]))
  {
  }

  lemma RebuiltIsSingle(fuIndicator: byte, fuHeader: byte)
    ensures IsSingleType(RebuiltNal(fuIndicator, fuHeader)) <==> IsSingleType(fuHeader)
  {
  }

  lemma FragmentAt(nalu: seq<byte>, k: nat)
    requires |nalu| > MTU && k < FragmentCount(|nalu|)
    ensures |NaluChunks(nalu)| == FragmentCount(|nalu|)
    ensures NaluChunks(nalu)[k] == Fragment(nalu, k)
    ensures Fragment(nalu, k).payload[2..] == FragmentBody(nalu, k)
  {
  }

  lemma NoPayloads(chunks: seq<Chunk>, rest: seq<seq<byte>>)
    ensures Payloads(chunks[|chunks|..]) + rest == rest
  {
  }

  /** From fragment `k` on, with everything before it collected, the fragments give back the NAL unit. */
  lemma {:induction false} DepacketizeFragments(nalu: seq<byte>, k: nat, rest: seq<seq<byte>>)
    requires |nalu| > MTU && Recoverable(nalu)
    requires 0 < k < FragmentCount(|nalu|)
    ensures Depacketize(Payloads(NaluChunks(nalu)[k..]) + rest, Some(nalu[..Offset(|nalu|, k)]))
            == Prepend(nalu, Depacketize(rest, None))
    decreases FragmentCount(|nalu|) - k
  {
    hide NaluChunks, Payloads, Depacketize, TypeOf, RebuiltNal, HasStart, HasEnd;
    FragmentAt(nalu, k);
    var chunks := NaluChunks(nalu);
    var all := Payloads(chunks[k..]) + rest;
    var before := nalu[..Offset(|nalu|, k)];
    PayloadsRest(chunks, k, rest);
    FragmentShape(nalu, k);
    CutAt(nalu, Offset(|nalu|, k), Offset(|nalu|, k + 1));
    RebuiltIsSingle(all[0][0], all[0][1]);
    DepacketizeStep(all, before);
    if k + 1 < FragmentCount(|nalu|) {
      DepacketizeFragments(nalu, k + 1, rest);
    } else {
      NoPayloads(chunks, rest);
      assert before + FragmentBody(nalu, k) == nalu;
    }
  }

  lemma DepacketizeNalu(nalu: seq<byte>, rest: seq<seq<byte>>)
    requires Recoverable(nalu)
    ensures Depacketize(Payloads(NaluChunks(nalu)) + rest, None) == Prepend(nalu, Depacketize(rest, None))
  {
    var chunks := NaluChunks(nalu);
    var all := Payloads(chunks) + rest;
    assert all[0] == chunks[0].payload;
    assert all[1..] == Payloads(chunks[1..]) + rest;
    if |nalu| <= MTU {
      assert all[1..] == rest;
    } else {
      FragmentShape(nalu, 0);
      assert [nalu[0]] + all[0][2..] == nalu[..Offset(|nalu|, 1)];
      DepacketizeFragments(nalu, 1, rest);
    }
  }

  lemma {:induction false} DeaggregatedRecoverable(s: seq<byte>)
    ensures var out := Deaggregate(s); out.Some? ==> AllRecoverable(out.value)
    decreases |s|
  {
    if |s| >= 2 && |s| >= 2 + ReadU16(s, 0) {
      DeaggregatedRecoverable(s[2 + ReadU16(s, 0)..]);
    }
  }

  /** Whatever the payloads are, only NAL units of types 1 to 23 come out of the depacketizer. */
  lemma {:induction false} OutputRecoverable(payloads: seq<seq<byte>>, pending: Option<seq<byte>>)
    requires pending.Some? ==> Recoverable(pending.value)
    ensures var out := Depacketize(payloads, pending); out.Some? ==> AllRecoverable(out.value)
    decreases |payloads|
  {
    if payloads != [] && payloads[0] != [] {
      var p, rest := payloads[0], payloads[1..];
      OutputRecoverable(rest, None);
      DeaggregatedRecoverable(p[1..]);
      if |p| >= 2 && IsSingleType(p[1]) {
        RebuiltIsSingle(p[0], p[1]);
        OutputRecoverable(rest, Some([RebuiltNal(p[0], p[1])] + p[2..]));
        if pending.Some? {
          OutputRecoverable(rest, Some(pending.value + p[2..]));
        }
      }
    }
  }

  lemma {:induction false} DepacketizeAll(nalus: seq<seq<byte>>)
    requires AllRecoverable(nalus)
    ensures Depacketize(Payloads(FrameChunks(nalus)), None) == Some(nalus)
    decreases |nalus|
  {
    if nalus != [] {
      assert nalus[0] in nalus;
      DepacketizeAll(nalus[1..]);
      PayloadsAppend(NaluChunks(nalus[0]), FrameChunks(nalus[1..]));
      DepacketizeNalu(nalus[0], Payloads(FrameChunks(nalus[1..])));
      FirstAndRest(nalus);
    }
  }

  /**
   * Packetizing is inverted by depacketizing exactly when every NAL unit, whatever its size, is non-empty
   * and of a type from 1 to 23.
   */
  lemma DepacketizeExactly(nalus: seq<seq<byte>>)
    ensures Depacketize(Payloads(FrameChunks(nalus)), None) == Some(nalus) <==> AllRecoverable(nalus)
    ensures AllRecoverable(nalus) <==> forall nalu | nalu in nalus :: nalu != [] && 1 <= nalu[0] % 0x20 <= 23
  {
    OutputRecoverable(Payloads(FrameChunks(nalus)), None);
    if AllRecoverable(nalus) {
      DepacketizeAll(nalus);
    }
  }

  /** An aggregate that a frame holds as a NAL unit comes out as its parts: here type 24 around one unit. */
  lemma AggregateTakenApart(nalu: seq<byte>)
    requires nalu == [0x78, 0x00, 0x01, 0x65]
    ensures Depacketize(Payloads(FrameChunks([nalu])), None) == Some([[0x65]])
  {
    assert FrameChunks([nalu]) == NaluChunks([nalu][0]) + FrameChunks([nalu][1..]);
    assert FrameChunks([nalu]) == [Chunk(nalu, true)];
    var payloads := Payloads(FrameChunks([nalu]));
    assert payloads == [nalu] && payloads[1..] == [];
    var s := nalu[1..];
    assert ReadU16(s, 0) == 1 && s[2..3] == [0x65] && s[3..] == [];
    assert Recoverable([0x65]);
    assert Deaggregate(s) == Prepend(s[2..3], Deaggregate(s[3..]));
    assert Deaggregate(s[3..]) == Some([]);
    AppendNothing([s[2..3]]);
  }
}
