/** Splitting an Annex-B byte stream (ITU-T H.264 Annex B) into NAL units, and joining NAL units back. */
module AnnexB {
  import opened Bytes

  const START_CODE: seq<byte> := [0x00, 0x00, 0x00, 0x01]

  /** The four octets of a start code stand at position `i`. */
  predicate CodeAt(s: seq<byte>, i: int) {
    0 <= i && i + 4 <= |s| && s[i] == 0x00 && s[i + 1] == 0x00 && s[i + 2] == 0x00 && s[i + 3] == 0x01
  }

  /** A start code is recognised at `i` only if at least one octet follows it. */
  predicate RecognisedAt(s: seq<byte>, i: int) {
    i + 4 < |s| && CodeAt(s, i)
  }

  /** Distance to the first recognised start code, or the length of `s` if there is none. */
  function Scan(s: seq<byte>): (n: nat)
    ensures n <= |s|
  {
    if s == [] || RecognisedAt(s, 0) then 0 else 1 + Scan(s[1..])
  }

  /** The NAL units of a byte stream: everything before the first recognised start code is skipped. */
  function Split(s: seq<byte>): (nalus: seq<seq<byte>>)
    decreases |s|
  {
    if s == [] then []
    else if RecognisedAt(s, 0) then
      var n := Scan(s[4..]);
      [s[4..4 + n]] + Split(s[4 + n..])
    else Split(s[1..])
  }

  function WithCode(nalu: seq<byte>): seq<byte> { START_CODE + nalu }

  /** The inverse direction: a start code before every NAL unit. */
  function Join(nalus: seq<seq<byte>>): seq<byte> {
    FlatMap(WithCode, nalus)
  }

  /** No start code inside the NAL unit, and (for the last one) none that an octet follows. */
  ghost predicate CodeFree(nalu: seq<byte>, last: bool) {
    forall i :: CodeAt(nalu, i) ==> last && i + 4 == |nalu|
  }

  /** The lists of NAL units that a byte stream can be split into. */
  ghost predicate Splittable(nalus: seq<seq<byte>>) {
    && (forall k | 0 <= k < |nalus| :: CodeFree(nalus[k], k == |nalus| - 1))
    && (nalus != [] ==> nalus[|nalus| - 1] != [])
  }

  /** How many recognised start codes a byte stream holds. */
  function CodeCount(s: seq<byte>): nat {
    if s == [] then 0 else (if RecognisedAt(s, 0) then 1 else 0) + CodeCount(s[1..])
  }

  // ---------- What Scan finds ----------

  lemma {:induction false} ScanFindsFirst(s: seq<byte>)
    ensures Scan(s) < |s| ==> RecognisedAt(s, Scan(s))
    ensures forall i | 0 <= i < Scan(s) :: !RecognisedAt(s, i)
  {
    if s != [] && !RecognisedAt(s, 0) {
      ScanFindsFirst(s[1..]);
      assert forall i | 0 < i < |s| :: RecognisedAt(s, i) == RecognisedAt(s[1..], i - 1);
    }
  }

  lemma {:induction false} ScanIsFirst(s: seq<byte>, n: nat)
    requires n <= |s|
    requires n < |s| ==> RecognisedAt(s, n)
    requires forall i | 0 <= i < n :: !RecognisedAt(s, i)
    ensures Scan(s) == n
  {
    ScanFindsFirst(s);
  }

  /** Skipping to the first recognised start code does not change the NAL units. */
  lemma {:induction false} SplitSkips(s: seq<byte>)
    ensures Split(s) == Split(s[Scan(s)..])
  {
    if s != [] && !RecognisedAt(s, 0) {
      SplitSkips(s[1..]);
      assert s[1..][Scan(s[1..])..] == s[Scan(s)..];
    }
  }

  // ---------- Splitting loses nothing ----------

  /** Joining the NAL units of any byte stream gives back its suffix from the first recognised start code. */
  lemma {:induction false} JoinOfSplit(s: seq<byte>)
    ensures Join(Split(s)) == s[Scan(s)..]
    decreases |s|
  {
    if s == [] {
    } else if RecognisedAt(s, 0) {
      var n := Scan(s[4..]);
      var rest := s[4 + n..];
      ScanFindsFirst(s[4..]);
      JoinOfSplit(rest);
      assert n < |s[4..]| ==> RecognisedAt(rest, 0);
      assert Scan(rest) == 0;
      assert s == START_CODE + s[4..4 + n] + rest;
    } else {
      JoinOfSplit(s[1..]);
    }
  }

  lemma FirstNaluCodeFree(s: seq<byte>)
    ensures CodeFree(s[..Scan(s)], Scan(s) == |s|)
  {
    var n := Scan(s);
    ScanFindsFirst(s);
    forall i | CodeAt(s[..n], i)
      ensures n == |s| && i + 4 == n
    {
      assert !RecognisedAt(s, i);
    }
  }

  lemma SplittableCons(nalu: seq<byte>, nalus: seq<seq<byte>>)
    requires CodeFree(nalu, nalus == []) && Splittable(nalus)
    requires nalus == [] ==> nalu != []
    ensures Splittable([nalu] + nalus)
  {
    var all := [nalu] + nalus;
    assert forall k | 1 <= k < |all| :: all[k] == nalus[k - 1];
  }

  /** No NAL unit of a split contains a start code that has an octet after it in the frame. */
  lemma {:induction false} SplitIsSplittable(s: seq<byte>)
    ensures Splittable(Split(s))
    decreases |s|
  {
    if s == [] {
    } else if RecognisedAt(s, 0) {
      var n := Scan(s[4..]);
      FirstNaluCodeFree(s[4..]);
      assert s[4..][..n] == s[4..4 + n];
      assert s[4..][n..] == s[4 + n..];
      ScanFindsFirst(s[4..]);
      assert n < |s[4..]| ==> RecognisedAt(s[4 + n..], 0);
      SplitIsSplittable(s[4 + n..]);
      SplittableCons(s[4..4 + n], Split(s[4 + n..]));
    } else {
      SplitIsSplittable(s[1..]);
    }
  }

  /**
   * The first recognised start code after a NAL unit of a joined stream is the joined one: the
   * pattern 00 00 00 01 overlaps itself nowhere, so none can straddle the end of the NAL unit.
   */
  lemma ScanOfJoined(nalu: seq<byte>, rest: seq<byte>)
    requires CodeFree(nalu, rest == [])
    requires rest != [] ==> RecognisedAt(rest, 0)
    ensures Scan(nalu + rest) == |nalu|
  {
    var s := nalu + rest;
    forall i | 0 <= i < |nalu|
      ensures !RecognisedAt(s, i)
    {
      if RecognisedAt(s, i) && i + 4 <= |nalu| {
        assert CodeAt(nalu, i);
      }
    }
    assert rest != [] ==> RecognisedAt(s, |nalu|);
    ScanIsFirst(s, |nalu|);
  }

  lemma JoinStartsWithCode(nalus: seq<seq<byte>>)
    requires Splittable(nalus)
    ensures nalus != [] ==> RecognisedAt(Join(nalus), 0)
  {
    if nalus != [] {
      var rest := Join(nalus[1..]);
      assert Join(nalus) == WithCode(nalus[0]) + rest;
      if |nalus| > 1 {
        assert rest == WithCode(nalus[1]) + Join(nalus[1..][1..]);
      }
    }
  }

  lemma SplitFirst(nalu: seq<byte>, rest: seq<byte>)
    requires CodeFree(nalu, rest == []) && nalu + rest != []
    requires rest != [] ==> RecognisedAt(rest, 0)
    ensures Split(WithCode(nalu) + rest) == [nalu] + Split(rest)
  {
    var s := WithCode(nalu) + rest;
    assert s[4..] == nalu + rest;
    ScanOfJoined(nalu, rest);
    assert s[4..4 + |nalu|] == nalu && s[4 + |nalu|..] == rest;
  }

  /** Splitting inverts joining on every splittable list. */
  lemma {:induction false} SplitOfJoin(nalus: seq<seq<byte>>)
    requires Splittable(nalus)
    ensures Split(Join(nalus)) == nalus
  {
    if nalus != [] {
      var nalu, tail := nalus[0], nalus[1..];
      assert forall k | 0 <= k < |tail| :: tail[k] == nalus[k + 1];
      SplitOfJoin(tail);
      JoinStartsWithCode(tail);
      SplitFirst(nalu, Join(tail));
      FirstAndRest(nalus);
    }
  }

  /** A frame that is one start code and one NAL unit. */
  lemma SplitOne(nalu: seq<byte>)
    requires nalu != [] && CodeFree(nalu, true)
    ensures Split(WithCode(nalu)) == [nalu]
  {
    AppendNothing(WithCode(nalu));
    SplitFirst(nalu, []);
  }

  /** Exactly the splittable lists survive a round trip through the byte stream. */
  lemma RoundTripExactly(nalus: seq<seq<byte>>)
    ensures Split(Join(nalus)) == nalus <==> Splittable(nalus)
  {
    SplitIsSplittable(Join(nalus));
    if Splittable(nalus) {
      SplitOfJoin(nalus);
    }
  }

  /** A declarative reading of Split: it is the only splittable list whose join is the frame's tail. */
  lemma SplitUnique(s: seq<byte>, nalus: seq<seq<byte>>)
    ensures nalus == Split(s) <==> Splittable(nalus) && Join(nalus) == s[Scan(s)..]
  {
    JoinOfSplit(s);
    SplitIsSplittable(s);
    if Splittable(nalus) && Join(nalus) == s[Scan(s)..] {
      SplitOfJoin(nalus);
      SplitSkips(s);
    }
  }

  // ---------- Every recognised start code is a cut ----------

  lemma {:induction false} CodeCountSkips(s: seq<byte>)
    ensures CodeCount(s) == CodeCount(s[Scan(s)..])
  {
    if s != [] && !RecognisedAt(s, 0) {
      CodeCountSkips(s[1..]);
      assert s[1..][Scan(s[1..])..] == s[Scan(s)..];
    }
  }

  /** Stepping over a start code steps over no other one. */
  lemma CodeCountStep(s: seq<byte>)
    requires RecognisedAt(s, 0)
    ensures CodeCount(s) == 1 + CodeCount(s[4..])
  {
    assert s[1..][1..] == s[2..] && s[2..][1..] == s[3..] && s[3..][1..] == s[4..];
    assert CodeCount(s[3..]) == CodeCount(s[4..]);
    assert CodeCount(s[2..]) == CodeCount(s[3..]);
    assert CodeCount(s[1..]) == CodeCount(s[2..]);
  }

  lemma {:induction false} OneNaluPerCode(s: seq<byte>)
    ensures |Split(s)| == CodeCount(s)
    decreases |s|
  {
    if s == [] {
    } else if RecognisedAt(s, 0) {
      var n := Scan(s[4..]);
      CodeCountStep(s);
      CodeCountSkips(s[4..]);
      assert s[4..][n..] == s[4 + n..];
      OneNaluPerCode(s[4 + n..]);
    } else {
      OneNaluPerCode(s[1..]);
    }
  }

  /** 00 00 00 01 stands at `i` with an octet behind it. */
  ghost predicate FollowedCode(s: seq<byte>, i: nat) {
    i + 4 < |s| && s[i..i + 4] == [0x00, 0x00, 0x00, 0x01]
  }

  ghost function CodePositions(s: seq<byte>, from: nat): set<nat> {
    set i: nat | from <= i < |s| && FollowedCode(s, i)
  }

  lemma {:induction false} CodeCountOfPositions(s: seq<byte>, from: nat)
    requires from <= |s|
    ensures CodeCount(s[from..]) == |CodePositions(s, from)|
    decreases |s| - from
  {
    if from < |s| {
      CodeCountOfPositions(s, from + 1);
      var rest := CodePositions(s, from + 1);
      assert s[from..][1..] == s[from + 1..];
      assert from + 4 < |s| ==> forall j | 0 <= j < 4 :: s[from..from + 4][j] == s[from..][j];
      if RecognisedAt(s[from..], 0) {
        assert CodePositions(s, from) == rest + {from};
      } else {
        assert CodePositions(s, from) == rest;
      }
    } else {
      assert CodePositions(s, from) == {};
    }
  }

  /** As many NAL units as positions of 00 00 00 01 with an octet behind it. */
  lemma NalusByPositions(s: seq<byte>)
    ensures |Split(s)| == |CodePositions(s, 0)|
  {
    OneNaluPerCode(s);
    CodeCountOfPositions(s, 0);
    assert s[0..] == s;
  }

  // ---------- Three-byte start codes ----------

  /** Annex B's own start code prefix, 00 00 01, with an octet behind it. */
  predicate PrefixAt(s: seq<byte>, i: int) {
    0 <= i && i + 3 < |s| && s[i] == 0x00 && s[i + 1] == 0x00 && s[i + 2] == 0x01
  }

  function PrefixCount(s: seq<byte>): nat {
    if s == [] then 0 else (if PrefixAt(s, 0) then 1 else 0) + PrefixCount(s[1..])
  }

  /** The prefixes without a zero octet before them; `zero` says whether one stands before `s`. */
  function ShortCount(s: seq<byte>, zero: bool): nat
    decreases |s|
  {
    if s == [] then 0
    else (if PrefixAt(s, 0) && !zero then 1 else 0) + ShortCount(s[1..], s[0] == 0x00)
  }

  ghost predicate ZeroBeforePrefixes(s: seq<byte>, zero: bool) {
    forall i :: PrefixAt(s, i) ==> if i == 0 then zero else s[i - 1] == 0x00
  }

  lemma {:induction false} PrefixesAreCodesOrShort(s: seq<byte>, zero: bool)
    ensures PrefixCount(s) == CodeCount(s) + ShortCount(s, zero) + if zero && PrefixAt(s, 0) then 1 else 0
    decreases |s|
  {
    if s != [] {
      PrefixesAreCodesOrShort(s[1..], s[0] == 0x00);
      assert RecognisedAt(s, 0) <==> s[0] == 0x00 && PrefixAt(s[1..], 0);
    }
  }

  lemma {:induction false} NoneShort(s: seq<byte>, zero: bool)
    ensures ShortCount(s, zero) == 0 <==> ZeroBeforePrefixes(s, zero)
    decreases |s|
  {
    if s != [] {
      NoneShort(s[1..], s[0] == 0x00);
      assert forall i | 0 < i :: PrefixAt(s, i) == PrefixAt(s[1..], i - 1);
      if ZeroBeforePrefixes(s, zero) {
        forall i | PrefixAt(s[1..], i)
          ensures if i == 0 then s[0] == 0x00 else s[1..][i - 1] == 0x00
        {
          assert PrefixAt(s, i + 1);
        }
        assert ZeroBeforePrefixes(s[1..], s[0] == 0x00);
      }
    }
  }

  /**
   * Annex B also allows the three-octet start code, which the splitter does not look for: it yields one
   * NAL unit per start code of the standard exactly when every one of them has the extra zero octet.
   */
  lemma FindsAllCodesExactly(s: seq<byte>)
    ensures |Split(s)| == PrefixCount(s) <==> ZeroBeforePrefixes(s, false)
  {
    OneNaluPerCode(s);
    PrefixesAreCodesOrShort(s, false);
    NoneShort(s, false);
  }

  lemma {:induction false} NoPrefixNone(s: seq<byte>)
    requires forall i :: !PrefixAt(s, i)
    ensures PrefixCount(s) == 0
  {
    if s != [] {
      assert forall i | 0 <= i :: PrefixAt(s[1..], i) == PrefixAt(s, i + 1);
      NoPrefixNone(s[1..]);
    }
  }

  /** A stream with three-octet start codes only is not sent at all. */
  lemma ShortCodesMissed(s: seq<byte>)
    requires s == [0x00, 0x00, 0x01, 0x65, 0x88]
    ensures Split(s) == [] && PrefixCount(s) == 1
  {
    assert forall i :: !RecognisedAt(s, i);
    ScanFindsFirst(s);
    SplitSkips(s);
    PrefixesAreCodesOrShort(s, false);
    assert s[1..] == [0x00, 0x01, 0x65, 0x88] && s[1..][1..] == [0x01, 0x65, 0x88];
    assert PrefixCount(s[1..]) == 0 by {
      var t := s[1..];
      assert forall i :: !PrefixAt(t, i);
      NoPrefixNone(t);
    }
  }

  // ---------- Annex B's own NAL units ----------

  /** Distance to the first start code prefix, or the length of `s` if there is none. */
  function PrefixScan(s: seq<byte>): (n: nat)
    ensures n <= |s|
  {
    if s == [] || PrefixAt(s, 0) then 0 else 1 + PrefixScan(s[1..])
  }

  /** Zero octets behind a NAL unit belong to the byte stream, not to the unit. */
  function WithoutTrailingZeros(s: seq<byte>): seq<byte> {
    if s != [] && s[|s| - 1] == 0x00 then WithoutTrailingZeros(s[..|s| - 1]) else s
  }

  predicate EndsInZero(s: seq<byte>) { s != [] && s[|s| - 1] == 0x00 }

  ghost predicate NoneEndsInZero(nalus: seq<seq<byte>>) {
    forall k | 0 <= k < |nalus| :: !EndsInZero(nalus[k])
  }

  lemma NoneEndsInZeroCons(nalu: seq<byte>, rest: seq<seq<byte>>)
    ensures NoneEndsInZero([nalu] + rest) <==> !EndsInZero(nalu) && NoneEndsInZero(rest)
  {
    var all := [nalu] + rest;
    assert all[0] == nalu && forall k | 0 <= k < |rest| :: all[k + 1] == rest[k];
    assert forall k | 0 < k < |all| :: all[k] == rest[k - 1];
  }

  /** The NAL units as the standard delimits them: cut at every prefix, without trailing zeros. */
  function StandardSplit(s: seq<byte>): seq<seq<byte>>
    decreases |s|
  {
    if s == [] then []
    else if PrefixAt(s, 0) then
      var n := PrefixScan(s[3..]);
      [WithoutTrailingZeros(s[3..3 + n])] + StandardSplit(s[3 + n..])
    else StandardSplit(s[1..])
  }

  lemma {:induction false} NoTrailingZeroLeft(s: seq<byte>)
    ensures !EndsInZero(WithoutTrailingZeros(s))
  {
    if EndsInZero(s) {
      NoTrailingZeroLeft(s[..|s| - 1]);
    }
  }

  lemma {:induction false} PrefixScanIsFirst(s: seq<byte>, n: nat)
    requires n <= |s|
    requires n < |s| ==> PrefixAt(s, n)
    requires forall i | 0 <= i < n :: !PrefixAt(s, i)
    ensures PrefixScan(s) == n
    decreases n
  {
    if n > 0 {
      assert !PrefixAt(s, 0);
      forall i | 0 <= i < n - 1
        ensures !PrefixAt(s[1..], i)
      {
        assert !PrefixAt(s, i + 1);
      }
      assert n < |s| ==> PrefixAt(s[1..], n - 1);
      PrefixScanIsFirst(s[1..], n - 1);
    }
  }

  lemma {:induction false} PrefixCountSkips(s: seq<byte>)
    ensures PrefixCount(s) == PrefixCount(s[PrefixScan(s)..])
  {
    if s != [] && !PrefixAt(s, 0) {
      PrefixCountSkips(s[1..]);
      assert s[1..][PrefixScan(s[1..])..] == s[PrefixScan(s)..];
    }
  }

  lemma PrefixCountStep(s: seq<byte>)
    requires PrefixAt(s, 0)
    ensures PrefixCount(s) == 1 + PrefixCount(s[3..])
  {
    assert s[1..][1..] == s[2..] && s[2..][1..] == s[3..];
    assert PrefixCount(s[2..]) == PrefixCount(s[3..]);
    assert PrefixCount(s[1..]) == PrefixCount(s[2..]);
  }

  /** The standard's NAL units: one per prefix, none ending in a zero octet. */
  lemma {:induction false} StandardUnits(s: seq<byte>)
    ensures |StandardSplit(s)| == PrefixCount(s)
    ensures NoneEndsInZero(StandardSplit(s))
    decreases |s|
  {
    if s == [] {
    } else if PrefixAt(s, 0) {
      var n := PrefixScan(s[3..]);
      PrefixCountStep(s);
      PrefixCountSkips(s[3..]);
      assert s[3..][n..] == s[3 + n..];
      StandardUnits(s[3 + n..]);
      NoTrailingZeroLeft(s[3..3 + n]);
    } else {
      StandardUnits(s[1..]);
    }
  }

  /** Where every prefix has its zero octet, the next prefix stands one octet behind the next start code. */
  lemma PrefixBehindCode(s: seq<byte>)
    requires ZeroBeforePrefixes(s, false)
    ensures PrefixScan(s) == if Scan(s) < |s| then Scan(s) + 1 else |s|
  {
    var n := Scan(s);
    ScanFindsFirst(s);
    forall i | 0 <= i <= n
      ensures !PrefixAt(s, i)
    {
      if PrefixAt(s, i) {
        assert i > 0 && RecognisedAt(s, i - 1);
      }
    }
    if n < |s| {
      assert PrefixAt(s, n + 1);
      PrefixScanIsFirst(s, n + 1);
    } else {
      PrefixScanIsFirst(s, n);
    }
  }

  lemma ZerosFromOn(s: seq<byte>, zero: bool, n: nat)
    requires ZeroBeforePrefixes(s, zero) && n <= |s| && !PrefixAt(s, n)
    ensures ZeroBeforePrefixes(s[n..], false)
  {
    forall i | PrefixAt(s[n..], i)
      ensures i > 0 && s[n..][i - 1] == 0x00
    {
      assert PrefixAt(s, n + i);
    }
  }

  lemma ZeroBefore4(s: seq<byte>)
    requires RecognisedAt(s, 0) && ZeroBeforePrefixes(s, false)
    ensures !PrefixAt(s, 4)
  {
    assert s[3] != 0x00;
  }

  lemma TrailingZero(s: seq<byte>)
    requires EndsInZero(s)
    ensures WithoutTrailingZeros(s) == WithoutTrailingZeros(s[..|s| - 1])
  {
  }

  /** At a start code the extraction steps over the zero octet and then takes the unit up to the next prefix. */
  lemma StandardUnfolds(s: seq<byte>)
    requires RecognisedAt(s, 0)
    ensures StandardSplit(s) == StandardSplit(s[1..])
    ensures var n := PrefixScan(s[4..]);
            StandardSplit(s) == [WithoutTrailingZeros(s[4..][..n])] + StandardSplit(s[4..][n..])
  {
    var t := s[4..];
    var n := PrefixScan(t);
    assert s[1..][3..] == t && s[1..][3..3 + n] == t[..n] && s[1..][3 + n..] == t[n..];
  }

  /** The unit behind a start code, and what the standard's extraction does from there on. */
  lemma StandardStep(s: seq<byte>)
    requires RecognisedAt(s, 0) && ZeroBeforePrefixes(s, false)
    ensures var n := Scan(s[4..]);
            StandardSplit(s) == [WithoutTrailingZeros(s[4..4 + n])] + StandardSplit(s[4 + n..])
    ensures ZeroBeforePrefixes(s[4 + Scan(s[4..])..], false)
  {
    hide Scan, PrefixScan, WithoutTrailingZeros, ZeroBeforePrefixes, StandardSplit;
    var t := s[4..];
    var n, n' := Scan(t), PrefixScan(t);
    assert !PrefixAt(s, 4) by {
      ZeroBefore4(s);
    }
    ZerosFromOn(s, false, 4);
    PrefixBehindCode(t);
    StandardUnfolds(s);
    assert t[..n] == s[4..4 + n] && t[n..] == s[4 + n..];
    ScanFindsFirst(t);
    ZerosFromOn(t, false, n);
    if n < |t| {
      assert t[..n'][..n' - 1] == t[..n] && t[n..][1..] == t[n'..];
      TrailingZero(t[..n']);
      StandardUnfolds(t[n..]);
    }
  }

  lemma {:induction false} CleanSplitIsStandard(s: seq<byte>)
    requires ZeroBeforePrefixes(s, false)
    requires NoneEndsInZero(Split(s))
    ensures StandardSplit(s) == Split(s)
    decreases |s|
  {
    if s == [] {
    } else if RecognisedAt(s, 0) {
      var n := Scan(s[4..]);
      var nalu, rest := s[4..4 + n], s[4 + n..];
      StandardStep(s);
      assert Split(s) == [nalu] + Split(rest);
      NoneEndsInZeroCons(nalu, Split(rest));
      CleanSplitIsStandard(rest);
    } else {
      assert !PrefixAt(s, 0);
      assert !PrefixAt(s, 1);
      assert Split(s) == Split(s[1..]);
      ZerosFromOn(s, false, 1);
      CleanSplitIsStandard(s[1..]);
    }
  }

  /** From the first recognised start code on: no zero octet before the next one, nor at the end. */
  ghost predicate NoZerosBehindUnits(s: seq<byte>) {
    && (forall i | Scan(s) < i :: RecognisedAt(s, i) ==> s[i - 1] != 0x00)
    && (Scan(s) < |s| ==> s[|s| - 1] != 0x00)
  }

  /** The octets that decide it, one unit at a time: the last octet of the unit, then those behind. */
  lemma ZerosStep(s: seq<byte>)
    requires RecognisedAt(s, 0)
    ensures var n := Scan(s[4..]); var rest := s[4 + n..];
            NoZerosBehindUnits(s) <==> !EndsInZero(s[4..4 + n]) && NoZerosBehindUnits(rest)
  {
    var n := Scan(s[4..]);
    var nalu, rest := s[4..4 + n], s[4 + n..];
    ScanFindsFirst(s[4..]);
    assert Scan(s) == 0;
    assert forall i | 0 < i < 4 + n :: !RecognisedAt(s, i) by {
      forall i | 0 < i < 4 + n
        ensures !RecognisedAt(s, i)
      {
        assert i >= 4 ==> RecognisedAt(s, i) == RecognisedAt(s[4..], i - 4);
      }
    }
    assert forall i | 0 <= i :: RecognisedAt(rest, i) == RecognisedAt(s, 4 + n + i);
    if rest == [] {
      assert s[|s| - 1] == nalu[|nalu| - 1];
    } else {
      assert RecognisedAt(rest, 0) && Scan(rest) == 0;
      assert s[|s| - 1] == rest[|rest| - 1];
      assert s[3 + n] != 0x00 <==> !EndsInZero(nalu);
      if NoZerosBehindUnits(s) {
        assert RecognisedAt(s, 4 + n);
        forall i | 0 < i && RecognisedAt(rest, i)
          ensures rest[i - 1] != 0x00
        {
          assert RecognisedAt(s, 4 + n + i) && rest[i - 1] == s[4 + n + i - 1];
        }
      }
      if !EndsInZero(nalu) && NoZerosBehindUnits(rest) {
        forall i | 0 < i && RecognisedAt(s, i)
          ensures s[i - 1] != 0x00
        {
          if i > 4 + n {
            assert RecognisedAt(rest, i - 4 - n) && rest[i - 4 - n - 1] == s[i - 1];
          }
        }
      }
    }
  }

  /** Skipping to the first start code leaves the octets behind it alone. */
  lemma ZerosSkip(s: seq<byte>)
    requires s != [] && !RecognisedAt(s, 0)
    ensures NoZerosBehindUnits(s) <==> NoZerosBehindUnits(s[1..])
  {
    var t := s[1..];
    assert Scan(s) == 1 + Scan(t);
    assert forall i | 0 <= i :: RecognisedAt(t, i) == RecognisedAt(s, i + 1);
    if NoZerosBehindUnits(s) {
      forall i | Scan(t) < i && RecognisedAt(t, i)
        ensures t[i - 1] != 0x00
      {
        assert RecognisedAt(s, i + 1) && t[i - 1] == s[i];
      }
    }
    if NoZerosBehindUnits(t) {
      forall i | Scan(s) < i && RecognisedAt(s, i)
        ensures s[i - 1] != 0x00
      {
        assert RecognisedAt(t, i - 1) && t[i - 2] == s[i - 1];
      }
    }
  }

  lemma NothingBehind()
    ensures NoZerosBehindUnits([]) && NoneEndsInZero([])
  {
  }

  lemma {:induction false} UnitsEndInZero(s: seq<byte>)
    ensures NoneEndsInZero(Split(s)) <==> NoZerosBehindUnits(s)
    decreases |s|
  {
    hide NoZerosBehindUnits, EndsInZero, Scan, NoneEndsInZero;
    if s == [] {
      NothingBehind();
      assert Split(s) == [];
    } else if RecognisedAt(s, 0) {
      var n := Scan(s[4..]);
      UnitsEndInZero(s[4 + n..]);
      ZerosStep(s);
      NoneEndsInZeroCons(s[4..4 + n], Split(s[4 + n..]));
      assert Split(s) == [s[4..4 + n]] + Split(s[4 + n..]);
    } else {
      UnitsEndInZero(s[1..]);
      ZerosSkip(s);
    }
  }

  /**
   * The splitter extracts the NAL units of Annex B exactly when every start code prefix has its zero octet
   * and no zero octet stands between a NAL unit and the next start code or the end.
   */
  lemma StandardExactly(s: seq<byte>)
    ensures Split(s) == StandardSplit(s) <==> ZeroBeforePrefixes(s, false) && NoZerosBehindUnits(s)
  {
    hide Split, StandardSplit, ZeroBeforePrefixes, NoZerosBehindUnits, EndsInZero;
    StandardUnits(s);
    FindsAllCodesExactly(s);
    UnitsEndInZero(s);
    if ZeroBeforePrefixes(s, false) && NoZerosBehindUnits(s) {
      CleanSplitIsStandard(s);
    }
  }

  /** A trailing zero octet stays in the unit, where the standard drops it. */
  lemma TrailingZeroKept(data: seq<byte>)
    requires data == [0x00, 0x00, 0x00, 0x01, 0x65, 0x00]
    ensures Split(data) == [[0x65, 0x00]] && StandardSplit(data) != Split(data)
  {
    assert data == WithCode([0x65, 0x00]);
    SplitOne([0x65, 0x00]);
    StandardUnits(data);
    assert EndsInZero(Split(data)[0]);
  }
}
