/**
 * The RTP timestamp `(uint32_t)((delta / 1000000.0) * 90000)` in double arithmetic, and the NTP
 * fraction. Rounding is modelled twice: loosely, each operation being off by a relative 2^-53 at most,
 * and exactly, each operation being rounded to the nearest double.
 */
module Clock {
  import opened Bytes
  import opened Doubles
  import opened Sender

  /** The differences for which the cast to 32 bits is defined; see `FitsExactly`. */
  const MIN_DELTA := -11
  const MAX_DELTA := 47_721_858_844

  /** `y` is `x` rounded to a double: the relative error is at most 2^-53. */
  ghost predicate Rounds(x: real, y: real) {
    var error := if x >= 0.0 then x / 9007199254740992.0 else -x / 9007199254740992.0;
    x - error <= y <= x + error
  }

  /** `p == delta / 1000000.0` and `q == p * 90000` in double arithmetic. */
  ghost predicate Seconds(delta: int, p: real) { Rounds(delta as real / 1000000.0, p) }

  ghost predicate Scaled(p: real, q: real) { Rounds(p * 90000.0, q) }

  /** The cast to an integer drops the fraction. */
  function Truncate(q: real): int {
    if q >= 0.0 then q.Floor else -(-q).Floor
  }

  ghost predicate Computes(delta: int, ticks: int) {
    exists p, q :: Seconds(delta, p) && Scaled(p, q) && ticks == Truncate(q)
  }

  /** A clock that evaluates the expression in double arithmetic wherever the cast is defined. */
  ghost predicate IsDoubleClock(clock: TickClock) {
    forall delta {:trigger Computes(delta, clock(delta))} | MIN_DELTA <= delta <= MAX_DELTA ::
      Computes(delta, clock(delta))
  }

  /** The exact value without its fraction. */
  function ExactTicks(delta: int): int {
    if delta >= 0 then 9 * delta / 100 else -(9 * -delta / 100)
  }

  // ---------- How far rounding can go ----------

  lemma RoundingBound(delta: int, p: real, q: real)
    requires 0 <= delta <= MAX_DELTA && Seconds(delta, p) && Scaled(p, q)
    ensures 0.0 <= q
    ensures (9 * delta) as real / 100.0 - 0.001 < q < (9 * delta) as real / 100.0 + 0.001
  {
    assert (9 * delta) as real / 100.0 == delta as real * 0.09;
  }

  lemma FloorNear(n: int, q: real)
    requires n as real / 100.0 - 0.001 < q < n as real / 100.0 + 0.001
    ensures q.Floor == n / 100 || (n % 100 == 0 && q.Floor == n / 100 - 1)
  {
    var k, r := n / 100, n % 100;
    assert n == 100 * k + r;
    assert n as real / 100.0 == k as real + r as real / 100.0;
  }

  lemma NineCoprimeTo100(delta: int)
    ensures 9 * delta % 100 == 0 ==> delta % 100 == 0
  {
    var k := 9 * delta / 100;
    assert 9 * delta == 100 * k ==> delta == 100 * (89 * k - 8 * delta);
  }

  /**
   * However the operations round within that bound, the timestamp is the exact one, except that a positive difference
   * divisible by 100 (where the exact value is a whole number of ticks) may lose one tick.
   */
  lemma TicksNearExact(delta: int, ticks: int)
    requires MIN_DELTA <= delta <= MAX_DELTA && Computes(delta, ticks)
    ensures ticks == ExactTicks(delta) || (delta % 100 == 0 && delta > 0 && ticks == ExactTicks(delta) - 1)
    ensures 0 <= ticks < 0x1_0000_0000
  {
    var p, q :| Seconds(delta, p) && Scaled(p, q) && ticks == Truncate(q);
    if delta >= 0 {
      RoundingBound(delta, p, q);
      NineCoprimeTo100(delta);
      FloorNear(9 * delta, q);
      assert ticks >= 0;
    } else {
      assert -1.0 < q <= 0.0;
    }
  }

  /** The cast to 32 bits is defined for exactly these differences, the negative ones giving 0. */
  lemma FitsExactly(delta: int, ticks: int)
    requires Computes(delta, ticks)
    ensures 0 <= ticks < 0x1_0000_0000 <==> MIN_DELTA <= delta <= MAX_DELTA
    ensures MIN_DELTA <= delta <= 0 ==> ticks == 0
  {
    if MIN_DELTA <= delta <= MAX_DELTA {
      TicksNearExact(delta, ticks);
    } else {
      var p, q :| Seconds(delta, p) && Scaled(p, q) && ticks == Truncate(q);
      if delta > MAX_DELTA {
        assert delta as real >= 47721858845.0;
        assert q >= 4294967296.0;
      } else {
        assert delta as real <= -12.0;
        assert q <= -1.0;
      }
    }
  }

  lemma ExactQuotient(delta: int, q: real)
    requires q == delta as real / 1000000.0 * 90000.0
    ensures Truncate(q) == ExactTicks(delta)
  {
    var n := 9 * (if delta >= 0 then delta else -delta);
    assert q == (9 * delta) as real / 100.0;
    assert n == 100 * (n / 100) + n % 100;
    assert n as real / 100.0 == (n / 100) as real + (n % 100) as real / 100.0;
  }

  /** Such clocks exist: exact arithmetic is one. */
  lemma ExactClockIsDoubleClock()
    ensures IsDoubleClock(delta => ToUint32(ExactTicks(delta)))
  {
    forall delta | MIN_DELTA <= delta <= MAX_DELTA
      ensures Computes(delta, ToUint32(ExactTicks(delta)))
    {
      var p := delta as real / 1000000.0;
      var q := p * 90000.0;
      assert Seconds(delta, p) && Scaled(p, q);
      TicksNearExact(delta, Truncate(q));
      ExactQuotient(delta, q);
    }
  }

  // ---------- Rounding to the nearest double ----------

  /** `delta / 1000000.0` and `p * 90000`, each rounded to the nearest double. */
  function SecondsOf(delta: int): Double
    requires 0 < delta <= MAX_DELTA
  {
    Nearest(delta, 1_000_000)
  }

  lemma SecondsRange(delta: int)
    requires 0 < delta <= MAX_DELTA
    ensures var p := Nearest(delta, 1_000_000);
            && p.scale >= 37
            && SMALLEST_SIGNIFICAND <= p.significand <= 2 * SMALLEST_SIGNIFICAND
            && 0 < 90_000 * p.significand < 2 * SMALLEST_SIGNIFICAND * Pow2(p.scale)
  {
    var k := Nearest(delta, 1_000_000).scale;
    hide Nearest, Pow2, Abs;
    PowerValues();
    NearestIsNearest(delta, 1_000_000, 0);
    MulMonotone(delta, MAX_DELTA, Pow2(k));
    if k <= 36 {
      Pow2Grows(k, 36);
    }
    Pow2Grows(17, k);
  }

  function ScaledOf(delta: int): Double
    requires 0 < delta <= MAX_DELTA
  {
    var p := SecondsOf(delta);
    SecondsRange(delta);
    Nearest(90_000 * p.significand, Pow2(p.scale))
  }

  /** The timestamp the source computes: both operations rounded to nearest, then the fraction dropped. */
  function NearestTicks(delta: int): int
    requires MIN_DELTA <= delta <= MAX_DELTA
  {
    if delta == 0 then 0
    else if delta > 0 then ScaledOf(delta).significand / Pow2(ScaledOf(delta).scale)
    else -(ScaledOf(-delta).significand / Pow2(ScaledOf(-delta).scale))
  }

  ghost predicate IsNearestClock(clock: TickClock) {
    forall delta {:trigger NearestTicks(delta)} | MIN_DELTA <= delta <= MAX_DELTA :: clock(delta) == NearestTicks(delta)
  }

  // ---------- Nearest rounding is double arithmetic ----------

  lemma RealMulOrder(x: real, y: real, t: real)
    requires t > 0.0 && x * t <= y * t
    ensures x <= y
  {
    assert (x - y) * t == x * t - y * t;
  }

  /** `n / s` is within a relative 2^-53 of `a / b` if `n` is the nearest integer to a 53-bit `a * s / b`. */
  lemma NearestRounds(a: nat, b: nat, s: nat, n: nat)
    requires b > 0 && s > 0
    requires 2 * Abs(n * b - a * s) <= b && SMALLEST_SIGNIFICAND * b <= a * s
    ensures Rounds(a as real / b as real, n as real / s as real)
  {
    var x, y := a as real / b as real, n as real / s as real;
    var t := b as real * s as real;
    assert x * t == a as real * s as real == (a * s) as real;
    assert y * t == n as real * b as real == (n * b) as real;
    var error := x / 9007199254740992.0;
    assert error * t == (x * t) / 9007199254740992.0;
    assert (x - error) * t == x * t - error * t && (x + error) * t == x * t + error * t;
    RealMulOrder(x - error, y, t);
    RealMulOrder(y, x + error, t);
  }

  lemma FloorOfQuotient(n: nat, s: nat)
    requires s > 0
    ensures (n as real / s as real).Floor == n / s
  {
    var q, r := n / s, n % s;
    assert n == q * s + r;
    assert n as real == q as real * s as real + r as real;
    assert n as real / s as real == q as real + r as real / s as real;
  }

  lemma QuotientTimes(n: nat, s: nat)
    requires s > 0
    ensures n as real / s as real * 90000.0 == (90_000 * n) as real / s as real
  {
    var x := n as real / s as real;
    assert x * s as real == n as real;
    assert x * 90000.0 * s as real == (90_000 * n) as real;
  }

  function ValueOf(d: Double): real {
    d.significand as real / Pow2(d.scale) as real
  }

  lemma NearestSatisfies(delta: int)
    requires 0 < delta <= MAX_DELTA
    ensures Seconds(delta, ValueOf(SecondsOf(delta)))
    ensures Scaled(ValueOf(SecondsOf(delta)), ValueOf(ScaledOf(delta)))
    ensures Truncate(ValueOf(ScaledOf(delta))) == ScaledOf(delta).significand / Pow2(ScaledOf(delta).scale)
  {
    hide Nearest, Pow2, Abs, Rounds;
    var p, q := SecondsOf(delta), ScaledOf(delta);
    SecondsRange(delta);
    NearestIsNearest(delta, 1_000_000, 0);
    NearestRounds(delta, 1_000_000, Pow2(p.scale), p.significand);
    NearestIsNearest(90_000 * p.significand, Pow2(p.scale), 0);
    NearestRounds(90_000 * p.significand, Pow2(p.scale), Pow2(q.scale), q.significand);
    QuotientTimes(p.significand, Pow2(p.scale));
    FloorOfQuotient(q.significand, Pow2(q.scale));
  }

  /** Double arithmetic is symmetric in the sign. */
  lemma Negated(delta: int, p: real, q: real)
    requires Seconds(delta, p) && Scaled(p, q) && p >= 0.0 && q >= 0.0
    ensures Seconds(-delta, -p) && Scaled(-p, -q) && Truncate(-q) == -Truncate(q)
  {
    assert (-delta) as real / 1000000.0 == -(delta as real / 1000000.0);
  }

  lemma ZeroComputes()
    ensures Computes(0, 0)
  {
    assert Seconds(0, 0.0) && Scaled(0.0, 0.0);
  }

  lemma NearestComputes(delta: int)
    requires MIN_DELTA <= delta <= MAX_DELTA
    ensures Computes(delta, NearestTicks(delta))
  {
    hide Rounds, Seconds, Scaled, Nearest, Pow2, ScaledOf, SecondsOf;
    if delta == 0 {
      ZeroComputes();
    } else if delta > 0 {
      NearestSatisfies(delta);
    } else {
      NearestSatisfies(-delta);
      Negated(-delta, ValueOf(SecondsOf(-delta)), ValueOf(ScaledOf(-delta)));
    }
  }

  lemma NearestClockExists()
    ensures IsNearestClock(delta => if MIN_DELTA <= delta <= MAX_DELTA then ToUint32(NearestTicks(delta)) else 0)
  {
    forall delta | MIN_DELTA <= delta <= MAX_DELTA
      ensures ToUint32(NearestTicks(delta)) == NearestTicks(delta)
    {
      NearestComputes(delta);
      TicksNearExact(delta, NearestTicks(delta));
    }
  }

  lemma NearestClockIsDoubleClock(clock: TickClock)
    requires IsNearestClock(clock)
    ensures IsDoubleClock(clock)
  {
    forall delta | MIN_DELTA <= delta <= MAX_DELTA
      ensures Computes(delta, clock(delta))
    {
      NearestComputes(delta);
      assert clock(delta) == NearestTicks(delta);
    }
  }

  // ---------- Exactly when a tick is lost ----------

  /**
   * For `delta == 100 * m`: with `M` the multiple of `m` by a power of two that lies between
   * 10^4 * 2^52 and 10^4 * 2^53.
   */
  function ScaledHundreds(delta: int): nat
    requires 0 < delta <= MAX_DELTA && delta % 100 == 0
  {
    delta / 100 * Pow2(Scale(delta / 100, 10_000))
  }

  predicate Loses(scaled: nat) {
    3641 <= scaled % 10_000 < 5000 && 9 * scaled < 0x20_0000_0000_0000_0000
  }

  predicate LosesTick(delta: int)
    requires delta <= MAX_DELTA
  {
    delta > 0 && delta % 100 == 0 && Loses(ScaledHundreds(delta))
  }

  /** The quotient is `M / 10^4` rounded; `9 * M` is a multiple of a high power of two. */
  lemma SecondsOfHundreds(delta: int)
    requires 0 < delta <= MAX_DELTA && delta % 100 == 0
    ensures var p, scaled := SecondsOf(delta), ScaledHundreds(delta);
            && p.scale == Scale(delta / 100, 10_000)
            && p.significand == RoundHalfEven(scaled, 10_000)
  {
    var m := delta / 100;
    var k := Scale(m, 10_000);
    ScaleReaches(m, 10_000);
    assert delta * Pow2(k) == 100 * (m * Pow2(k));
    ScaleUnique(delta, 1_000_000, k);
    RoundCancel(m * Pow2(k), 10_000, 100);
  }

  /** Rounding `a / 2^(shift + rest)` is rounding `a / 2^shift`, if that leaves 53 bits. */
  lemma NearestAtScale(a: nat, shift: nat, rest: nat)
    requires SMALLEST_SIGNIFICAND * Pow2(shift) <= a < 2 * SMALLEST_SIGNIFICAND * Pow2(shift)
    ensures 0 < a < 2 * SMALLEST_SIGNIFICAND * Pow2(shift + rest)
    ensures Nearest(a, Pow2(shift + rest)) == Double(RoundHalfEven(a, Pow2(shift)), rest)
  {
    hide RoundHalfEven, Scale, Pow2;
    var d, s := Pow2(shift), Pow2(rest);
    Pow2Add(shift, rest);
    Pow2Grows(shift, shift + rest);
    MulOrder(SMALLEST_SIGNIFICAND * d, a, s);
    MulOrder(a, 2 * SMALLEST_SIGNIFICAND * d, s);
    assert SMALLEST_SIGNIFICAND * d * s == SMALLEST_SIGNIFICAND * (d * s);
    assert 2 * SMALLEST_SIGNIFICAND * d * s == 2 * SMALLEST_SIGNIFICAND * (d * s);
    ScaleUnique(a, Pow2(shift + rest), rest);
    RoundCancel(a, d, s);
  }

  /** The product is `90000 * n` rounded to the multiples of 2^16 or, if it is large, of 2^17. */
  lemma ProductOf(n: nat, k: nat)
    requires k >= 17 && SMALLEST_SIGNIFICAND <= n <= 2 * SMALLEST_SIGNIFICAND
    ensures 0 < 90_000 * n < 2 * SMALLEST_SIGNIFICAND * Pow2(k)
    ensures Nearest(90_000 * n, Pow2(k)) ==
            if 90_000 * n < 0x20_0000_0000_0000_0000 then Double(RoundHalfEven(90_000 * n, 0x1_0000), k - 16)
            else Double(RoundHalfEven(90_000 * n, 0x2_0000), k - 17)
  {
    hide RoundHalfEven, Scale, Pow2;
    PowerValues();
    if 90_000 * n < 0x20_0000_0000_0000_0000 {
      NearestAtScale(90_000 * n, 16, k - 16);
    } else {
      NearestAtScale(90_000 * n, 17, k - 17);
    }
  }

  /** The two roundings of `M`: below 2^69 the tick is lost for these remainders, above it never is. */
  lemma TwoRoundings(scaled: nat, n1: nat, exact: nat)
    requires scaled % 16 == 0 && n1 == RoundHalfEven(scaled, 10_000)
    ensures 9 * scaled == 0x1_0000 * exact ==>
              (RoundHalfEven(90_000 * n1, 0x1_0000) < exact <==> 3641 <= scaled % 10_000 < 5000)
    ensures 9 * scaled == 0x2_0000 * exact ==> RoundHalfEven(90_000 * n1, 0x2_0000) >= exact
  {
    assert scaled % 10_000 != 5000;
  }

  lemma RoundedDown(scaled: nat)
    requires scaled % 10_000 < 5000
    ensures 90_000 * RoundHalfEven(scaled, 10_000) == 9 * scaled - 9 * (scaled % 10_000)
  {
    assert scaled == 10_000 * (scaled / 10_000) + scaled % 10_000;
  }

  lemma NotNineFold(c: nat)
    ensures 9 * c != 0x10_0000_0000_0000
  {
    assert 0x10_0000_0000_0000 == 9 * 500_399_958_596_721 + 7;
  }

  lemma BothBelow(d: nat, loss: nat)
    requires d != 0x10_0000_0000_0000 && loss < 0x2_0000
    ensures 0x2_0000 * d - loss < 0x20_0000_0000_0000_0000 <==> 0x2_0000 * d < 0x20_0000_0000_0000_0000
  {
  }

  /** Which of the two applies can be read off `M`. */
  lemma ProductSize(scaled: nat, n1: nat, c: nat)
    requires scaled == 0x2_0000 * c && n1 == RoundHalfEven(scaled, 10_000) && scaled % 10_000 < 5000
    ensures 90_000 * n1 < 0x20_0000_0000_0000_0000 <==> 9 * scaled < 0x20_0000_0000_0000_0000
  {
    hide RoundHalfEven;
    RoundedDown(scaled);
    NotNineFold(c);
    BothBelow(9 * c, 9 * (scaled % 10_000));
  }

  lemma MultipleOf16(x: nat)
    ensures 16 * x % 16 == 0
  {
  }

  lemma Rearrange(m: nat, c: nat, s: nat)
    ensures m * (c * s) == c * (m * s)
  {
  }

  lemma HundredsDivisible(m: nat, k: nat)
    requires k >= 17
    ensures m * Pow2(k) == 0x2_0000 * (m * Pow2(k - 17)) == 0x1_0000 * (m * Pow2(k - 16))
  {
    hide Pow2;
    PowerValues();
    Pow2Add(17, k - 17);
    Pow2Add(16, k - 16);
    Rearrange(m, 0x2_0000, Pow2(k - 17));
    Rearrange(m, 0x1_0000, Pow2(k - 16));
  }

  /** The two roundings of `M`, the second at whichever unit applies. */
  lemma LossDecided(scaled: nat, c: nat, unit: nat, exact: nat)
    requires scaled == 0x2_0000 * c && 9 * scaled == unit * exact
    requires unit == if 90_000 * RoundHalfEven(scaled, 10_000) < 0x20_0000_0000_0000_0000 then 0x1_0000 else 0x2_0000
    ensures RoundHalfEven(90_000 * RoundHalfEven(scaled, 10_000), unit) < exact <==> Loses(scaled)
  {
    hide RoundHalfEven;
    var n1 := RoundHalfEven(scaled, 10_000);
    MultipleOf16(0x2000 * c);
    assert scaled == 16 * (0x2000 * c);
    TwoRoundings(scaled, n1, exact);
    if scaled % 10_000 < 5000 {
      ProductSize(scaled, n1, c);
    }
  }

  lemma FloorBelow(n: nat, s: nat, m: nat)
    requires s > 0
    ensures n / s < 9 * m <==> n < 9 * (m * s)
  {
    FloorAtLeast(n, s, 9 * m);
    assert 9 * m * s == 9 * (m * s);
  }

  /** Where the exact value is a whole number of ticks, the condition decides. */
  lemma HundredsLose(delta: int)
    requires 0 < delta <= MAX_DELTA && delta % 100 == 0
    ensures NearestTicks(delta) < ExactTicks(delta) <==> LosesTick(delta)
  {
    hide RoundHalfEven, Nearest, Scale, Pow2, Loses;
    var p, q, m, scaled := SecondsOf(delta), ScaledOf(delta), delta / 100, ScaledHundreds(delta);
    SecondsRange(delta);
    SecondsOfHundreds(delta);
    HundredsDivisible(m, p.scale);
    ProductOf(p.significand, p.scale);
    var small := 90_000 * p.significand < 0x20_0000_0000_0000_0000;
    var unit := if small then 0x1_0000 else 0x2_0000;
    var s := Pow2(if small then p.scale - 16 else p.scale - 17);
    assert q.significand == RoundHalfEven(90_000 * p.significand, unit);
    assert NearestTicks(delta) == q.significand / s && ExactTicks(delta) == 9 * m;
    LossDecided(scaled, m * Pow2(p.scale - 17), unit, 9 * (m * s));
    FloorBelow(q.significand, s, m);
  }

  /**
   * The timestamp is the exact one if and only if `LosesTick` does not hold, for every difference the
   * cast is defined for; otherwise it is one tick behind.
   */
  lemma ExactUnlessTickLost(clock: TickClock, delta: int)
    requires IsNearestClock(clock) && MIN_DELTA <= delta <= MAX_DELTA
    ensures clock(delta) == ExactTicks(delta) <==> !LosesTick(delta)
    ensures LosesTick(delta) ==> clock(delta) == ExactTicks(delta) - 1
  {
    assert clock(delta) == NearestTicks(delta);
    NearestComputes(delta);
    TicksNearExact(delta, clock(delta));
    if delta > 0 && delta % 100 == 0 {
      HundredsLose(delta);
    }
  }

  /** The tick is really lost: after 300 microseconds the timestamp is 26, not 27. */
  lemma TickLostAt300(clock: TickClock)
    requires IsNearestClock(clock)
    ensures clock(300) == 26 && ExactTicks(300) == 27
  {
    PowerValues();
    ScaleUnique(3, 10_000, 64);
    ExactUnlessTickLost(clock, 300);
  }

  // ---------- Along a stream ----------

  /** Between two timestamps `elapsed` microseconds apart: not backwards, and at most one tick off. */
  predicate InStep(earlier: uint32, later: uint32, elapsed: int) {
    earlier <= later && -100 <= 100 * (later - earlier) - 9 * elapsed <= 100
  }

  lemma TicksOrdered(d1: int, d2: int, t1: int, t2: int)
    requires 0 <= d1 < d2 <= MAX_DELTA
    requires Computes(d1, t1) && Computes(d2, t2)
    ensures t1 <= t2
  {
    var p1, q1 :| Seconds(d1, p1) && Scaled(p1, q1) && t1 == Truncate(q1);
    var p2, q2 :| Seconds(d2, p2) && Scaled(p2, q2) && t2 == Truncate(q2);
    RoundingBound(d1, p1, q1);
    RoundingBound(d2, p2, q2);
    assert q1 <= q2;
  }

  lemma ComputedInStep(d1: int, d2: int, t1: uint32, t2: uint32)
    requires 0 <= d1 < d2 <= MAX_DELTA
    requires Computes(d1, t1) && Computes(d2, t2)
    ensures InStep(t1, t2, d2 - d1)
  {
    TicksNearExact(d1, t1);
    TicksNearExact(d2, t2);
    TicksOrdered(d1, d2, t1, t2);
  }

  /** Timestamps never run backwards and never drift from the presentation times. */
  lemma TicksDoNotDrift(clock: TickClock, base: int, pts1: int, pts2: int)
    requires IsDoubleClock(clock)
    requires base <= pts1 <= pts2 <= base + MAX_DELTA
    ensures InStep(clock(pts1 - base), clock(pts2 - base), pts2 - pts1)
  {
    assert Computes(pts1 - base, clock(pts1 - base)) && Computes(pts2 - base, clock(pts2 - base));
    if pts1 < pts2 {
      ComputedInStep(pts1 - base, pts2 - base, clock(pts1 - base), clock(pts2 - base));
    }
  }

  /** How far the ticks between two differences are off, in hundredths of a tick. */
  function Drift(clock: TickClock, d1: int, d2: int): int {
    100 * (clock(d2) - clock(d1)) - 9 * (d2 - d1)
  }

  lemma LosesOnHundreds(delta: int)
    requires delta <= MAX_DELTA
    ensures LosesTick(delta) ==> delta % 100 == 0
  {
  }

  /**
   * With nearest rounding the drift stays below a whole tick, except between two multiples of 100
   * microseconds of which exactly one loses its tick.
   */
  lemma DriftReachesTick(clock: TickClock, d1: int, d2: int)
    requires IsNearestClock(clock)
    requires 0 <= d1 <= MAX_DELTA && 0 <= d2 <= MAX_DELTA
    ensures -100 <= Drift(clock, d1, d2) <= 100
    ensures Drift(clock, d1, d2) == 100 <==> d2 % 100 == 0 && LosesTick(d1) && !LosesTick(d2)
    ensures Drift(clock, d1, d2) == -100 <==> d1 % 100 == 0 && LosesTick(d2) && !LosesTick(d1)
  {
    hide LosesTick, NearestTicks;
    ExactUnlessTickLost(clock, d1);
    ExactUnlessTickLost(clock, d2);
    LosesOnHundreds(d1);
    LosesOnHundreds(d2);
    NineCoprimeTo100(d1);
    NineCoprimeTo100(d2);
  }

  // ---------- NTP fraction (section 4 of RFC 3550) ----------

  /** A receiver's reading of the fraction, rounded up to whole microseconds. */
  function Microseconds(fraction: uint32): int {
    (fraction * 1_000_000 + 0xFFFF_FFFF) / 0x1_0000_0000
  }

  /** The fraction fits 32 bits, grows with the microseconds and loses none of them. */
  lemma NtpFractionLossless(usec: int)
    requires 0 <= usec < 1_000_000
    ensures Microseconds(NtpFraction(usec)) == usec
    ensures usec + 1 < 1_000_000 ==> NtpFraction(usec) < NtpFraction(usec + 1)
  {
    var scaled := usec * 0x1_0000_0000;
    var f := NtpFraction(usec);
    assert scaled - 1_000_000 < f * 1_000_000 <= scaled;
  }

  /** A report tells the time of day it was sent, to the microsecond, until the seconds leave 32 bits. */
  lemma ReportTellsTime(st: State, ts: uint32, now: TimeOfDay)
    ensures var report := ReportOf(st, ts, now);
            && ToUint32(report.ntpSec - NTP_OFFSET) == ToUint32(now.0)
            && Microseconds(report.ntpFrac) == now.1
  {
    WrapEarly32(now.0 + NTP_OFFSET, -NTP_OFFSET);
    NtpFractionLossless(now.1);
  }
}
