/** Rounding to the nearest double (IEEE 754 round-half-even, 53-bit significands), on fractions below 2^53. */
module Doubles {

  const SMALLEST_SIGNIFICAND := 0x10_0000_0000_0000 // 2^52

  /** The value `significand / 2^scale`. */
  datatype Double = Double(significand: nat, scale: nat)

  function Pow2(k: nat): (power: nat)
    ensures power > 0
  {
    if k == 0 then 1 else 2 * Pow2(k - 1)
  }

  function Abs(x: int): nat { if x < 0 then -x else x }

  /** The integer nearest to `a / b`, the even one of two. */
  function RoundHalfEven(a: nat, b: nat): nat
    requires b > 0
  {
    var n, r := a / b, a % b;
    if 2 * r < b || (2 * r == b && n % 2 == 0) then n else n + 1
  }

  /** How often `a / b` must be doubled to reach the 53-bit significands. */
  function Scale(a: nat, b: nat): nat
    requires 0 < a < 2 * SMALLEST_SIGNIFICAND * b
    decreases SMALLEST_SIGNIFICAND * b - a
  {
    if a >= SMALLEST_SIGNIFICAND * b then 0 else 1 + Scale(2 * a, b)
  }

  /** `a / b` rounded to a double. */
  function Nearest(a: nat, b: nat): Double
    requires 0 < a < 2 * SMALLEST_SIGNIFICAND * b
  {
    var k := Scale(a, b);
    Double(RoundHalfEven(a * Pow2(k), b), k)
  }

  // ---------- Arithmetic ----------

  lemma MulMonotone(x: int, y: int, s: nat)
    requires x <= y
    ensures x * s <= y * s
  {
    var d: nat := y - x;
    assert y * s == x * s + d * s;
  }

  lemma MulOrder(x: int, y: int, s: nat)
    requires s > 0
    ensures x <= y <==> x * s <= y * s
    ensures x < y <==> x * s < y * s
  {
    if x < y {
      MulMonotone(x + 1, y, s);
      assert (x + 1) * s == x * s + s;
    } else {
      MulMonotone(y, x, s);
      if y < x {
        MulMonotone(y + 1, x, s);
        assert (y + 1) * s == y * s + s;
      }
    }
  }

  lemma DivUnique(x: nat, d: nat, q: nat, r: nat)
    requires d > 0 && x == q * d + r && r < d
    ensures x / d == q && x % d == r
  {
    var q' := x / d;
    assert x == q' * d + x % d;
    assert (q' + 1) * d == q' * d + d && (q + 1) * d == q * d + d;
    MulOrder(q' + 1, q, d);
    MulOrder(q + 1, q', d);
  }

  lemma FloorAtLeast(n: nat, s: nat, t: nat)
    requires s > 0
    ensures n / s >= t <==> n >= t * s
  {
    var q := n / s;
    assert n == q * s + n % s;
    MulOrder(t, q, s);
    MulOrder(q + 1, t, s);
    assert (q + 1) * s == q * s + s;
  }

  lemma {:induction false} Pow2Add(j: nat, k: nat)
    ensures Pow2(j + k) == Pow2(j) * Pow2(k)
  {
    if j > 0 {
      Pow2Add(j - 1, k);
    }
  }

  lemma {:induction false} Pow2Grows(j: nat, k: nat)
    requires j <= k
    ensures Pow2(j) <= Pow2(k)
    decreases k - j
  {
    if j < k {
      Pow2Grows(j, k - 1);
    }
  }

  lemma PowerValues()
    ensures Pow2(16) == 0x1_0000 && Pow2(17) == 0x2_0000
    ensures Pow2(36) == 0x10_0000_0000 && Pow2(64) == 0x1_0000_0000_0000_0000
  {
    assert Pow2(4) == 16;
    Pow2Add(4, 4);
    Pow2Add(8, 8);
    Pow2Add(16, 16);
    Pow2Add(32, 4);
    Pow2Add(32, 32);
  }

  // ---------- Rounding ----------

  /** No integer is nearer, and of two equally near ones the even one is chosen. */
  lemma NearestInteger(a: nat, b: nat, other: nat)
    requires b > 0
    ensures var n := RoundHalfEven(a, b);
            && 2 * Abs(n * b - a) <= b
            && Abs(n * b - a) <= Abs(other * b - a)
            && (other != n && Abs(n * b - a) == Abs(other * b - a) ==> n % 2 == 0)
  {
    var q, r := a / b, a % b;
    assert a == q * b + r;
    assert (q + 1) * b == q * b + b;
    if other <= q {
      MulOrder(other, q, b);
      if other < q {
        MulOrder(other + 1, q, b);
        assert (other + 1) * b == other * b + b;
      }
    } else {
      MulOrder(q + 1, other, b);
      if other > q + 1 {
        MulOrder(q + 2, other, b);
        assert (q + 2) * b == q * b + 2 * b;
      }
    }
  }

  lemma DivCancel(a: nat, b: nat, s: nat)
    requires b > 0 && s > 0 && b * s > 0
    ensures a * s / (b * s) == a / b && a * s % (b * s) == a % b * s
  {
    var q, r := a / b, a % b;
    MulOrder(r, b, s);
    assert a == q * b + r;
    assert a * s == q * b * s + r * s;
    assert q * b * s == q * (b * s);
    DivUnique(a * s, b * s, q, r * s);
  }

  /** A common factor does not matter. */
  lemma RoundCancel(a: nat, b: nat, s: nat)
    requires b > 0 && s > 0
    ensures b * s > 0 && RoundHalfEven(a * s, b * s) == RoundHalfEven(a, b)
  {
    var q, r := a / b, a % b;
    MulOrder(0, b, s);
    DivCancel(a, b, s);
    MulOrder(2 * r, b, s);
    assert 2 * r * s == 2 * (r * s);
  }

  lemma {:induction false} ScaleReaches(a: nat, b: nat)
    requires 0 < a < 2 * SMALLEST_SIGNIFICAND * b
    ensures var scaled := a * Pow2(Scale(a, b));
            SMALLEST_SIGNIFICAND * b <= scaled < 2 * SMALLEST_SIGNIFICAND * b
    decreases SMALLEST_SIGNIFICAND * b - a
  {
    if a < SMALLEST_SIGNIFICAND * b {
      ScaleReaches(2 * a, b);
      var p := Pow2(Scale(2 * a, b));
      assert 2 * a * p == a * (2 * p);
    }
  }

  /** No other scale does. */
  lemma {:induction false} ScaleUnique(a: nat, b: nat, k: nat)
    requires 0 < a < 2 * SMALLEST_SIGNIFICAND * b
    requires SMALLEST_SIGNIFICAND * b <= a * Pow2(k) < 2 * SMALLEST_SIGNIFICAND * b
    ensures Scale(a, b) == k
    decreases k
  {
    if k > 0 {
      var p := Pow2(k - 1);
      assert a * Pow2(k) == 2 * a * p;
      MulOrder(1, p + 1, a);
      assert a * p >= a by { MulOrder(1, p, a); }
      ScaleUnique(2 * a, b, k - 1);
    }
  }

  lemma SignificandRange(scaled: nat, b: nat)
    requires SMALLEST_SIGNIFICAND * b <= scaled < 2 * SMALLEST_SIGNIFICAND * b
    ensures SMALLEST_SIGNIFICAND <= RoundHalfEven(scaled, b) <= 2 * SMALLEST_SIGNIFICAND
  {
    var q := scaled / b;
    assert scaled == q * b + scaled % b;
    FloorAtLeast(scaled, b, SMALLEST_SIGNIFICAND);
    FloorAtLeast(scaled, b, 2 * SMALLEST_SIGNIFICAND);
  }

  /**
   * What `Nearest` means: the significand has 53 bits (or is the next power of two), and among all
   * integers it is the nearest to the scaled fraction, the even one of two.
   */
  lemma NearestIsNearest(a: nat, b: nat, other: nat)
    requires 0 < a < 2 * SMALLEST_SIGNIFICAND * b
    ensures var d := Nearest(a, b); var scaled := a * Pow2(d.scale);
            && SMALLEST_SIGNIFICAND * b <= scaled < 2 * SMALLEST_SIGNIFICAND * b
            && SMALLEST_SIGNIFICAND <= d.significand <= 2 * SMALLEST_SIGNIFICAND
            && 2 * Abs(d.significand * b - scaled) <= b
            && Abs(d.significand * b - scaled) <= Abs(other * b - scaled)
            && (other != d.significand && Abs(d.significand * b - scaled) == Abs(other * b - scaled)
                ==> d.significand % 2 == 0)
  {
    ScaleReaches(a, b);
    var scaled := a * Pow2(Scale(a, b));
    NearestInteger(scaled, b, other);
    SignificandRange(scaled, b);
  }
}
