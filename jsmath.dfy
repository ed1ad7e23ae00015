/** JavaScript number operations on integer operands: `Math.floor` of a
    quotient, `Math.round` of a percentage and `Math.min`. Floating-point
    representation is not modelled; quotients are exact. */
module JsMath {

  function Min(a: int, b: int): (m: int)
    ensures m <= a && m <= b && (m == a || m == b)
  {
    if a <= b then a else b
  }

  function MinReal(a: real, b: real): (m: real)
    ensures m <= a && m <= b && (m == a || m == b)
  {
    if a <= b then a else b
  }

  /** `Math.floor(a / b)`; Dafny's own `/` is Euclidean, so a negative
      divisor is handled separately. */
  function FloorDiv(a: int, b: int): (q: int)
    requires b != 0
    ensures b > 0 ==> b * q <= a < b * q + b
    ensures b < 0 ==> b * q >= a > b * q + b
  {
    if b > 0 then a / b else (-a) / (-b)
  }

  /** `Math.round((c / t) * 100)`: the integer r nearest to the percentage
      100c/t, halves rounded up as `Math.round` does; that is,
      r - 1/2 <= 100c/t < r + 1/2, multiplied out by 2t. */
  function RoundPercent(c: int, t: int): (r: int)
    requires t != 0
    ensures t > 0 ==> 2 * t * r - t <= 200 * c < 2 * t * r + t
    ensures t < 0 ==> 2 * t * r - t >= 200 * c > 2 * t * r + t
  {
    FloorDiv(200 * c + t, 2 * t)
  }

  lemma MulMonotone(x: int, y: int, k: int)
    requires x <= y && k >= 0
    ensures x * k <= y * k
  {
  }

  lemma MulStep(x: int, y: int, k: int)
    requires x < y && k >= 0
    ensures k * x + k <= k * y
  {
    MulMonotone(x + 1, y, k);
  }

  /** The rounded percentage is the one integer within a half of 100c/t. */
  lemma {:induction false} RoundPercentUnique(c: int, t: int, r: int)
    requires t > 0 && 2 * t * r - t <= 200 * c < 2 * t * r + t
    ensures RoundPercent(c, t) == r
  {
    var q := RoundPercent(c, t);
    if q > r {
      MulStep(r, q, 2 * t);
    } else if q < r {
      MulStep(q, r, 2 * t);
    }
  }

  /** Rounding is monotone in the part: more completions never show a lower percentage. */
  lemma {:induction false} RoundPercentMonotone(c1: int, c2: int, t: int)
    requires c1 <= c2 && t > 0
    ensures RoundPercent(c1, t) <= RoundPercent(c2, t)
  {
    var r1, r2 := RoundPercent(c1, t), RoundPercent(c2, t);
    if r1 > r2 {
      MulStep(r2, r1, 2 * t);
    }
  }

  /** The rounded percentage of a part of a positive whole lies in [0, 100],
      and is exactly 0 and 100 at the ends. */
  lemma {:induction false} RoundPercentBounds(c: int, t: int)
    requires 0 <= c <= t && t > 0
    ensures 0 <= RoundPercent(c, t) <= 100
    ensures c == t ==> RoundPercent(c, t) == 100
    ensures c == 0 ==> RoundPercent(c, t) == 0
  {
    RoundPercentUnique(0, t, 0);
    RoundPercentUnique(t, t, 100);
    RoundPercentMonotone(0, c, t);
    RoundPercentMonotone(c, t, t);
  }

  /** More than the whole, over a whole of at most 200, rounds to more than 100. */
  lemma {:induction false} RoundPercentAbove(c: int, t: int)
    requires 0 < t <= 200 && c > t
    ensures RoundPercent(c, t) > 100
  {
    var r := RoundPercent(c, t);
    if r <= 100 {
      MulMonotone(r, 100, 2 * t);
    }
  }

  /** A non-negative part of a negative whole rounds to at most 0. */
  lemma {:induction false} RoundPercentNegativeWhole(c: int, t: int)
    requires c >= 0 && t < 0
    ensures RoundPercent(c, t) <= 0
  {
    var r := RoundPercent(c, t);
    if r > 0 {
      MulMonotone(1, r, -2 * t);
    }
  }
}
