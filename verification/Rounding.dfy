/**
 * Python's round() of a fraction, exactly: to the nearest integer, and on a tie to the even one.
 * Numerator and denominator stay apart, so that no precision is lost.
 */
module Rounding {

  /** round(num / den): to the nearest integer, a tie to the even one. */
  function RoundHalfEven(num: int, den: int): int
    requires den > 0
  {
    var f, r := num / den, num % den;
    if 2 * r < den then f
    else if 2 * r > den then f + 1
    else if f % 2 == 0 then f else f + 1
  }

  /** What rounding to nearest means: within half a step, and on a tie even. */
  lemma {:induction false} RoundNear(num: int, den: int)
    requires den > 0
    ensures var f := RoundHalfEven(num, den);
            && (2 * f - 1) * den <= 2 * num <= (2 * f + 1) * den
            && (2 * num == (2 * f - 1) * den || 2 * num == (2 * f + 1) * den ==> f % 2 == 0)
  {
    var q, r := num / den, num % den;
    assert num == q * den + r;
    assert (2 * q - 1) * den == 2 * (q * den) - den && (2 * q + 1) * den == 2 * (q * den) + den;
    assert (2 * (q + 1) - 1) * den == 2 * (q * den) + den && (2 * (q + 1) + 1) * den == 2 * (q * den) + 3 * den;
  }

  lemma {:induction false} MulLe(a: int, b: int, c: int)
    requires a <= b && c >= 0
    ensures a * c <= b * c
  {
  }

  lemma {:induction false} MulLt(a: int, b: int, c: int)
    requires a < b && c > 0
    ensures a * c < b * c
  {
  }

  lemma {:induction false} TwiceCross(a: int, d: int, c: int, b: int)
    requires a * d <= c * b
    ensures 2 * a * d <= 2 * c * b
  {
    assert 2 * a * d == 2 * (a * d) && 2 * c * b == 2 * (c * b);
  }

  lemma {:induction false} OddSteps(x: int, y: int, k: int)
    requires k > 0 && x * k <= y * k
    ensures x <= y
  {
    if x > y { MulLt(y, x, k); }
  }

  lemma {:induction false} Shuffle(k: int, b: int, d: int)
    ensures k * b * d == k * (b * d) && b * d == d * b
  {
  }

  lemma {:induction false} Cancel(x: int, y: int, k: int)
    requires k > 0 && x * k == y * k
    ensures x == y
  {
    if x < y { MulLt(x, y, k); } else if y < x { MulLt(y, x, k); }
  }

  /** Rounding never reverses the order of two fractions. */
  lemma {:induction false} RoundMonotone(a: int, b: int, c: int, d: int)
    requires b > 0 && d > 0 && a * d <= c * b
    ensures RoundHalfEven(a, b) <= RoundHalfEven(c, d)
  {
    var f, g := RoundHalfEven(a, b), RoundHalfEven(c, d);
    RoundNear(a, b);
    RoundNear(c, d);
    if f > g {
      var lo, hi := (2 * f - 1) * b, (2 * g + 1) * d;
      MulLe(lo, 2 * a, d);
      MulLe(2 * c, hi, b);
      TwiceCross(a, d, c, b);
      assert lo * d <= 2 * a * d <= 2 * c * b <= hi * b;
      Shuffle(2 * f - 1, b, d);
      Shuffle(2 * g + 1, d, b);
      OddSteps(2 * f - 1, 2 * g + 1, b * d);
      Cancel(lo, 2 * a, d);
      Cancel(2 * c, hi, b);
      assert false;
    }
  }
}
