/** Non-linear integer facts the index arithmetic needs; the solver does not
    find them on its own. */
module Arith {

  lemma MulSign(d: int, m: int)
    requires m >= 1
    ensures d >= 1 ==> d * m >= m
    ensures d <= -1 ==> d * m <= -m
  {
  }

  lemma MulMonotone(a: int, b: int, c: int)
    requires a <= b && c >= 0
    ensures a * c <= b * c
  {
    assert b * c - a * c == (b - a) * c;
  }

  /** Euclidean division undoes `q * m + r` when the remainder is in range. */
  lemma DivOfSum(q: int, r: int, m: int)
    requires m >= 1 && 0 <= r < m
    ensures (q * m + r) / m == q
    ensures (q * m + r) % m == r
  {
    var n := q * m + r;
    var d := q - n / m;
    assert d * m == n % m - r;
    MulSign(d, m);
  }

  lemma ModOfMultiple(q: int, m: int)
    requires m >= 1
    ensures (q * m) % m == 0
  {
    DivOfSum(q, 0, m);
  }

  /** A position below `a * b` has a quotient by `b` below `a`. */
  lemma DivBelow(k: int, a: int, b: int)
    requires b >= 1 && 0 <= k < a * b
    ensures 0 <= k / b < a
  {
    var q := k / b;
    assert k == q * b + k % b;
    MulSign(q, b);
    if q >= a {
      MulMonotone(a, q, b);
    }
  }

  /** A digit below its base followed by a remainder below its weight stays
      below base times weight. */
  lemma DigitInRange(d: int, base: int, rest: int, weight: int)
    requires 0 <= d < base && 0 <= rest < weight
    ensures 0 <= d * weight + rest < base * weight
  {
    MulMonotone(0, d, weight);
    MulMonotone(d + 1, base, weight);
  }

  lemma MulNegate(a: int, b: int)
    ensures (0 - a) * b == -(a * b)
  {
  }
}
