/** The parts of Java's `int` arithmetic the engine relies on whose meaning
    differs from Dafny's: the truncating `%`, the arithmetic shift `>>` with
    its masked distance, and `Math.min` / `Math.max`.  Width (32-bit
    wrap-around) is not modelled. */
module JavaInt {

  import opened Arith

  function Abs(x: int): nat
  {
    if x < 0 then -x else x
  }

  function Min(a: int, b: int): int
  {
    if a <= b then a else b
  }

  function Max(a: int, b: int): int
  {
    if a >= b then a else b
  }

  /** Java's `a % b`: the quotient is truncated toward zero, so the remainder
      takes the sign of the dividend. */
  function Rem(a: int, b: int): (r: int)
    requires b != 0
    ensures Abs(r) < Abs(b)
    ensures a >= 0 ==> r >= 0
    ensures a <= 0 ==> r <= 0
    ensures (a - r) % Abs(b) == 0
  {
    var m := Abs(b);
    if a >= 0 then
      assert a - a % m == (a / m) * m;
      ModOfMultiple(a / m, m);
      a % m
    else
      assert a + (-a) % m == (-((-a) / m)) * m;
      ModOfMultiple(-((-a) / m), m);
      -((-a) % m)
  }

  /** On a non-negative dividend Java's remainder is Dafny's. */
  lemma RemOfNonNegative(a: int, b: int)
    requires a >= 0 && b > 0
    ensures Rem(a, b) == a % b
  {
  }

  /** Arithmetic right shift one bit at a time; each step rounds toward
      negative infinity, as Java's `x >> 1` does. */
  function Halve(x: int, n: nat): int
    decreases n
  {
    if n == 0 then x else Halve(x / 2, n - 1)
  }

  /** Java's `x >> distance` on an `int`: only the low five bits of the
      distance are used, i.e. the distance modulo 32 (never negative). */
  function ShiftRight(x: int, distance: int): int
  {
    Halve(x, distance % 32)
  }

  lemma {:induction false} HalveNonNegative(x: int, n: nat)
    requires x >= 0
    ensures Halve(x, n) >= 0
    ensures Halve(x, n) <= x
  {
    if n > 0 {
      HalveNonNegative(x / 2, n - 1);
    }
  }

  /** Shifting a value below 2^k right by k or more bits leaves nothing. */
  lemma {:induction false} HalveBelowPowerIsZero(x: int, k: nat, n: nat)
    requires 0 <= x < Pow2(k)
    requires n >= k
    ensures Halve(x, n) == 0
  {
    if n > 0 {
      if k > 0 {
        HalveBelowPowerIsZero(x / 2, k - 1, n - 1);
      } else {
        HalveBelowPowerIsZero(x / 2, 0, n - 1);
      }
    }
  }

  function Pow2(k: nat): (p: nat)
    ensures p >= 1
  {
    if k == 0 then 1 else 2 * Pow2(k - 1)
  }
}
