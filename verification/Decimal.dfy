/**
 * Fixed-point decimals with 18 digits after the point, as the chain's fee arithmetic uses them: a
 * decimal is the integer `value * 10^18`.
 */
module Decimal {

  const ONE: int := 1_000_000_000_000_000_000

  type Dec = int

  /** Integer division that truncates toward zero. */
  function Truncated(a: int, b: int): (q: int)
    requires b > 0
    ensures a >= 0 ==> q == a / b
  {
    if a >= 0 then a / b else -((-a) / b)
  }

  function FromInt(n: int): Dec {
    n * ONE
  }

  function QuoInt(d: Dec, n: int): Dec
    requires n > 0
  {
    Truncated(d, n)
  }

  function MulInt(d: Dec, n: int): Dec {
    d * n
  }

  function TruncateInt(d: Dec): int {
    Truncated(d, ONE)
  }

  /** The least integer not below the decimal. */
  function CeilInt(d: Dec): (n: int)
    ensures FromInt(n - 1) < d <= FromInt(n)
  {
    if d >= 0 then (d + ONE - 1) / ONE else -((-d) / ONE)
  }

  function FloorInt(d: Dec): (n: int)
    ensures FromInt(n) <= d < FromInt(n + 1)
  {
    d / ONE
  }

  /** Divides by 10^18, to the nearest integer, ties to even. */
  function Chop(x: int): int {
    if x < 0 then -ChopPositive(-x) else ChopPositive(x)
  }

  function ChopPositive(x: int): (r: int)
    requires x >= 0
    ensures 0 <= r && -ONE <= 2 * (r * ONE - x) <= ONE
  {
    var quo, rem := x / ONE, x % ONE;
    if 2 * rem < ONE || (2 * rem == ONE && quo % 2 == 0) then quo else quo + 1
  }

  function Mul(a: Dec, b: Dec): Dec {
    Chop(a * b)
  }

  function Quo(a: Dec, b: Dec): Dec
    requires b > 0
  {
    Chop(Truncated(a * ONE * ONE, b))
  }

  lemma ChopExact(k: int)
    ensures Chop(k * ONE) == k
  {
  }

  lemma ChopMonotone(x: int, y: int)
    requires x <= y
    ensures Chop(x) <= Chop(y)
  {
    if 0 <= x {
      ChopPositiveMonotone(x, y);
    } else if y < 0 {
      ChopPositiveMonotone(-y, -x);
    }
  }

  lemma ChopPositiveMonotone(x: int, y: int)
    requires 0 <= x <= y
    ensures ChopPositive(x) <= ChopPositive(y)
  {
    assert x / ONE <= y / ONE;
  }

  /** A whole number times a decimal is exact. */
  lemma MulWhole(n: int, d: Dec)
    ensures Mul(FromInt(n), d) == n * d
  {
    assert FromInt(n) * d == (n * d) * ONE;
    ChopExact(n * d);
  }

  /** Rounding up a sum: the ceilings differ by the floor or the ceiling of the difference. */
  lemma CeilOfSum(a: Dec, b: Dec)
    ensures FloorInt(a) <= CeilInt(a + b) - CeilInt(b) <= CeilInt(a)
  {
  }

  lemma CeilMonotone(a: Dec, b: Dec)
    requires a <= b
    ensures CeilInt(a) <= CeilInt(b)
  {
  }

  lemma CeilWhole(n: int, d: Dec)
    ensures d <= FromInt(n) ==> CeilInt(d) <= n
    ensures n >= 0 && d > FromInt(n) ==> CeilInt(d) > n
  {
  }
}
