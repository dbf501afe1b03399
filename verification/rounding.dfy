/**
 * SQLite's `ROUND(x, 2)` applied to an exact quotient, in integer hundredths:
 * rounding to the nearest hundredth, halves away from zero. The result of
 * `ROUND(100.0 * count / total, 2)` is `Percentage(count, total)` hundredths
 * of a percent.
 */
module Rounding {
  import opened Wrappers

  /** The integer nearest to a / b, halves rounded away from zero. */
  function RoundDiv(a: int, b: int): (r: int)
    requires b != 0
    ensures b > 0 && a >= 0 ==> 2 * a - b < 2 * r * b <= 2 * a + b
    ensures b > 0 && a < 0 ==> 2 * a - b <= 2 * r * b < 2 * a + b
  {
    if b < 0 then RoundQuotient(-a, -b)
    else RoundQuotient(a, b)
  }

  /** Rounding of a / b for a positive divisor: the sign of a decides the direction of a half. */
  function RoundQuotient(a: int, b: int): (r: int)
    requires b > 0
    ensures a >= 0 ==> 2 * a - b < 2 * r * b <= 2 * a + b
    ensures a < 0 ==> 2 * a - b <= 2 * r * b < 2 * a + b
  {
    if a >= 0 then (2 * a + b) / (2 * b)
    else -((-2 * a + b) / (2 * b))
  }

  /**
   * `ROUND(100.0 * count / total, 2)`, in hundredths of a percent; `None`
   * (SQL NULL) when the total is 0, since SQLite's division by zero yields NULL.
   */
  function Percentage(count: int, total: int): (p: Option<int>)
    ensures p.None? <==> total == 0
    ensures total > 0 && count >= 0 ==> 2 * 10000 * count - total < 2 * p.value * total <= 2 * 10000 * count + total
  {
    if total == 0 then None else Some(RoundDiv(10000 * count, total))
  }

  /** Rounding to the nearest integer keeps a quotient between two integer bounds. */
  lemma RoundDivBetween(a: int, b: int, lo: int, hi: int)
    requires b > 0 && lo * b <= a <= hi * b
    ensures lo <= RoundDiv(a, b) <= hi
  {
    var r := RoundDiv(a, b);
    if r > hi {
      MulMonotone(hi + 1, r, b);
      assert false;
    }
    if r < lo {
      MulMonotone(r, lo - 1, b);
      assert false;
    }
  }

  lemma MulMonotone(x: int, y: int, b: int)
    requires x <= y && b > 0
    ensures x * b <= y * b
  {
  }

  /** A share of a total it does not exceed is between 0 and 100 percent. */
  lemma PercentageBounds(count: int, total: int)
    requires 0 <= count <= total && total > 0
    ensures 0 <= Percentage(count, total).value <= 10000
  {
    MulMonotone(count, total, 10000);
    RoundDivBetween(10000 * count, total, 0, 10000);
  }
}
