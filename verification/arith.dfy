/** Monotonicity facts about multiplication and floor division that the
    percentage and calendar-day reasoning rests on. */
module Arith {

  /** Multiplying by a positive factor keeps the order. */
  lemma {:induction false} MulMonotone(k: int, x: int, y: int)
    requires k > 0 && x <= y
    ensures k * x <= k * y
    decreases y - x
  {
    if x < y {
      MulMonotone(k, x, y - 1);
      assert k * y == k * (y - 1) + k;
    }
  }

  /** Floor division by a positive divisor keeps the order. */
  lemma DivMonotone(a: int, b: int, d: int)
    requires d > 0 && a <= b
    ensures a / d <= b / d
  {
    var qa, qb := a / d, b / d;
    assert d * qa + a % d == a && d * qb + b % d == b;
    if qa > qb {
      MulMonotone(d, qb + 1, qa);
    }
  }
}
