/** Facts about natural-number multiplication and division used by the layout and delay proofs. */
module Arith {

  lemma DivBounds(a: nat, d: nat)
    requires d > 0
    ensures (a / d) * d <= a < (a / d) * d + d
    ensures a / d <= a
  {
    var q, r := a / d, a % d;
    assert a == d * q + r;
    assert d * q == q * d;
    MulMonotone(1, d, q);
    assert q * 1 <= q * d;
  }

  lemma DivNonneg(a: nat, d: nat)
    requires d > 0
    ensures a / d >= 0
  {
  }

  lemma DivExact(q: nat, d: nat)
    requires d > 0
    ensures q * d / d == q
  {
    DivBounds(q * d, d);
    QuotientUnique(q * d, d, q * d / d, q);
  }

  /** At most one quotient q satisfies q * d <= a < q * d + d. */
  lemma QuotientUnique(a: nat, d: nat, q1: nat, q2: nat)
    requires d > 0
    requires q1 * d <= a < q1 * d + d
    requires q2 * d <= a < q2 * d + d
    ensures q1 == q2
  {
    if q1 < q2 {
      MulMonotone(q1 + 1, q2, d);
    } else if q2 < q1 {
      MulMonotone(q2 + 1, q1, d);
    }
  }

  lemma MulMonotone(a: nat, b: nat, k: nat)
    requires a <= b
    ensures a * k <= b * k
  {
    assert b * k == a * k + (b - a) * k;
  }
}
