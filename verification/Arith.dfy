/** Facts about products and quotients that the solver needs spelled out. */
module Arith {

  lemma MulNext(d: nat, a: nat)
    ensures d * (a + 1) == d * a + d
  {
  }

  lemma MulStep(d: nat, a: nat, b: nat)
    ensures a < b ==> d * a + d <= d * b
  {
    if a < b {
      assert d * b == d * (a + 1) + d * (b - a - 1);
    }
  }

  /** Quotient and remainder are unique. */
  lemma {:induction false} DivUnique(n: nat, d: nat, q: nat, r: nat)
    requires d > 0 && n == d * q + r && r < d
    ensures n / d == q && n % d == r
  {
    var q', r' := n / d, n % d;
    assert n == d * q' + r';
    MulStep(d, q', q);
    MulStep(d, q, q');
  }
}
