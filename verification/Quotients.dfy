/** Division by a variable divisor, as counting items in batches needs it. */
module Quotients {
  lemma MulMonotone(d: nat, a: int, b: int)
    ensures a <= b ==> d * a <= d * b
  {
  }

  lemma AtLeastTwo(n: nat, d: nat)
    requires d > 0 && n >= 2 * d
    ensures n / d >= 2
  {
    MulMonotone(d, n / d, 1);
    assert n == d * (n / d) + n % d;
  }

  lemma SmallQuotient(n: nat, d: nat)
    requires n < d
    ensures n / d == 0 && n % d == n
  {
  }

  lemma QuotientStep(n: nat, d: nat)
    requires d > 0
    ensures if n % d == d - 1 then (n + 1) / d == n / d + 1 && (n + 1) % d == 0
            else (n + 1) / d == n / d && (n + 1) % d == n % d + 1
  {
    var q, r := n / d, n % d;
    assert n == d * q + r;
    if r == d - 1 {
      assert n + 1 == d * (q + 1);
      DivisionUnique(n + 1, d, q + 1, 0);
    } else {
      DivisionUnique(n + 1, d, q, r + 1);
    }
  }

  lemma DivisionUnique(n: nat, d: nat, q: nat, r: nat)
    requires d > 0 && n == d * q + r && r < d
    ensures n / d == q && n % d == r
  {
    assert n == d * (n / d) + n % d;
    MulMonotone(d, n / d + 1, q);
    MulMonotone(d, q + 1, n / d);
  }
}
