/** Facts about products and quotients of variables, which the solver is slow to find. */
module Arithmetic {

  lemma TimesMonotone(x: int, y: int, k: nat)
    requires x <= y
    ensures x * k <= y * k
  {
    assert y * k == x * k + (y - x) * k;
  }

  lemma DivisionIsUnique(x: int, d: nat, q: int, r: nat)
    requires x == q * d + r && r < d
    ensures x / d == q && x % d == r
  {
    var q', r' := x / d, x % d;
    assert x == q' * d + r';
    if q < q' {
      TimesMonotone(q + 1, q', d);
    } else if q > q' {
      TimesMonotone(q' + 1, q, d);
    }
  }
}
