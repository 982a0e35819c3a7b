/** Facts about division and products that the solver does not find by itself. */
module Arith {
  lemma ProductMonotone(a: int, b: int, d: int)
    requires a <= b && d >= 0
    ensures a * d <= b * d
  {
    assert (b - a) * d >= 0;
  }

  /** The quotient and the remainder are the only ones. */
  lemma DivModUnique(x: int, d: int, q: int, r: int)
    requires 0 <= r < d && x == q * d + r
    ensures x / d == q && x % d == r
  {
    var q', r' := x / d, x % d;
    assert x == q' * d + r';
    assert (q' + 1) * d == q' * d + d && (q + 1) * d == q * d + d;
    if q' < q {
      ProductMonotone(q' + 1, q, d);
    } else if q < q' {
      ProductMonotone(q + 1, q', d);
    }
  }

  lemma MultipleHasNoRemainder(q: int, d: int)
    requires d > 0
    ensures (q * d) % d == 0
  {
    DivModUnique(q * d, d, q, 0);
  }

  lemma MultiplesAdd(a: int, b: int, d: int)
    requires d > 0 && a % d == 0 && b % d == 0
    ensures (a + b) % d == 0 && (a - b) % d == 0
  {
    var p, q := a / d, b / d;
    assert (p + q) * d == a + b && (p - q) * d == a - b;
    MultipleHasNoRemainder(p + q, d);
    MultipleHasNoRemainder(p - q, d);
  }

  /** Division by `p * p` of a multiple of `p`. */
  lemma ScaledDivMod(v: nat, p: int)
    requires p > 0
    ensures p * p > 0 && v / p * (p * p) >= 0 && v / p * (p * p) <= v * p
    ensures v * p - v * p % (p * p) == v / p * (p * p)
  {
    var q, r, s := v / p, v % p, p * p;
    assert v == q * p + r;
    Product3(q, p, r, s);
    ProductMonotone(0, q, s);
    ProductMonotone(r + 1, p, p);
    ProductMonotone(0, r, p);
    DivModUnique(v * p, s, q, r * p);
  }

  lemma Product3(q: int, p: int, r: int, s: int)
    requires s == p * p
    ensures (q * p + r) * p == q * s + r * p && (r + 1) * p == r * p + p
  {
  }
}
