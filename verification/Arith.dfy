/** The few facts about products, quotients and remainders the other modules rely on. */
module Arith {

  lemma MulNonNegative(a: int, b: int)
    requires a >= 0 && b >= 0
    ensures a * b >= 0
  {
  }

  lemma MulMonotone(a: int, b: int, d: int)
    requires a <= b && d >= 0
    ensures a * d <= b * d
  {
    MulNonNegative(b - a, d);
    assert (b - a) * d == b * d - a * d;
  }

  lemma MulDistribute(a: int, b: int, d: int)
    ensures (a + b) * d == a * d + b * d
  {
  }

  /** `q` and `r` are the only quotient and remainder. */
  lemma DivModUnique(q: int, d: int, r: int)
    requires 0 <= r < d
    ensures (q * d + r) / d == q && (q * d + r) % d == r
  {
    var n := q * d + r;
    var q', r' := n / d, n % d;
    assert n == q' * d + r';
    if q > q' {
      MulMonotone(q' + 1, q, d);
      MulDistribute(q', 1, d);
      assert false;
    } else if q < q' {
      MulMonotone(q + 1, q', d);
      MulDistribute(q, 1, d);
      assert false;
    }
  }

  lemma DivMod(n: int, d: int)
    requires d > 0
    ensures n == n / d * d + n % d && 0 <= n % d < d
  {
  }

  lemma ModSuccessor(x: int, n: int)
    requires n > 0
    ensures (x % n + 1) % n == (x + 1) % n
  {
    var q, r := x / n, x % n;
    DivMod(x, n);
    if r + 1 == n {
      MulDistribute(q, 1, n);
      DivModUnique(q + 1, n, 0);
      DivModUnique(1, n, 0);
    } else {
      DivModUnique(q, n, r + 1);
      DivModUnique(0, n, r + 1);
    }
  }
}
