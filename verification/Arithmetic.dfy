/** The few facts about division that the schedules and policies need. */
module Arithmetic {
  /** Quotient and remainder are unique. */
  lemma Quotient(n: int, x: int, q: int, r: int)
    requires n > 0 && x == n * q + r && 0 <= r < n
    ensures x / n == q && x % n == r
  {
    var d := x / n - q;
    assert x == n * (x / n) + x % n;
    assert n * d == r - x % n;
    SmallMultiple(n, d);
  }

  lemma SmallMultiple(n: int, d: int)
    requires n > 0 && -n < n * d < n
    ensures d == 0
  {
    if d > 0 {
      MulAtLeast(d, n);
    } else if d < 0 {
      MulAtLeast(-d, n);
    }
  }

  lemma MulAtLeast(c: int, q: int)
    requires c >= 1 && q >= 0
    ensures c * q >= q
  {
    assert c * q == q + (c - 1) * q;
  }

  lemma DivMonotone(a: int, b: int, d: int)
    requires d > 0 && a <= b
    ensures a / d <= b / d
  {
    if a / d > b / d {
      MulAtLeast(a / d - b / d, d);
    }
  }

  lemma DivLess(x: int, d: int)
    requires d > 0
    ensures (x - d) / d == x / d - 1
  {
    Quotient(d, x - d, x / d - 1, x % d);
  }

  lemma MulMonotone(n: int, a: int, b: int)
    requires n >= 0 && a <= b
    ensures n * a <= n * b
  {
    assert n * b == n * a + n * (b - a);
  }
}
