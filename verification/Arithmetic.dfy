/** The few facts about products that the solver wants stated on their own. */
module Arithmetic {
  lemma PositiveProduct(a: int, p: int)
    requires a >= 1 && p >= 1
    ensures a * p >= 1
  {
  }

  lemma Distribute(x: int, y: int, p: int)
    ensures (y - x) * p == y * p - x * p
    ensures (x + y) * p == x * p + y * p
  {
  }

  lemma Associate(a: int, b: int, c: int)
    ensures a * (b * c) == (a * b) * c
  {
  }

  lemma CancelFactor(x: int, y: int, p: int)
    requires p >= 1
    ensures x * p == y * p <==> x == y
    ensures x * p < y * p <==> x < y
  {
    if x < y {
      Distribute(x, y, p);
      PositiveProduct(y - x, p);
    } else if x > y {
      Distribute(y, x, p);
      PositiveProduct(x - y, p);
    }
  }

  lemma SignOfProduct(x: int, p: int)
    requires p >= 1
    ensures x * p == 0 <==> x == 0
    ensures x * p < 0 <==> x < 0
  {
    CancelFactor(x, 0, p);
  }

  lemma DivisionFacts(n: int, m: int)
    requires n >= 0 && m >= 1
    ensures n / m >= 0 && 0 <= n % m < m && n == (n / m) * m + n % m
  {
    if n / m < 0 {
      PositiveProduct(-(n / m), m);
      Distribute(0, n / m, m);
      Distribute(1, -(n / m), m);
    }
  }

  lemma QuotientIsUnique(n: int, m: int, q: int)
    requires n >= 0 && m >= 1 && q * m <= n < (q + 1) * m
    ensures n / m == q
  {
    DivisionFacts(n, m);
    Distribute(n / m, 1, m);
    CancelFactor(q, n / m + 1, m);
    CancelFactor(n / m, q + 1, m);
  }
}
