// Facts about products and quotients of integers.
module Arithmetic {

  lemma MulMono(a: int, b: int, c: int)
    requires a <= b && c >= 0
    ensures a * c <= b * c && c * a <= c * b
  {
  }

  lemma MulCancel(n: int, a: int, b: int)
    requires n > 0 && n * a <= n * b
    ensures a <= b
  {
    if a > b {
      MulMono(b + 1, a, n);
    }
  }

  lemma MulAtLeast(d: int, m: int)
    requires d >= 1 && m >= 0
    ensures d * m >= m && m * d >= m
  {
    MulMono(1, d, m);
  }

  lemma MulBetween(a: int, b: int, c: int)
    requires 0 < a < b && c >= 1
    ensures a <= a * c < b * c
  {
    MulMono(1, c, a);
    MulMono(a + 1, b, c);
    MulNext(a, c);
  }

  lemma MulNext(q: int, c: int)
    ensures (q + 1) * c == q * c + c
  {
  }

  lemma QuotientAndRemainder(d: int, n: int)
    requires n >= 1
    ensures d == (d / n) * n + d % n && 0 <= d % n < n
  {
  }

  lemma SmallRemainder(a: int, n: int)
    requires 0 <= a < n
    ensures a % n == a
  {
  }

  // There is only one way to split off a remainder.
  lemma RemainderUnique(a: int, m: int, q: int, r: int)
    requires m > 0 && a == q * m + r && 0 <= r < m
    ensures a % m == r
  {
    QuotientAndRemainder(a, m);
    var d := a / m - q;
    assert d * m == r - a % m;
    if d >= 1 {
      MulAtLeast(d, m);
    } else if d <= -1 {
      MulAtLeast(-d, m);
    }
  }

  // Adding a multiple of m does not change the remainder.
  lemma RemainderOfShift(a: int, m: int, q: int)
    requires m > 0
    ensures (a + q * m) % m == a % m
  {
    QuotientAndRemainder(a, m);
    assert a + q * m == (a / m + q) * m + a % m;
    RemainderUnique(a + q * m, m, a / m + q, a % m);
  }
}
