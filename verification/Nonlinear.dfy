/** Order and division facts about products, kept apart so that other proofs
    never reason about nonlinear terms directly. */
module Nonlinear {
  lemma {:induction false} MulNonneg(x: int, y: int)
    requires x >= 0 && y >= 0
    ensures x * y >= 0
  {
    if x > 0 {
      MulNonneg(x - 1, y);
      assert x * y == (x - 1) * y + y;
    }
  }

  lemma MulMono(x: int, y: int, b: int)
    requires x <= y && b >= 0
    ensures x * b <= y * b
  {
    MulNonneg(y - x, b);
    assert (y - x) * b == y * b - x * b;
  }

  lemma MulLess(x: int, y: int, b: int)
    requires x < y && b >= 1
    ensures x * b < y * b
  {
    MulNonneg(y - x - 1, b);
    assert (y - x - 1) * b == y * b - x * b - b;
  }

  /** The quotient is the only integer that leaves a remainder in [0, d). */
  lemma DivUnique(n: int, d: int, q: int)
    requires d > 0 && 0 <= n - q * d < d
    ensures n / d == q && n % d == n - q * d
  {
    var p := n / d;
    assert n == p * d + n % d;
    assert (p + 1) * d == p * d + d && (q + 1) * d == q * d + d;
    if p < q { MulMono(p + 1, q, d); }
    if p > q { MulMono(q + 1, p, d); }
  }

  /** Dividing twice is dividing by the product. */
  lemma DivDiv(n: int, a: int, b: int)
    requires n >= 0 && a > 0 && b > 0
    ensures a * b > 0 && n / a / b == n / (a * b)
  {
    MulLess(0, a, b);
    var p := n / a;
    var q := p / b;
    var r, t := n % a, p % b;
    assert n == p * a + r && p == q * b + t;
    assert n == q * (a * b) + t * a + r by { assert (q * b + t) * a == q * (a * b) + t * a; }
    MulMono(t + 1, b, a);
    MulNonneg(t, a);
    assert (t + 1) * a == t * a + a && b * a == a * b;
    DivUnique(n, a * b, q);
  }

  lemma DivBounds(n: int, d: int)
    requires d > 0
    ensures (n / d) * d <= n < (n / d + 1) * d
  {
    assert n == (n / d) * d + n % d;
    assert (n / d + 1) * d == (n / d) * d + d;
  }

  lemma DivLess(n: int, d: int, m: int)
    requires d > 0 && n < m * d
    ensures n / d < m
  {
    DivBounds(n, d);
    if n / d >= m { MulMono(m, n / d, d); }
  }

  lemma DivAtLeast(n: int, d: int, m: int)
    requires d > 0 && m * d <= n
    ensures m <= n / d
  {
    DivBounds(n, d);
    if n / d + 1 <= m { MulMono(n / d + 1, m, d); }
  }
}
