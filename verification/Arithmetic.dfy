/** Division, remainders and powers of two. */
module Arithmetic {
  lemma AtLeast(m: int, d: int)
    requires m > 0 && d > 0
    ensures m * d >= m
  {}

  /** Quotient and remainder are determined by the division equation. */
  lemma QuotientRemainder(x: int, q: int, r: int, m: int)
    requires m > 0 && x == m * q + r && 0 <= r < m
    ensures x / m == q && x % m == r
  {
    var d := q - x / m;
    assert m * d == x % m - r;
    if d > 0 { AtLeast(m, d); }
    if d < 0 { AtLeast(m, -d); }
  }

  lemma Distribute(m: int, p: int, q: int)
    ensures m * (p + q) == m * p + m * q && m * (p - q) == m * p - m * q
  {}

  lemma DifferByMultiple(u: int, v: int, k: int, m: int)
    requires m > 0 && u == v + m * k
    ensures u % m == v % m
  {
    Distribute(m, k, v / m);
    QuotientRemainder(u, v / m + k, v % m, m);
  }

  lemma ReducedSum(a: int, b: int, m: int)
    requires m > 0
    ensures (a % m + b % m) % m == (a + b) % m
  {
    var p, q := a / m, b / m;
    Distribute(m, p, q);
    DifferByMultiple(a + b, a % m + b % m, p + q, m);
  }

  lemma ReducedDifference(a: int, b: int, m: int)
    requires m > 0
    ensures (a % m - b % m) % m == (a - b) % m
  {
    var p, q := a / m, b / m;
    Distribute(m, p, q);
    DifferByMultiple(a - b, a % m - b % m, p - q, m);
  }

  lemma ReducedProduct(a: int, b: int, m: int)
    requires m > 0
    ensures (a % m * (b % m)) % m == (a * b) % m
  {
    var k := ProductShift(a, b, a / m, b / m, a % m, b % m, m);
    DifferByMultiple(a * b, a % m * (b % m), k, m);
  }

  lemma ProductShift(a: int, b: int, p: int, q: int, x: int, y: int, m: int) returns (k: int)
    requires a == m * p + x && b == m * q + y
    ensures a * b == x * y + m * k
  {
    k := p * b + x * q;
    calc {
      a * b;
      m * p * b + x * b;
      m * p * b + (x * (m * q) + x * y);
      m * (p * b) + m * (x * q) + x * y;
      x * y + m * k;
    }
  }

  function Pow2(n: nat): (p: nat)
    ensures p >= 1
  {
    if n == 0 then 1 else 2 * Pow2(n - 1)
  }

  lemma {:induction false} Pow2Split(a: nat, b: nat)
    ensures Pow2(a + b) == Pow2(a) * Pow2(b)
  {
    if a == 0 {
    } else {
      Pow2Split(a - 1, b);
      assert Pow2(a) * Pow2(b) == 2 * (Pow2(a - 1) * Pow2(b));
    }
  }
}
