/** Division facts used by several components. */
module Arithmetic {

  /** The quotient and remainder are the only ones. */
  lemma DivModIs(x: int, n: int, q: int, r: int)
    requires n > 0 && x == n * q + r && 0 <= r < n
    ensures x / n == q && x % n == r
  {
    var e := x / n - q;
    assert n * e == r - x % n by {
      assert n * (x / n) + x % n == x;
      assert n * (x / n) == n * q + n * e;
    }
    assert e >= 1 ==> n * e >= n;
    assert e <= -1 ==> n * e <= -n;
  }

  /** A sum may be reduced early. */
  lemma ModAdd(a: int, b: int, n: int)
    requires n > 0
    ensures (a % n + b) % n == (a + b) % n
  {
    var s := a % n + b;
    assert a + b == n * (a / n + s / n) + s % n by {
      assert a == n * (a / n) + a % n && s == n * (s / n) + s % n;
      assert n * (a / n + s / n) == n * (a / n) + n * (s / n);
    }
    DivModIs(a + b, n, a / n + s / n, s % n);
  }

  /** Dividing by two numbers in turn is dividing by their product. */
  lemma DivTwice(x: nat, m: nat, n: nat)
    requires m > 0 && n > 0
    ensures m * n > 0 && x / m / n == x / (m * n)
  {
    var y, d := x / m, x % m;
    NestedQuotient(x, m, n, y, y / n, y % n, d);
  }

  lemma NestedQuotient(x: nat, m: nat, n: nat, y: nat, q: nat, r: nat, d: nat)
    requires m > 0 && n > 0 && r < n && d < m && y == n * q + r && x == m * y + d
    ensures m * n > 0 && x / (m * n) == q
  {
    Product(m, n, q, r, d);
    DivModIs(x, m * n, q, m * r + d);
  }

  lemma Product(m: nat, n: nat, q: nat, r: nat, d: nat)
    requires m > 0 && n > 0 && r < n && d < m
    ensures m * n > 0 && m * (n * q + r) + d == (m * n) * q + (m * r + d) && m * r + d < m * n
  {
    assert m * (n * q + r) == m * (n * q) + m * r && m * (n * q) == (m * n) * q;
    assert m * r <= m * (n - 1) == m * n - m;
  }
}
