/** Facts about products and quotients that the solver does not find by itself. */
module Arith {

  lemma MulMonotone(d: nat, a: nat, b: nat)
    requires a <= b
    ensures d * a <= d * b
  {
  }

  lemma QuotientUnique(i: nat, d: nat, q: nat, r: nat)
    requires d >= 1 && i == d * q + r && r < d
    ensures i / d == q && i % d == r
  {
    var q' := i / d;
    assert d * q' <= i < d * q' + d;
    if q > q' {
      MulMonotone(d, q' + 1, q);
    } else if q < q' {
      MulMonotone(d, q + 1, q');
    }
  }

  lemma QuotientBound(x: nat, d: nat, m: nat)
    requires d >= 1 && x < d * m
    ensures x / d < m
  {
    if x / d >= m { MulMonotone(d, m, x / d); }
  }

  lemma DivByDouble(i: nat, m: nat)
    requires m >= 1
    ensures i / (2 * m) == (i / 2) / m && i % (2 * m) == 2 * ((i / 2) % m) + i % 2
  {
    var q, r := (i / 2) / m, (i / 2) % m;
    assert i / 2 == q * m + r;
    var t := 2 * r + i % 2;
    assert i == (2 * m) * q + t by {
      assert 2 * (q * m) == (2 * m) * q;
    }
    QuotientUnique(i, 2 * m, q, t);
  }

  /** Two steps of division by `n` are one division by `n * n`. */
  lemma TwoDigits(n: nat, x: nat)
    requires n >= 1
    ensures x / (n * n) == (x / n) / n
    ensures x == (x / (n * n)) * (n * n) + ((x / n) % n) * n + x % n
  {
    var y, c := x / n, x % n;
    var a, b := y / n, y % n;
    DivMod(x, n);
    DivMod(y, n);
    JoinDigits(n, a, b, c);
    DigitsBelowSquare(n, b, c);
    QuotientUnique(x, n * n, a, n * b + c);
  }

  lemma DivMod(x: nat, d: nat)
    requires d >= 1
    ensures x == d * (x / d) + x % d && x % d < d
  {
  }

  lemma JoinDigits(n: nat, a: nat, b: nat, c: nat)
    ensures n * (n * a + b) + c == (n * n) * a + (n * b + c) == a * (n * n) + b * n + c
  {
    Distribute(n, a, b);
  }

  lemma DigitsBelowSquare(n: nat, b: nat, c: nat)
    requires b < n && c < n
    ensures n * b + c < n * n
  {
    MulMonotone(n, b, n - 1);
    assert n * (n - 1) == n * n - n;
  }

  lemma Distribute(n: nat, a: nat, b: nat)
    ensures n * (n * a + b) == (n * n) * a + n * b
  {
    assert n * (n * a) == (n * n) * a;
  }
}
