/** Division facts the solver does not find by itself. */
module Arith {
  lemma MulAtLeast(a: int, m: nat)
    requires a >= 1
    ensures a * m >= m
  {
  }

  lemma MulMonotone(a: int, b: int, m: nat)
    requires a <= b
    ensures a * m <= b * m
  {
  }

  lemma DivNat(a: nat, m: nat)
    requires m > 0
    ensures a / m >= 0
  {
    if a / m < 0 { MulMonotone(a / m, -1, m); assert false; }
  }

  lemma DivUnique(x: nat, m: nat, q: int, r: int)
    requires m > 0 && x == q * m + r && 0 <= r < m
    ensures x % m == r && x / m == q
  {
    var q2, r2 := x / m, x % m;
    assert x == q2 * m + r2;
    assert (q - q2) * m == r2 - r;
    if q > q2 { MulAtLeast(q - q2, m); assert false; }
    if q < q2 { MulAtLeast(q2 - q, m); assert false; }
  }

  lemma RoundUp(p: nat, m: nat)
    requires m > 0 && p % m != 0
    ensures (p + (m - p % m)) % m == 0
  {
    assert p == (p / m) * m + p % m;
    assert p + (m - p % m) == (p / m + 1) * m;
    DivUnique(p + (m - p % m), m, p / m + 1, 0);
  }

  lemma Divides(p: nat, m: nat, n: nat)
    requires m > 0 && n > 0 && n % m == 0 && p % n == 0
    ensures p % m == 0
  {
    var a, c := p / n, n / m;
    assert p == a * n && n == c * m;
    assert p == a * (c * m) == (a * c) * m;
    DivUnique(p, m, a * c, 0);
  }

  lemma DifferenceMultiple(x: nat, y: nat, m: nat)
    requires m > 0 && x % m == 0 && y % m == 0 && y <= x
    ensures (x - y) % m == 0
  {
    var a, b := x / m, y / m;
    assert x == a * m && y == b * m;
    assert x - y == (a - b) * m;
    DivUnique(x - y, m, a - b, 0);
  }

  lemma RemainderMultiple(p: nat, m: nat, n: nat)
    requires m > 0 && n > 0 && n % m == 0 && p % m == 0
    ensures (p % n) % m == 0 && (n - p % n) % m == 0
  {
    assert p == p / n * n + p % n;
    RemainderOf(p, p / n, p % n, m, n);
  }

  lemma RemainderOf(p: nat, q: nat, r: nat, m: nat, n: nat)
    requires m > 0 && n > 0 && n % m == 0 && p % m == 0 && p == q * n + r && r < n
    ensures r % m == 0 && (n - r) % m == 0
  {
    QuotientMultiple(q, m, n);
    var t := q * n;
    DifferenceMultiple(p, t, m);
    DifferenceMultiple(n, r, m);
  }

  lemma QuotientMultiple(q: nat, m: nat, n: nat)
    requires m > 0 && n > 0 && n % m == 0
    ensures q * n >= 0 && (q * n) % m == 0
  {
    assert q * n >= 0;
    DivUnique(q * n, n, q, 0);
    Divides(q * n, m, n);
  }
}
