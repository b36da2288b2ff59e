/** Facts about products and remainders, each small enough for the solver. */
module Arith {

  function Max(x: int, y: int): int {
    if x < y then y else x
  }

  function Min(x: int, y: int): int {
    if x < y then x else y
  }

  lemma Distribute(d: int, a: int, b: int)
    ensures d * (a - b) == d * a - d * b
  {}

  lemma Associate(a: int, b: int, c: int)
    ensures a * (b * c) == (a * b) * c
  {}

  /** Scaling a number scales its quotient part and its remainder. */
  lemma ScaledRemainder(c: nat, x: nat, m: nat)
    requires 0 < c && 0 < m
    ensures 0 < c * m && (c * x) % (c * m) == c * (x % m)
  {
    var q, r := x / m, x % m;
    assert x == m * q + r;
    ProductAtLeast(c, m);
    ProductNonNegative(c, r);
    Distribute(c, m, r);
    ProductAtLeast(c, m - r);
    Distribute(c, x, r);
    Associate(c, m, q);
    RemainderIs(c * x, c * m, q, c * r);
  }

  lemma ProductAtLeast(d: nat, k: int)
    requires 1 <= k
    ensures d <= d * k
  {
    Distribute(d, k, 1);
    ProductNonNegative(d, k - 1);
  }

  lemma ProductNonNegative(a: nat, b: nat)
    ensures 0 <= a * b
  {}

  lemma ProductNonPositive(a: nat, b: int)
    requires b <= 0
    ensures a * b <= 0
  {
    ProductNonNegative(a, -b);
    assert a * -b == -(a * b);
  }

  /** Quotient and remainder are determined by x == d * q + r. */
  lemma RemainderIs(x: int, d: int, q: int, r: int)
    requires 0 <= r < d && x == d * q + r
    ensures x % d == r && x / d == q
  {
    var q', r' := x / d, x % d;
    assert x == d * q' + r';
    if q' > q {
      Distribute(d, q', q);
      ProductAtLeast(d, q' - q);
    } else if q' < q {
      Distribute(d, q, q');
      ProductAtLeast(d, q - q');
    }
  }

  lemma SameRemainderFarApart(i: int, j: int, d: int)
    requires 0 < d && j < i && i % d == j % d
    ensures d <= i - j
  {
    var a, b := i / d, j / d;
    assert i == d * a + i % d && j == d * b + j % d;
    Distribute(d, a, b);
    if a <= b {
      Distribute(d, b, a);
      ProductNonNegative(d, b - a);
    }
    ProductAtLeast(d, a - b);
  }
}

/** Facts about products and quotients of reals. */
module Reals {

  function Power(x: real, n: nat): real {
    if n == 0 then 1.0 else x * Power(x, n - 1)
  }

  lemma CancelFactor(a: real, b: real, c: real)
    requires a != 0.0 && b != 0.0
    ensures (b / a) * (c / b) == c / a
  {}

  lemma RealMonotone(a: real, b: real, p: real)
    requires a <= b && 0.0 <= p
    ensures a * p <= b * p
  {
    assert 0.0 <= (b - a) * p;
    assert (b - a) * p == b * p - a * p;
  }

  lemma Complement(p: real, d: real)
    requires 0.0 < d
    ensures 1.0 - p / d == (d - p) / d
  {
    Quotient(d - p, 1.0 - p / d, d);
  }

  lemma Quotient(x: real, y: real, d: real)
    requires d != 0.0 && x == y * d
    ensures x / d == y
  {
    assert (x / d - y) * d == x / d * d - y * d;
  }

  lemma QuotientMonotone(a: real, b: real, d: real)
    requires a <= b && 0.0 < d
    ensures a / d <= b / d
  {
    var k := (b - a) / d;
    assert 0.0 <= k;
    Quotient(b, a / d + k, d);
  }

  lemma PowerStep(x: real, n: nat, a: real)
    requires 0 < n
    ensures Power(x, n) * a == Power(x, n - 1) * a * x == x * (Power(x, n - 1) * a)
  {}

  /** A fraction of a non-negative quantity. */
  lemma FractionOf(x: real, h: real)
    requires 0.0 <= x <= 1.0 && 0.0 <= h
    ensures 0.0 <= x * h <= h
  {
    RealMonotone(0.0, x, h);
    RealMonotone(x, 1.0, h);
  }

  lemma StrictQuotient(a: real, b: real)
    requires 0.0 < a < b
    ensures 0.0 < a / b < 1.0 && a / b * b == a
  {
    var k := a / b;
    assert k * b == a;
    if k >= 1.0 {
      RealMonotone(1.0, k, b);
    } else if k <= 0.0 {
      RealMonotone(k, 0.0, b);
    }
  }

  lemma StrictPart(k: real, d: real)
    requires 0.0 < k < 1.0 && 0.0 < d
    ensures 0.0 < k * d < d
  {
    assert 0.0 < k * d && 0.0 < (1.0 - k) * d;
    assert (1.0 - k) * d == d - k * d;
  }

  lemma FloorAtLeast(n: int, z: real)
    requires n as real <= z
    ensures n <= z.Floor
  {}
}
