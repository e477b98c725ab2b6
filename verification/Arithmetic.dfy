/** Absolute values, least and greatest, multiples, quotients and remainders, and fractions. */
module Arithmetic {

  function Abs(a: int): nat {
    if a < 0 then -a else a
  }

  function Min(a: int, b: int): int {
    if a < b then a else b
  }

  function Max(a: int, b: int): int {
    if a < b then b else a
  }

  lemma {:induction false} Multiples(b: int, m: int, n: int)
    requires b > 0
    ensures m < n ==> b * m + b <= b * n
    decreases n - m
  {
    if m < n {
      Multiples(b, m, n - 1);
      assert b * n == b * (n - 1) + b;
    }
  }

  lemma QuotientIs(a: int, b: int, c: int)
    requires b > 0 && b * c <= a < b * c + b
    ensures a / b == c && a % b == a - b * c
  {
    assert a == b * (a / b) + a % b;
    Multiples(b, a / b, c);
    Multiples(b, c, a / b);
  }

  lemma QuotientBounds(a: int, b: int)
    requires b > 0
    ensures b * (a / b) <= a < b * (a / b) + b
  {
  }

  // a / b reaches q exactly when a reaches b times q.
  lemma QuotientReaches(a: int, b: int, q: int)
    requires b > 0
    ensures q <= a / b <==> b * q <= a
  {
    QuotientBounds(a, b);
    Multiples(b, q, a / b);
    Multiples(b, a / b, q);
  }

  // ----- real numbers

  // Without its fraction, as a conversion to an integer gives it.
  function Truncated(r: real): int {
    if r >= 0.0 then r.Floor else -((-r).Floor)
  }

  lemma TruncatedBetween(r: real, lo: int, hi: int)
    requires lo as real <= r <= hi as real
    ensures lo <= Truncated(r) <= hi
  {
  }

  lemma Scaled(k: int, h: int, w: int)
    requires 0 <= k <= h
    ensures (w >= 0 ==> 0 <= k * w <= w * h) && (w < 0 ==> w * h <= k * w <= 0)
  {
    if w > 0 {
      Multiples(w, 0, k);
      Multiples(w, k, h);
    } else if w < 0 {
      Multiples(-w, 0, k);
      Multiples(-w, k, h);
      assert -w * k == -(k * w) && -w * h == -(w * h);
    }
  }

  lemma Ratio(q: real, h: int, n: int, lo: int, hi: int)
    requires h > 0 && q * h as real == n as real && lo * h <= n <= hi * h
    ensures lo as real <= q <= hi as real
  {
    assert (lo * h) as real == lo as real * h as real && (hi * h) as real == hi as real * h as real;
    Products(q, lo as real, h as real);
    Products(hi as real, q, h as real);
  }

  lemma Products(a: real, b: real, h: real)
    requires h > 0.0
    ensures a < b ==> a * h < b * h
  {
    if a < b {
      assert (b - a) * h > 0.0;
    }
  }

  lemma BetweenTimes(a: int, q: real, b: int, n: int, h: int)
    requires h > 0 && q * h as real == n as real && a * h <= n < b * h
    ensures a as real <= q < b as real
  {
    assert (a * h) as real == a as real * h as real && (b * h) as real == b as real * h as real;
    Products(q, a as real, h as real);
    NotLess(b as real, q, h as real);
  }

  lemma NotLess(a: real, b: real, h: real)
    requires h > 0.0 && b * h < a * h
    ensures b < a
  {
    Products(a, b, h);
  }

  lemma TimesBetween(a: int, q: real, b: int, n: int, h: int)
    requires h > 0 && q * h as real == n as real && a as real < q < b as real
    ensures a * h < n < b * h
  {
    assert (a * h) as real == a as real * h as real && (b * h) as real == b as real * h as real;
    Products(a as real, q, h as real);
    Products(q, b as real, h as real);
  }

  // Without its fraction a number is not greater, but nearer to 0.
  lemma TruncatedTimes(q: real, n: int, d: int)
    requires d > 0 && q * d as real == n as real
    ensures n >= 0 ==> Truncated(q) >= 0 && d * Truncated(q) <= n < d * Truncated(q) + d
    ensures n < 0 ==> Truncated(q) <= 0 && d * Truncated(q) - d < n <= d * Truncated(q)
  {
    SignOf(q, n, d);
    if n >= 0 {
      Floored(q, n, d);
    } else {
      Floored(-q, -n, d);
      Negated(d, (-q).Floor);
    }
  }

  lemma Negated(d: int, f: int)
    ensures d * -f == -(d * f)
  {
  }

  lemma SignOf(q: real, n: int, d: int)
    requires d > 0 && q * d as real == n as real
    ensures q >= 0.0 <==> n >= 0
    ensures -q * d as real == (-n) as real
  {
    Products(q, 0.0, d as real);
    Products(0.0, q, d as real);
  }

  lemma Floored(q: real, n: int, d: int)
    requires d > 0 && q * d as real == n as real
    ensures d * q.Floor <= n < d * q.Floor + d
  {
    var f := q.Floor;
    assert f as real <= q < (f + 1) as real;
    FloorTimes(f, q, n, d);
  }

  lemma FloorTimes(f: int, q: real, n: int, d: int)
    requires d > 0 && q * d as real == n as real && f as real <= q < (f + 1) as real
    ensures d * f <= n < d * f + d
  {
    assert (f * d) as real == f as real * d as real && ((f + 1) * d) as real == (f + 1) as real * d as real;
    assert d * f == f * d && d * f + d == (f + 1) * d;
    NotLarger(f as real, q, d as real);
    Products(q, (f + 1) as real, d as real);
  }

  lemma NotLarger(a: real, b: real, h: real)
    requires h > 0.0 && a <= b
    ensures a * h <= b * h
  {
    if a < b {
      Products(a, b, h);
    }
  }
}
