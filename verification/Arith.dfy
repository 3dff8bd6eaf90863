/** Facts about products and quotients of variables that the solver needs to be told. */
module Arith {

  lemma MulMono(a: int, b: int, k: int)
    requires k >= 0
    ensures a <= b ==> a * k <= b * k
  {
  }

  lemma DivUnique(x: int, k: int, q: int)
    requires k > 0 && q * k <= x < q * k + k
    ensures x / k == q && x % k == x - q * k
  {
    var d := x / k;
    assert x == d * k + x % k;
    MulMono(d + 1, q, k);
    MulMono(q + 1, d, k);
  }

  lemma DivShift(y: int, q: int, k: int)
    requires k > 0
    ensures (q * k + y) / k == q + y / k && (q * k + y) % k == y % k
  {
    var t := y / k;
    assert y == t * k + y % k;
    assert (q + t) * k == q * k + t * k;
    DivUnique(q * k + y, k, q + t);
  }

  lemma DivDiv(x: int, m: int, k: int)
    requires x >= 0 && m > 0 && k > 0
    ensures m * k > 0 && x / m / k == x / (m * k)
  {
    var a := x / m;
    var b, c := a / k, a % k;
    MulMono(1, m, k);
    assert x == a * m + x % m && a == b * k + c;
    Distribute(b, k, c, m);
    MulMono(c, k - 1, m);
    assert (k - 1) * m == m * k - m;
    MulMono(0, c, m);
    DivUnique(x, m * k, b);
  }

  lemma Distribute(b: int, k: int, c: int, m: int)
    ensures (b * k + c) * m == b * (m * k) + c * m
  {
  }

  lemma QuotientBound(x: int, k: int)
    requires x >= 0 && k > 0
    ensures 0 <= x / k <= x
  {
    DivUnique(0, k, 0);
    var q := x / k;
    assert x == q * k + x % k;
    MulMono(q, -1, k);
    MulMono(1, k, q);
  }

  lemma MulLe(a: int, b: int, c: int, d: int)
    requires 0 <= a <= c && 0 <= b <= d
    ensures 0 <= a * b <= c * d
  {
    MulMono(a, c, b);
    MulMono(b, d, c);
    MulMono(0, a, b);
  }

  lemma Regroup(q: int, d: int, r: int, c: int)
    ensures (q * d + r) * c == (q * c) * d + r * c
  {
    Distribute(q, d, r, c);
  }

  /** Multiplying by a constant after taking the whole part loses nothing if the remainder is scaled
      too, and leaves the same remainder. */
  lemma ScaleDiv(p: int, d: int, c: int)
    requires d > 0
    ensures p / d * c + p % d * c / d == p * c / d
    ensures p % d * c % d == p * c % d
  {
    var q, r := p / d, p % d;
    hide *;
    assert p == q * d + r;
    Regroup(q, d, r, c);
    assert p * c == (q * c) * d + r * c;
    DivShift(r * c, q * c, d);
  }

  lemma FractionBound(r: int, d: int, c: int)
    requires 0 <= r < d && c > 0
    ensures 0 <= r * c / d < c
  {
    var t := r * c / d;
    assert r * c == t * d + r * c % d;
    MulMono(0, r, c);
    MulMono(r, d - 1, c);
    assert (d - 1) * c == c * d - c;
    MulMono(c, t, d);
    MulMono(t, -1, d);
  }

  lemma HalfAtMost(x: int, num: int)
    requires num >= 2 && x >= 0
    ensures 0 <= x / num <= x / 2
  {
    QuotientBound(x, num);
    MulMono(2, num, x / num);
    assert x == x / num * num + x % num;
  }

  /** x / d reaches an integer n exactly when x reaches n * d. */
  lemma FloorReaches(x: int, d: int, n: int)
    requires d > 0
    ensures x / d >= n <==> x >= n * d
  {
    var q := x / d;
    assert x == q * d + x % d;
    MulMono(n, q, d);
    MulMono(q + 1, n, d);
  }
}
