/** Division facts the solver does not find alone. */
module Arith {

  lemma MulAtLeast(a: int, m: nat)
    requires 1 <= a
    ensures m <= a * m
  {
    assert (a - 1) * m >= 0;
  }

  lemma MulAtMost(a: int, k: int, b: nat)
    requires a <= k
    ensures a * b <= k * b
  {
    assert (k - a) * b >= 0;
  }

  /** Quotient and remainder are unique. */
  lemma DivModUnique(x: int, m: nat, q: int, r: nat)
    requires r < m && x == q * m + r
    ensures x / m == q && x % m == r
  {
    var e := x / m;
    assert (e - q) * m == r - x % m by { assert (e - q) * m == m * e - q * m; }
    assert (q - e) * m == -((e - q) * m);
    if e > q {
      MulAtLeast(e - q, m);
    } else if e < q {
      MulAtLeast(q - e, m);
    }
  }

  lemma SameRemainder(x: int, k: int, m: nat)
    requires 0 < m
    ensures (x + m * k) % m == x % m
  {
    assert x + m * k == (x / m + k) * m + x % m by { assert (x / m + k) * m == m * (x / m) + m * k; }
    DivModUnique(x + m * k, m, x / m + k, x % m);
  }

  /** Multiples of m may be dropped from both factors. */
  lemma ModOfProduct(x: int, u: int, y: int, v: int, m: int)
    ensures (x + m * u) * (y + m * v) == x * y + m * (x * v + u * y + m * (u * v))
  {
    var f := y + m * v;
    assert (x + m * u) * f == x * f + m * (u * f);
    assert x * f == x * y + m * (x * v);
    assert u * f == u * y + m * (u * v);
    assert m * (u * f) == m * (u * y + m * (u * v));
  }

  lemma MulSwap(a: int, b: int, c: int)
    ensures a * (b * c) == b * (a * c)
  {
    assert a * (b * c) == a * b * c;
    assert b * (a * c) == b * a * c;
  }

  lemma SplitBelow(k: nat, s: nat, d: nat, p: nat)
    requires d < k && s < p
    ensures 0 <= k * s + d < k * p
  {
    MulAtLeast(p - s, k);
    assert k * p == k * s + (p - s) * k;
  }

  /** Dividing twice is dividing by the product. */
  lemma DivTwice(x: nat, k: nat, p: nat)
    requires 0 < k && 0 < p
    ensures 0 < k * p && x / k / p == x / (k * p)
  {
    var q, s := x / k / p, (x / k) % p;
    MulAtLeast(k, p);
    MulSwap(k, q, p);
    SplitBelow(k, s, x % k, p);
    assert k * (q * p + s) == k * (q * p) + k * s;
    DivModUnique(x, k * p, q, k * s + x % k);
  }

  /** The lowest base-k digit split off before a remainder is taken. */
  lemma ModOfMultiple(x: nat, k: nat, p: nat)
    requires 0 < k && 0 < p
    ensures 0 < k * p && x % (k * p) == k * ((x / k) % p) + x % k
  {
    var q, s := x / k / p, (x / k) % p;
    MulAtLeast(k, p);
    MulSwap(k, q, p);
    SplitBelow(k, s, x % k, p);
    assert k * (q * p + s) == k * (q * p) + k * s;
    DivModUnique(x, k * p, q, k * s + x % k);
  }
}
