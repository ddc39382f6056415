/** Facts about multiplication and Euclidean division that the solver does not
    find on its own; the geometry and the Java integer model rely on them. */
module Arithmetic {

  /** Euclidean division of a natural number by a positive one is its floor. */
  lemma FloorQuotient(n: int, d: int)
    requires 0 <= n && 0 < d
    ensures 0 <= n / d <= n
    ensures (n / d) * d <= n < (n / d) * d + d
  {
    var q, m := n / d, n % d;
    assert n == d * q + m && 0 <= m < d;
    assert q * d == d * q;
    if q < 0 {
      MulPositive(d, -q);
      assert false;
    }
    MulAtLeast(q, d);
  }

  lemma MulPositive(a: int, b: int)
    requires 0 < a && 0 < b
    ensures a * b >= a
  {
    assert a * b == a * (b - 1) + a;
    MulAtLeast(b - 1, a);
  }

  lemma MulAtLeast(a: int, b: int)
    requires 0 <= a && 1 <= b
    ensures a <= a * b
  {
    assert a * b == a + a * (b - 1);
    NonNegativeProduct(a, b - 1);
  }

  lemma NonNegativeProduct(a: int, b: int)
    requires 0 <= a && 0 <= b
    ensures 0 <= a * b
  {
  }

  /** `a <= b` is kept by multiplying both sides by a positive factor. */
  lemma MulMonotone(a: int, b: int, c: int)
    requires a <= b && 0 < c
    ensures a * c <= b * c
  {
    NonNegativeProduct(b - a, c);
    assert b * c - a * c == (b - a) * c;
  }

  /** A strict inequality between multiples of a positive factor is one
      between the multiplied numbers. */
  lemma MulCancelLess(a: int, b: int, c: int)
    requires 0 < c && a * c < b * c
    ensures a < b
  {
    if a >= b {
      MulMonotone(b, a, c);
    }
  }

  /** A floor quotient `q` of `a` by `d` is at least any `t` whose multiple
      does not exceed `a`. */
  lemma BelowFloorQuotient(t: int, q: int, d: int, a: int)
    requires 0 < d && t * d <= a && a < q * d + d
    ensures t <= q
  {
    assert (q + 1) * d == q * d + d;
    MulCancelLess(t, q + 1, d);
  }

  lemma DivModUnique(i: int, d: int, q: int, m: int)
    requires 0 < d && 0 <= m < d && i == d * q + m
    ensures i / d == q && i % d == m
  {
    var q', m' := i / d, i % d;
    assert i == d * q' + m' && 0 <= m' < d;
    assert d * (q - q') == m' - m;
    if q > q' {
      MulMonotone(1, q - q', d);
      assert false;
    } else if q < q' {
      MulMonotone(1, q' - q, d);
      assert false;
    }
  }

}
