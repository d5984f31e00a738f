/** Facts about products and quotients that the solver does not find by itself. */
module Arithmetic {

  lemma Fundamental(a: int, d: int)
    requires d > 0
    ensures a == d * (a / d) + a % d && 0 <= a % d < d
  {
  }

  /** Euclidean division is the only one with a remainder in range. */
  lemma DivModUnique(a: int, d: int, q: int, r: int)
    requires d > 0 && 0 <= r < d && a == d * q + r
    ensures a / d == q && a % d == r
  {
    var k := a / d - q;
    assert d * k == d * (a / d) - d * q;
    if k >= 1 {
      MulMono(d, 1, k);
    } else if k <= -1 {
      MulMono(d, k, -1);
    }
  }

  lemma MulCommutes(x: int, y: int)
    ensures x * y == y * x
  {
  }

  lemma MulMono(a: int, x: int, y: int)
    requires 0 <= a && x <= y
    ensures a * x <= a * y
  {
  }

  lemma MulAssoc(a: int, b: int, c: int)
    ensures a * b * c == a * (b * c)
  {
  }

  lemma MulAtLeast(x: int, y: int, k: int)
    requires x >= k && y >= k && k > 0
    ensures x * y >= k * k
  {
    MulMono(y, k, x);
    MulMono(k, k, y);
  }

  lemma SmallMultiple(d: int, e: int)
    requires d > 0 && 0 <= d * e < d
    ensures e == 0
  {
  }
}
