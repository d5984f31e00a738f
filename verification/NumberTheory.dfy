/** Fermat's little theorem, and when an exponent may be reduced modulo (p-1)(q-1)
    in powers modulo pq: the arithmetic behind random access in Blum Blum Shub. */
module NumberTheory {
  import opened Arithmetic
  import opened Divisibility

  function Power(x: int, e: nat): int {
    if e == 0 then 1 else x * Power(x, e - 1)
  }

  ghost predicate Prime(p: int) {
    p >= 2 && forall d :: 1 < d < p ==> !Divides(d, p)
  }

  // ---------- Powers ----------

  lemma {:induction false} PowerAdd(x: int, m: nat, n: nat)
    ensures Power(x, m + n) == Power(x, m) * Power(x, n)
  {
    if m > 0 {
      PowerAdd(x, m - 1, n);
      MulAssoc(x, Power(x, m - 1), Power(x, n));
    }
  }

  lemma {:induction false} PowerPower(x: int, m: nat, n: nat)
    ensures m * n >= 0 && Power(Power(x, m), n) == Power(x, m * n)
  {
    if n > 0 {
      PowerPower(x, m, n - 1);
      assert m * n == m + m * (n - 1);
      PowerAdd(x, m, m * (n - 1));
    }
  }

  lemma {:induction false} PowerOfOne(n: nat)
    ensures Power(1, n) == 1
  {
    if n > 0 { PowerOfOne(n - 1); }
  }

  // ---------- Congruences ----------

  lemma CongruentTransitive(x: int, y: int, z: int, m: int)
    requires Congruent(x, y, m) && Congruent(y, z, m)
    ensures Congruent(x, z, m)
  {
    DividesCombination(m, x - y, y - z, 1);
  }

  lemma CongruentSymmetric(x: int, y: int, m: int)
    requires Congruent(x, y, m)
    ensures Congruent(y, x, m)
  {
    DividesMultiple(m, x - y, -1);
  }

  lemma CongruentMul(x: int, y: int, u: int, v: int, m: int)
    requires Congruent(x, y, m) && Congruent(u, v, m)
    ensures Congruent(x * u, y * v, m)
  {
    DividesMultiple(m, x - y, u);
    DividesCombination(m, u * (x - y), u - v, y);
    assert u * (x - y) + y * (u - v) == x * u - y * v by {
      assert u * (x - y) == u * x - u * y && y * (u - v) == y * u - y * v;
    }
  }

  lemma {:induction false} CongruentPower(x: int, y: int, e: nat, m: int)
    requires Congruent(x, y, m)
    ensures Congruent(Power(x, e), Power(y, e), m)
  {
    if e == 0 {
      DividesZero(m);
    } else {
      CongruentPower(x, y, e - 1, m);
      CongruentMul(x, y, Power(x, e - 1), Power(y, e - 1), m);
    }
  }

  lemma CongruentRemainder(x: int, m: int)
    requires m > 0
    ensures Congruent(x % m, x, m)
  {
    assert Multiple(x % m - x, m, -(x / m)) by {
      assert x == m * (x / m) + x % m;
    }
  }

  /** Congruence is equality of remainders. */
  lemma CongruentByRemainders(x: int, y: int, m: int)
    requires m > 0
    ensures Congruent(x, y, m) <==> x % m == y % m
  {
    CongruentRemainder(x, m);
    CongruentRemainder(y, m);
    if Congruent(x, y, m) {
      CongruentSymmetric(y % m, y, m);
      CongruentTransitive(x % m, x, y, m);
      CongruentTransitive(x % m, y, y % m, m);
      DividesByRemainder(m, x % m - y % m);
      SmallDifference(x % m, y % m, m);
    }
    if x % m == y % m {
      CongruentSymmetric(x % m, x, m);
      CongruentTransitive(x, x % m, y, m);
    }
  }

  lemma SmallDifference(a: int, b: int, m: int)
    requires 0 <= a < m && 0 <= b < m && (a - b) % m == 0
    ensures a == b
  {
    var d := a - b;
    assert d == m * (d / m);
    SmallMultiple(m, if d < 0 then 1 + d / m else d / m);
  }

  // ---------- Primes ----------

  /** Euclid's lemma, for a factor below the prime. */
  lemma {:induction false} EuclidSmall(p: int, k: int, c: int)
    requires Prime(p) && 0 < k < p && Divides(p, k * c)
    ensures Divides(p, c)
    decreases k
  {
    if k > 1 {
      var q, r := p / k, p % k;
      DividesByRemainder(k, p);
      DividesSelf(p);
      DividesMultiple(p, p, c);
      DividesCombination(p, c * p, k * c, -q);
      RemainderTimes(p, k, q, r, c);
      EuclidSmall(p, r, c);
    }
  }

  lemma RemainderTimes(p: int, k: int, q: int, r: int, c: int)
    requires p == q * k + r
    ensures c * p + -q * (k * c) == r * c
  {
    assert c * (q * k + r) == c * (q * k) + c * r;
    assert q * (k * c) == c * (q * k) by { MulAssoc(q, k, c); }
  }

  lemma TimesRemainder(a: int, p: int, q: int, r: int, c: int)
    requires a == q * p + r
    ensures a * c + -q * (c * p) == r * c
  {
    MulCommutes(p, c);
    MulAssoc(q, p, c);
    assert (q * p + r) * c == q * p * c + r * c;
  }

  /** Euclid's lemma: a prime that divides a product divides a factor. */
  lemma Euclid(p: int, a: int, c: int)
    requires Prime(p) && Divides(p, a * c)
    ensures Divides(p, a) || Divides(p, c)
  {
    assert p >= 2;
    DividesByRemainder(p, a);
    var q, r := a / p, a % p;
    if r != 0 {
      DividesSelf(p);
      DividesMultiple(p, p, c);
      DividesCombination(p, a * c, c * p, -q);
      TimesRemainder(a, p, q, r, c);
      EuclidSmall(p, r, c);
    }
  }

  lemma {:induction false} PrimeDividesPower(p: int, x: int, e: nat)
    requires Prime(p)
    ensures Divides(p, Power(x, e)) <==> Divides(p, x) && e > 0
  {
    if e == 0 {
      DividesByRemainder(p, 1);
    } else {
      PrimeDividesPower(p, x, e - 1);
      if Divides(p, x) {
        DividesMultiple(p, x, Power(x, e - 1));
      } else if Divides(p, Power(x, e)) {
        Euclid(p, x, Power(x, e - 1));
      }
    }
  }

  // ---------- Binomial coefficients and Fermat's little theorem ----------

  function Choose(n: nat, k: nat): nat {
    if k == 0 then 1 else if n == 0 then 0 else Choose(n - 1, k - 1) + Choose(n - 1, k)
  }

  /** The terms of (a + 1)^n up to the one with a^k. */
  ghost function BinomialSum(a: int, n: nat, k: nat): int {
    Choose(n, k) * Power(a, k) + if k == 0 then 0 else BinomialSum(a, n, k - 1)
  }

  lemma {:induction false} ChooseBeyond(n: nat, k: nat)
    requires k > n
    ensures Choose(n, k) == 0
  {
    if n > 0 {
      ChooseBeyond(n - 1, k - 1);
      ChooseBeyond(n - 1, k);
    }
  }

  lemma {:induction false} ChooseAll(n: nat)
    ensures Choose(n, n) == 1
  {
    if n > 0 {
      ChooseAll(n - 1);
      ChooseBeyond(n - 1, n);
    }
  }

  /** k·C(n, k) == n·C(n-1, k-1). */
  lemma {:induction false} ChooseAbsorbs(n: nat, k: nat)
    requires n > 0 && k > 0
    ensures k * Choose(n, k) == n * Choose(n - 1, k - 1)
  {
    if n == 1 {
      if k > 1 {
        ChooseBeyond(0, k - 1);
        ChooseBeyond(0, k);
      }
    } else {
      ChooseAbsorbs(n - 1, k);
      if k > 1 {
        ChooseAbsorbs(n - 1, k - 1);
        AbsorbStep(n, k, Choose(n - 1, k), Choose(n - 2, k - 2), Choose(n - 2, k - 1));
      }
    }
  }

  lemma AbsorbStep(n: int, k: int, y: int, u: int, w: int)
    requires k * y == (n - 1) * w && (k - 1) * (u + w) == (n - 1) * u
    ensures k * (u + w + y) == n * (u + w)
  {
  }

  lemma {:induction false} BinomialRow(a: int, n: nat, k: nat)
    ensures BinomialSum(a, n + 1, k) == BinomialSum(a, n, k) + if k == 0 then 0 else a * BinomialSum(a, n, k - 1)
  {
    if k > 0 {
      BinomialRow(a, n, k - 1);
      RowStep(a, Power(a, k - 1), Choose(n, k - 1), Choose(n, k), if k == 1 then 0 else BinomialSum(a, n, k - 2));
    }
  }

  lemma RowStep(a: int, p: int, c1: int, c2: int, B: int)
    ensures (c1 + c2) * (a * p) + a * B == c2 * (a * p) + a * (c1 * p + B)
  {
  }

  /** The binomial theorem. */
  lemma {:induction false} Binomial(a: int, n: nat)
    ensures Power(a + 1, n) == BinomialSum(a, n, n)
  {
    if n > 0 {
      Binomial(a, n - 1);
      BinomialRow(a, n - 1, n);
      ChooseBeyond(n - 1, n);
      assert BinomialSum(a, n - 1, n) == BinomialSum(a, n - 1, n - 1);
      assert (a + 1) * Power(a + 1, n - 1) == a * Power(a + 1, n - 1) + Power(a + 1, n - 1);
    }
  }

  lemma FirstTerm(a: int, n: nat)
    ensures BinomialSum(a, n, 0) == 1
  {
  }

  /** Modulo p, the inner terms of (a + 1)^p vanish. */
  lemma {:induction false} InnerTermsVanish(a: int, p: int, k: nat)
    requires Prime(p) && k < p
    ensures Congruent(BinomialSum(a, p, k), 1, p)
  {
    hide Choose, Power, Prime, Divides;
    if k == 0 {
      FirstTerm(a, p);
      DividesZero(p);
    } else {
      InnerTermsVanish(a, p, k - 1);
      ChooseAbsorbs(p, k);
      DividesSelf(p);
      DividesMultiple(p, p, Choose(p - 1, k - 1));
      MulCommutes(p, Choose(p - 1, k - 1));
      EuclidSmall(p, k, Choose(p, k));
      DividesCombination(p, BinomialSum(a, p, k - 1) - 1, Choose(p, k), Power(a, k));
      MulCommutes(Choose(p, k), Power(a, k));
    }
  }

  lemma {:induction false} FermatAll(a: nat, p: int)
    requires Prime(p)
    ensures Congruent(Power(a, p), a, p)
  {
    if a == 0 {
      DividesZero(p);
    } else {
      FermatAll(a - 1, p);
      BinomialModuloPrime(a - 1, p);
      CongruentSum(Power(a, p), Power(a - 1, p) + 1, Power(a - 1, p), a - 1, p);
    }
  }

  /** (a + 1)^p and a^p + 1 agree modulo p. */
  lemma BinomialModuloPrime(a: int, p: int)
    requires Prime(p)
    ensures Congruent(Power(a + 1, p), Power(a, p) + 1, p)
  {
    hide Choose, Power;
    Binomial(a, p);
    InnerTermsVanish(a, p, p - 1);
    ChooseAll(p);
    assert BinomialSum(a, p, p) == Power(a, p) + BinomialSum(a, p, p - 1);
    assert Power(a + 1, p) - (Power(a, p) + 1) == BinomialSum(a, p, p - 1) - 1;
  }

  lemma CongruentSum(x: int, y: int, u: int, v: int, m: int)
    requires Congruent(x, y, m) && Congruent(u, v, m)
    ensures Congruent(x, y - u + v, m)
  {
    DividesCombination(m, x - y, u - v, 1);
  }

  /** Fermat's little theorem. */
  lemma Fermat(x: nat, p: int)
    requires Prime(p) && !Divides(p, x)
    ensures Congruent(Power(x, p - 1), 1, p)
  {
    FermatAll(x, p);
    assert Power(x, p) - x == x * (Power(x, p - 1) - 1);
    Euclid(p, x, Power(x, p - 1) - 1);
  }

  // ---------- Exponents modulo (p - 1)(q - 1) ----------

  /** Reducing an exponent modulo a multiple of p - 1 changes nothing modulo p, except
      that it may turn a multiple of p into a one. */
  lemma ReduceExponent(x: nat, p: int, k: nat, t: nat, e: nat)
    requires Prime(p)
    ensures (p - 1) * k * t >= 0
    ensures Congruent(Power(x, (p - 1) * k * t + e), Power(x, e), p) <==> !Divides(p, x) || e > 0 || (p - 1) * k * t == 0
  {
    assert (p - 1) * k >= 0;
    var f := (p - 1) * k * t;
    assert f >= 0;
    PowerAdd(x, f, e);
    if !Divides(p, x) {
      Fermat(x, p);
      MulAssoc(p - 1, k, t);
      PowerPower(x, p - 1, k * t);
      CongruentPower(Power(x, p - 1), 1, k * t, p);
      PowerOfOne(k * t);
      DividesZero(p);
      CongruentMul(Power(x, f), 1, Power(x, e), Power(x, e), p);
    } else if e > 0 {
      PrimeDividesPower(p, x, f + e);
      PrimeDividesPower(p, x, e);
      DividesCombination(p, Power(x, f + e), Power(x, e), -1);
    } else if f > 0 {
      PrimeDividesPower(p, x, f);
      if Congruent(Power(x, f), 1, p) {
        DividesCombination(p, Power(x, f), Power(x, f) - 1, -1);
        DividesByRemainder(p, 1);
      }
    } else {
      DividesZero(p);
    }
  }

  lemma DistinctPrimes(p: int, q: int)
    requires Prime(p) && Prime(q) && p != q
    ensures !Divides(q, p)
  {
    if Divides(q, p) {
      var k :| Multiple(p, q, k);
      FactorAtMost(p, q, k);
    }
  }

  lemma FactorAtMost(p: int, q: int, k: int)
    requires p > 0 && q > 0 && p == q * k
    ensures q <= p
  {
  }

  /** Congruence modulo pq is congruence modulo both primes. */
  lemma CongruentModuloProduct(x: int, y: int, p: int, q: int)
    requires Prime(p) && Prime(q) && p != q
    ensures Congruent(x, y, p * q) <==> Congruent(x, y, p) && Congruent(x, y, q)
  {
    var d := x - y;
    if Congruent(x, y, p * q) {
      var k :| Multiple(d, p * q, k);
      MulAssoc(p, q, k);
      assert p * q * k == q * (p * k);
      assert Multiple(d, p, q * k) && Multiple(d, q, p * k);
    }
    if Congruent(x, y, p) && Congruent(x, y, q) {
      var k :| Multiple(d, p, k);
      DistinctPrimes(p, q);
      Euclid(q, p, k);
      var j :| Multiple(k, q, j);
      MulAssoc(p, q, j);
      assert Multiple(d, p * q, j);
    }
  }

  /** When a power modulo pq survives reducing its exponent modulo (p-1)(q-1): exactly when
      the reduced exponent is not zero, or the base shares no factor with pq. */
  lemma ReducedExponent(x: nat, p: int, q: int, n: nat)
    requires Prime(p) && Prime(q) && p != q && n > 0
    ensures (p - 1) * (q - 1) > 0
    ensures var e := n % ((p - 1) * (q - 1));
      Power(x, n) % (p * q) == Power(x, e) % (p * q) <==> e != 0 || (!Divides(p, x) && !Divides(q, x))
  {
    assert (p - 1) * (q - 1) > 0 && p * q > 0;
    var phi := (p - 1) * (q - 1);
    var t, e := n / phi, n % phi;
    Quotient(n, phi);
    ReduceExponent(x, p, q - 1, t, e);
    ReduceExponent(x, q, p - 1, t, e);
    assert (q - 1) * (p - 1) == phi;
    CongruentModuloProduct(Power(x, n), Power(x, e), p, q);
    CongruentByRemainders(Power(x, n), Power(x, e), p * q);
  }

  lemma Quotient(n: nat, phi: int)
    requires n > 0 && phi > 0
    ensures n / phi >= 0 && n == phi * (n / phi) + n % phi
    ensures n % phi == 0 ==> phi * (n / phi) > 0
  {
  }
}
