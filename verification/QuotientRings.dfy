/** `AbstractEuclideanDomain::Gcd` and `QuotientRing::MultiplicativeInverse` of
    algebra.cpp over the integers: Euclid's algorithm in three rotating slots.
    `Integer::Divide` leaves a non-negative remainder, as Dafny's `/` and `%` do. */
module QuotientRings {
  import opened Arithmetic
  import opened Divisibility

  ghost predicate CommonDivisor(d: int, a: int, b: int) {
    Divides(d, a) && Divides(d, b)
  }

  ghost predicate Coprime(a: int, b: int) {
    forall d :: d > 1 ==> !CommonDivisor(d, a, b)
  }

  ghost predicate IsGcd(d: int, a: int, b: int) {
    CommonDivisor(d, a, b) && forall c :: CommonDivisor(c, a, b) ==> Divides(c, d)
  }

  /** What `MultiplicativeInverse` is for: an inverse of every unit, zero for the rest. */
  ghost predicate InverseOrZero(a: int, m: int, r: int) {
    if Coprime(a, m) then Congruent(a * r, 1, m) else r == 0
  }

  /** A division step keeps the common divisors. */
  lemma SameDivisors(x: int, y: int, q: int, r: int, d: int)
    requires x == q * y + r
    ensures CommonDivisor(d, x, y) <==> CommonDivisor(d, y, r)
  {
    if CommonDivisor(d, x, y) { DividesCombination(d, x, y, -q); }
    if CommonDivisor(d, y, r) { DividesCombination(d, r, y, q); }
  }

  /** A division step keeps multiples of a multiples of a, modulo m. */
  lemma SameCoefficient(m: int, a: int, g0: int, v0: int, g1: int, v1: int, q: int, r: int)
    requires Congruent(g0, v0 * a, m) && Congruent(g1, v1 * a, m) && g0 == q * g1 + r
    ensures Congruent(r, (v0 - v1 * q) * a, m)
  {
    DividesCombination(m, g0 - v0 * a, g1 - v1 * a, -q);
    assert g0 - v0 * a + -q * (g1 - v1 * a) == r - (v0 - v1 * q) * a by {
      Expand(q, g1, v1, a, v0);
    }
  }

  lemma Expand(q: int, g1: int, v1: int, a: int, v0: int)
    ensures -q * (g1 - v1 * a) == -(q * g1) + q * v1 * a
    ensures (v0 - v1 * q) * a == v0 * a - q * v1 * a
  {
  }

  /** With zero in the last slot, the divisors of the other are the common divisors. */
  lemma LastRemainder(g: int, a: int, b: int)
    requires forall d :: CommonDivisor(d, a, b) <==> CommonDivisor(d, g, 0)
    ensures IsGcd(g, a, b)
  {
    forall d ensures CommonDivisor(d, a, b) <==> Divides(d, g) { DividesZero(d); }
    DividesSelf(g);
  }

  /** `Integer::IsUnit`. */
  predicate IsUnit(a: int) {
    a == 1 || a == -1
  }

  lemma UnitGcd(g: int, a: int, b: int)
    requires IsGcd(g, a, b) && b != 0
    ensures IsUnit(g) <==> Coprime(a, b)
  {
    if IsUnit(g) {
      forall d | d > 1 ensures !CommonDivisor(d, a, b) {
        if CommonDivisor(d, a, b) {
          DividesByRemainder(d, g);
        }
      }
    } else {
      NonzeroDivisor(g, b);
      var d := if g > 0 then g else -g;
      NegatedDivisor(g, a);
      NegatedDivisor(g, b);
      assert d > 1 && CommonDivisor(d, a, b);
    }
  }

  /** The signs in the loop: it starts on the arguments, and every remainder is positive until the
      last. */
  ghost predicate Signs(a: int, b: int, g0: int, g1: int) {
    || (g0 == b && g1 == a)
    || (a != 0 && g0 == a && g1 == b % a)
    || (a != 0 && g0 > 0 && g1 >= 0 && !Divides(a, b))
  }

  lemma SignsNext(a: int, b: int, g0: int, g1: int)
    requires Signs(a, b, g0, g1) && g1 != 0
    ensures Signs(a, b, g1, g0 % g1)
  {
    hide Divides;
    if a != 0 {
      DividesByRemainder(a, b);
    }
  }

  lemma SignsEnd(a: int, b: int, g: int)
    requires Signs(a, b, g, 0)
    ensures g < 0 <==> (a == 0 && b < 0) || (a < 0 && Divides(a, b))
  {
    hide Divides;
    if a != 0 {
      DividesByRemainder(a, b);
    }
  }

  /** A greatest common divisor is one or minus one exactly for coprime arguments. */
  lemma AnyUnitGcd(g: int, a: int, b: int)
    requires IsGcd(g, a, b)
    ensures IsUnit(g) <==> Coprime(a, b)
  {
    if b != 0 {
      UnitGcd(g, a, b);
    } else if a != 0 {
      hide Divides;
      forall d ensures CommonDivisor(d, a, b) <==> CommonDivisor(d, b, a) {}
      UnitGcd(g, b, a);
    } else {
      DividesZero(2);
      DividesByRemainder(2, g);
      assert CommonDivisor(2, a, b) && Divides(2, g);
    }
  }

  /** The sign of the result is that of the last value in the loop that was not a remainder. */
  method Gcd(a: int, b: int) returns (result: int)
    ensures IsGcd(result, a, b)
    ensures result < 0 <==> (a == 0 && b < 0) || (a < 0 && Divides(a, b))
    ensures a >= 0 && b >= 0 ==> result >= 0 && (result == 1 <==> Coprime(a, b))
  {
    hide Divides, Signs, Coprime;
    var g := new int[3] [b, a, 0];
    var i0, i1, i2 := 0, 1, 2;
    SignsStart(a, b);
    while g[i1] != 0
      invariant g.Length == 3 && {i0, i1, i2} == {0, 1, 2}
      invariant forall d :: CommonDivisor(d, a, b) <==> CommonDivisor(d, g[i0], g[i1])
      invariant Signs(a, b, g[i0], g[i1])
      decreases if g[i1] < 0 then -g[i1] else g[i1]
    {
      SignsNext(a, b, g[i0], g[i1]);
      g[i2] := g[i0] % g[i1];
      forall d ensures CommonDivisor(d, g[i0], g[i1]) <==> CommonDivisor(d, g[i1], g[i2]) {
        SameDivisors(g[i0], g[i1], g[i0] / g[i1], g[i2], d);
      }
      i0, i1, i2 := i1, i2, i0;
    }
    LastRemainder(g[i0], a, b);
    SignsEnd(a, b, g[i0]);
    AnyUnitGcd(g[i0], a, b);
    result := g[i0];
  }

  lemma SignsStart(a: int, b: int)
    ensures Signs(a, b, b, a)
  {
  }

  /** `RelativelyPrime` (nbtheory.h). */
  method RelativelyPrime(a: int, b: int) returns (yes: bool)
    ensures a >= 0 && b >= 0 ==> (yes <==> Coprime(a, b))
  {
    hide Coprime, IsGcd;
    var g := Gcd(a, b);
    return g == 1;
  }

  class QuotientRing {
    const modulus: int

    constructor (modulus: int)
      requires modulus > 0
      ensures this.modulus == modulus
    {
      this.modulus := modulus;
    }

    /** Compares modulo the modulus. */
    predicate Equal(a: int, b: int)
      requires modulus > 0
    {
      (a - b) % modulus == 0
    }

    /** Exactly when the result is what it should be. The loop stops as soon as a slot is
        congruent to zero, so an argument that is not reduced can stop it one step after the
        start: an invertible one is then reported as having no inverse. */
    method MultiplicativeInverse(a: int) returns (r: int)
      requires modulus > 0
      ensures InverseOrZero(a, modulus, r) <==> -modulus < a < modulus || modulus == 1 || !Coprime(a, modulus)
      ensures 0 <= a < modulus ==> -modulus <= 2 * r <= modulus
    {
      hide EuclidState, InverseOrZero, Coprime, Balanced;
      var m := modulus;
      var g := new int[3] [m, a, 0];
      var v := new int[3] [0, 1, 0];
      var i0, i1, i2 := 0, 1, 2;
      Start(a, m);
      if 0 <= a < m {
        BalancedStart(m, a);
      }
      while !Equal(g[i1], 0)
        invariant g.Length == 3 && v.Length == 3 && {i0, i1, i2} == {0, 1, 2}
        invariant EuclidState(a, m, g[i0], v[i0], g[i1], v[i1])
        invariant 0 <= a < m ==> Balanced(m, g[i0], v[i0], g[i1], v[i1])
        decreases if g[i1] < 0 then -g[i1] else g[i1]
      {
        RemainderOfMultiple(m, 0);
        Step(a, m, g[i0], v[i0], g[i1], v[i1]);
        if 0 <= a < m {
          BalancedStep(m, g[i0], v[i0], g[i1], v[i1]);
        }
        var y := g[i0] / g[i1];
        g[i2] := g[i0] % g[i1];
        v[i2] := v[i0] - v[i1] * y;
        i0, i1, i2 := i1, i2, i0;
      }
      Finish(a, m, g[i0], v[i0], g[i1], v[i1]);
      if 0 <= a < m {
        BalancedEnd(m, g[i0], v[i0], g[i1], v[i1]);
      }
      r := if IsUnit(g[i0]) then v[i0] / g[i0] else 0;
    }
  }

  function Magnitude(x: int): nat {
    if x < 0 then -x else x
  }

  /** The coefficients have opposite signs and, crosswise, add up to m. */
  ghost predicate Balanced(m: int, g0: int, v0: int, g1: int, v1: int) {
    && g0 > g1 >= 0 && g0 <= m && ((v0 <= 0 <= v1) || (v1 <= 0 <= v0))
    && g0 * Magnitude(v1) + g1 * Magnitude(v0) == m
    && (g1 == 0 ==> 2 * Magnitude(v0) <= Magnitude(v1))
  }

  lemma BalancedStart(m: int, a: int)
    requires 0 <= a < m
    ensures Balanced(m, m, 0, a, 1)
  {
  }

  lemma BalancedStep(m: int, g0: int, v0: int, g1: int, v1: int)
    requires Balanced(m, g0, v0, g1, v1) && g1 != 0
    ensures Balanced(m, g1, v1, g0 % g1, v0 - v1 * (g0 / g1))
  {
    var q, r := g0 / g1, g0 % g1;
    QuotientAtLeast(g0, g1, q, r);
    NextMagnitude(v0, v1, q);
    Crosswise(g0, g1, q, r, Magnitude(v0), Magnitude(v1), m);
    if r == 0 {
      MulMono(Magnitude(v1), 2, q);
    }
  }

  lemma QuotientAtLeast(g0: int, g1: int, q: int, r: int)
    requires g0 > g1 > 0 && q == g0 / g1 && r == g0 % g1
    ensures g0 == q * g1 + r && 0 <= r < g1 && q >= 1 && (r == 0 ==> q >= 2)
  {
    Fundamental(g0, g1);
    if q <= 0 { MulMono(g1, q, 0); }
  }

  /** Coefficients of opposite signs add up. */
  lemma NextMagnitude(v0: int, v1: int, q: int)
    requires q >= 1 && ((v0 <= 0 <= v1) || (v1 <= 0 <= v0))
    ensures Magnitude(v0 - v1 * q) == Magnitude(v0) + Magnitude(v1) * q
    ensures v1 >= 0 ==> v0 <= 0 ==> v0 - v1 * q <= 0
    ensures v1 <= 0 ==> v0 >= 0 ==> v0 - v1 * q >= 0
  {
    if v1 >= 0 { MulMono(v1, 0, q); } else { MulMono(-v1, 0, q); }
  }

  lemma Crosswise(g0: int, g1: int, q: int, r: int, x: int, y: int, m: int)
    requires g0 == q * g1 + r && g0 * y + g1 * x == m
    ensures g1 * (x + y * q) + r * y == m
  {
    assert (q * g1 + r) * y == q * g1 * y + r * y;
    assert g1 * (x + y * q) == g1 * x + q * g1 * y;
  }

  /** At the end the coefficient is at most half of the modulus. */
  lemma BalancedEnd(m: int, g0: int, v0: int, g1: int, v1: int)
    requires Balanced(m, g0, v0, g1, v1) && m > 0 && g1 % m == 0
    ensures var r := if IsUnit(g0) then v0 / g0 else 0; -m <= 2 * r <= m
  {
    SmallCongruentToZero(g1, m);
  }

  /** That leaves one number, except for the two halves of an even modulus. */
  lemma OneLeastInverse(a: int, m: int, r: int, s: int)
    requires m > 0 && Congruent(a * r, 1, m) && Congruent(a * s, 1, m)
    requires -m <= 2 * r <= m && -m <= 2 * s <= m
    ensures r == s || (2 * r == m && 2 * s == -m) || (2 * r == -m && 2 * s == m)
  {
    // r = r (a s) = s (a r) = s modulo m
    DividesMultiple(m, a * r - 1, s);
    DividesMultiple(m, a * s - 1, r);
    DividesCombination(m, r * (a * s - 1), s * (a * r - 1), -1);
    assert r * (a * s - 1) + -1 * (s * (a * r - 1)) == s - r by {
      assert r * (a * s) == s * (a * r);
    }
    var k :| Multiple(s - r, m, k);
    if k >= 2 { MulMono(m, 2, k); }
    if k <= -2 { MulMono(m, k, -2); }
  }

  /** The result need not be one of the remainders 0 to m - 1: the inverse of 3 modulo 7 comes
      out as -2, not as 5. */
  method InverseOfThree() returns (r: int)
    ensures r == -2
  {
    hide Coprime, Divides;
    var ring := new QuotientRing(7);
    r := ring.MultiplicativeInverse(3);
    CoprimeThree();
    assert Congruent(3 * r, 1, 7);
    DividesByRemainder(7, 3 * r - 1);
  }

  lemma CoprimeThree()
    ensures Coprime(3, 7)
  {
    forall d | d > 1 ensures !CommonDivisor(d, 3, 7) {
      if CommonDivisor(d, 3, 7) {
        DividesCombination(d, 7, 3, -2);
        DividesByRemainder(d, 1);
      }
    }
  }

  /** The live slots are multiples of a modulo m by their coefficients, and have the common
      divisors of a and m. A reduced argument keeps the last slot reduced; any other one
      never gets past its first division. */
  ghost predicate EuclidState(a: int, m: int, g0: int, v0: int, g1: int, v1: int)
    requires m > 0
  {
    && Congruent(g0, v0 * a, m) && Congruent(g1, v1 * a, m)
    && (forall d :: CommonDivisor(d, a, m) <==> CommonDivisor(d, g0, g1))
    && if -m < a < m then -m < g1 < m
       else (g0 == m && g1 == a && v0 == 0) || (g0 == a && g1 == m && a % m != 0)
  }

  lemma Step(a: int, m: int, g0: int, v0: int, g1: int, v1: int)
    requires m > 0 && EuclidState(a, m, g0, v0, g1, v1) && g1 % m != 0 && g1 != 0
    ensures EuclidState(a, m, g1, v1, g0 % g1, v0 - v1 * (g0 / g1))
  {
    hide Congruent, CommonDivisor;
    var q, r := g0 / g1, g0 % g1;
    RemainderRange(g0, g1);
    SameCoefficient(m, a, g0, v0, g1, v1, q, r);
    forall d ensures CommonDivisor(d, g0, g1) <==> CommonDivisor(d, g1, r) { SameDivisors(g0, g1, q, r, d); }
    RemainderOfMultiple(m, 1);
    if !(-m < a < m) {
      LargeDivisor(m, a);
    }
  }

  lemma RemainderRange(x: int, y: int)
    requires y != 0
    ensures x == x / y * y + x % y
    ensures 0 <= x % y < if y < 0 then -y else y
  {
  }

  lemma LargeDivisor(m: int, a: int)
    requires m > 0 && !(-m < a < m) && a % m != 0
    ensures m % a == m
  {
    RemainderOfMultiple(m, 1);
    RemainderOfMultiple(m, -1);
    assert a != m && a != -m;
    var q := m / a;
    assert 0 <= m % a == m - a * q;
    if a > 0 { SmallQuotient(m, a, q); } else { SmallQuotient(m, -a, -q); }
  }

  lemma SmallQuotient(m: int, a: int, q: int)
    requires 0 < m < a && 0 <= m - a * q < a
    ensures q == 0
  {
  }

  lemma Finish(a: int, m: int, g0: int, v0: int, g1: int, v1: int)
    requires m > 0 && EuclidState(a, m, g0, v0, g1, v1) && g1 % m == 0
    ensures InverseOrZero(a, m, if IsUnit(g0) then v0 / g0 else 0) <==> -m < a < m || m == 1 || !Coprime(a, m)
  {
    hide InverseOrZero, Coprime, Congruent;
    if -m < a < m {
      SmallCongruentToZero(g1, m);
      Reduced(a, m, g0, v0);
    } else {
      RemainderOfMultiple(m, 1);
      Unreduced(a, m, g0);
    }
  }

  lemma Start(a: int, m: int)
    requires m > 0
    ensures EuclidState(a, m, m, 0, a, 1)
  {
    DividesSelf(m);
    DividesZero(m);
    assert m - 0 * a == m && a - 1 * a == 0;
  }

  lemma SmallCongruentToZero(x: int, m: int)
    requires -m < x < m && x % m == 0
    ensures x == 0
  {
    SmallMultiple(m, if x < 0 then 1 + x / m else x / m);
  }

  /** The end of the loop for a reduced argument. */
  lemma Reduced(a: int, m: int, g: int, v: int)
    requires m > 0 && Congruent(g, v * a, m)
    requires forall d :: CommonDivisor(d, a, m) <==> CommonDivisor(d, g, 0)
    ensures InverseOrZero(a, m, if IsUnit(g) then v / g else 0)
  {
    LastRemainder(g, a, m);
    UnitGcd(g, a, m);
    if g == 1 {
      DividesMultiple(m, g - v * a, -1);
      assert -1 * (g - v * a) == a * v - 1 by { Commute(a, v); }
    } else if g == -1 {
      DividesMultiple(m, g - v * a, 1);
      assert g - v * a == a * -v - 1 by { Commute(a, v); }
    }
  }

  /** The end of the loop for an argument that is not reduced: at once, with the modulus
      in the last slot, or a step later, with the argument there. */
  lemma Unreduced(a: int, m: int, g: int)
    requires m > 0 && !(-m < a < m)
    requires (g == m && a % m == 0) || (g == a && a % m != 0)
    ensures InverseOrZero(a, m, 0) <==> m == 1 || !Coprime(a, m)
    ensures IsUnit(g) ==> g == m == 1
  {
    DividesByRemainder(m, a);
    DividesSelf(m);
    if m > 1 {
      DividesByRemainder(m, a * 0 - 1);
      assert (a * 0 - 1) % m == m - 1;
      if g == m {
        assert CommonDivisor(m, a, m);
      }
    } else {
      assert Multiple(a * 0 - 1, 1, -1);
      forall d | d > 1 ensures !CommonDivisor(d, a, m) { DividesByRemainder(d, 1); }
    }
  }

  /** The smallest failure: modulo 2, the inverse of 3 exists and is 1, and 0 is returned. */
  lemma UnreducedArgumentFails()
    ensures Coprime(3, 2) && Congruent(3 * 1, 1, 2) && !InverseOrZero(3, 2, 0)
    ensures !(-2 < 3 < 2 || 2 == 1 || !Coprime(3, 2))
  {
    forall d | d > 1 ensures !CommonDivisor(d, 3, 2) {
      if CommonDivisor(d, 3, 2) {
        DividesCombination(d, 3, 2, -1);
        DividesByRemainder(d, 1);
      }
    }
    assert Multiple(3 * 1 - 1, 2, 1);
    DividesByRemainder(2, 3 * 0 - 1);
  }
}
