/** The abstract group of algebra.h, as a record of its operations, and the
    meaning of "multiple of an element" that the fast routines of algebra.cpp
    are measured against. */
module Groups {

  /** `AbstractGroup`: the virtual operations a concrete group supplies. */
  datatype Group<!T> = Group(identity: T, plus: (T, T) -> T, minus: T -> T) {
    function Add(a: T, b: T): T {
      plus(a, b)
    }

    function Inverse(a: T): T {
      minus(a)
    }

    function Double(a: T): T {
      Add(a, a)
    }
  }

  // Each axiom is a predicate of its own, so that an instance is available to a
  // proof exactly where the proof names it.

  ghost predicate Assoc<T>(g: Group<T>, a: T, b: T, c: T) {
    g.Add(g.Add(a, b), c) == g.Add(a, g.Add(b, c))
  }

  ghost predicate Comm<T>(g: Group<T>, a: T, b: T) {
    g.Add(a, b) == g.Add(b, a)
  }

  ghost predicate Unit<T>(g: Group<T>, a: T) {
    g.Add(a, g.identity) == a
  }

  ghost predicate Cancel<T>(g: Group<T>, a: T) {
    g.Add(a, g.Inverse(a)) == g.identity
  }

  /** The axioms of an abelian group. */
  ghost predicate Abelian<T(!new)>(g: Group<T>) {
    && (forall a, b, c :: Assoc(g, a, b, c))
    && (forall a, b :: Comm(g, a, b))
    && (forall a :: Unit(g, a))
    && (forall a :: Cancel(g, a))
  }

  /** Repeated addition: n copies of x. */
  ghost function Times<T>(g: Group<T>, n: nat, x: T): T {
    if n == 0 then g.identity else g.Add(Times(g, n - 1, x), x)
  }

  /** The integer multiple n·x: the specification of `ScalarMultiply`. */
  ghost function Mul<T>(g: Group<T>, n: int, x: T): T {
    if n >= 0 then Times(g, n, x) else g.Inverse(Times(g, -n, x))
  }

  lemma ZeroLeft<T(!new)>(g: Group<T>, a: T)
    requires Abelian(g)
    ensures g.Add(g.identity, a) == a
  {
    assert Comm(g, g.identity, a) && Unit(g, a);
  }

  /** Anything that cancels a is its inverse. */
  lemma NegUnique<T(!new)>(g: Group<T>, a: T, b: T)
    requires Abelian(g) && g.Add(a, b) == g.identity
    ensures b == g.Inverse(a)
  {
    assert Unit(g, b) && Cancel(g, a) && Assoc(g, b, a, g.Inverse(a)) && Comm(g, a, b);
    ZeroLeft(g, g.Inverse(a));
  }

  lemma NegZero<T(!new)>(g: Group<T>)
    requires Abelian(g)
    ensures g.Inverse(g.identity) == g.identity
  {
    assert Unit(g, g.identity);
    NegUnique(g, g.identity, g.identity);
  }

  /** (a + b) + (c + d) == (a + c) + (b + d). */
  lemma Exchange<T(!new)>(g: Group<T>, a: T, b: T, c: T, d: T)
    requires Abelian(g)
    ensures g.Add(g.Add(a, b), g.Add(c, d)) == g.Add(g.Add(a, c), g.Add(b, d))
  {
    assert Assoc(g, a, b, g.Add(c, d)) && Assoc(g, b, c, d) && Comm(g, b, c);
    assert Assoc(g, c, b, d) && Assoc(g, a, c, g.Add(b, d));
  }

  lemma NegAdd<T(!new)>(g: Group<T>, a: T, b: T)
    requires Abelian(g)
    ensures g.Inverse(g.Add(a, b)) == g.Add(g.Inverse(a), g.Inverse(b))
  {
    Exchange(g, a, b, g.Inverse(a), g.Inverse(b));
    assert Cancel(g, a) && Cancel(g, b) && Unit(g, g.identity);
    NegUnique(g, g.Add(a, b), g.Add(g.Inverse(a), g.Inverse(b)));
  }

  lemma MulZero<T(!new)>(g: Group<T>, x: T)
    ensures Mul(g, 0, x) == g.identity
  {
  }

  lemma MulOne<T(!new)>(g: Group<T>, x: T)
    requires Abelian(g)
    ensures Mul(g, 1, x) == x
  {
    assert Times(g, 1, x) == g.Add(Times(g, 0, x), x);
    ZeroLeft(g, x);
  }

  lemma MulSucc<T(!new)>(g: Group<T>, n: int, x: T)
    requires Abelian(g)
    ensures Mul(g, n + 1, x) == g.Add(Mul(g, n, x), x)
  {
    if n < 0 {
      var t := Times(g, -n - 1, x);
      assert Times(g, -n, x) == g.Add(t, x);
      NegAdd(g, t, x);
      assert Assoc(g, g.Inverse(t), g.Inverse(x), x) && Comm(g, g.Inverse(x), x) && Cancel(g, x) && Unit(g, g.Inverse(t));
      NegZero(g);
    }
  }

  lemma MulPred<T(!new)>(g: Group<T>, n: int, x: T)
    requires Abelian(g)
    ensures Mul(g, n - 1, x) == g.Add(Mul(g, n, x), g.Inverse(x))
  {
    MulSucc(g, n - 1, x);
    assert Assoc(g, Mul(g, n - 1, x), x, g.Inverse(x)) && Cancel(g, x) && Unit(g, Mul(g, n - 1, x));
  }

  /** Multiples of one element add as their coefficients do. */
  lemma {:induction false} MulAdd<T(!new)>(g: Group<T>, m: int, n: int, x: T)
    requires Abelian(g)
    ensures Mul(g, m + n, x) == g.Add(Mul(g, m, x), Mul(g, n, x))
    decreases if n < 0 then -n else n
  {
    if n == 0 {
      assert Unit(g, Mul(g, m, x));
    } else if n > 0 {
      MulAdd(g, m, n - 1, x);
      MulSucc(g, m + n - 1, x);
      MulSucc(g, n - 1, x);
      assert Assoc(g, Mul(g, m, x), Mul(g, n - 1, x), x);
    } else {
      MulAdd(g, m, n + 1, x);
      MulPred(g, m + n + 1, x);
      MulPred(g, n + 1, x);
      assert Assoc(g, Mul(g, m, x), Mul(g, n + 1, x), g.Inverse(x));
    }
  }

  lemma MulNeg<T(!new)>(g: Group<T>, n: int, x: T)
    requires Abelian(g)
    ensures Mul(g, -n, x) == g.Inverse(Mul(g, n, x))
  {
    MulAdd(g, n, -n, x);
    NegUnique(g, Mul(g, n, x), Mul(g, -n, x));
  }

  /** n·(x + y) == n·x + n·y. */
  lemma {:induction false} MulDistributes<T(!new)>(g: Group<T>, n: nat, x: T, y: T)
    requires Abelian(g)
    ensures Mul(g, n, g.Add(x, y)) == g.Add(Mul(g, n, x), Mul(g, n, y))
  {
    if n == 0 {
      assert Unit(g, g.identity);
    } else {
      MulDistributes(g, n - 1, x, y);
      Exchange(g, Mul(g, n - 1, x), Mul(g, n - 1, y), x, y);
    }
  }

  /** m·(n·x) == (m·n)·x. */
  lemma {:induction false} MulMul<T(!new)>(g: Group<T>, m: nat, n: int, x: T)
    requires Abelian(g)
    ensures Mul(g, m, Mul(g, n, x)) == Mul(g, m * n, x)
  {
    if m == 0 {
    } else {
      MulMul(g, m - 1, n, x);
      assert (m - 1) * n + n == m * n;
      MulAdd(g, (m - 1) * n, n, x);
    }
  }

}
