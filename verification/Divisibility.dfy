/** Divisibility and congruence of integers. */
module Divisibility {
  import opened Arithmetic

  ghost predicate Divides(d: int, a: int) {
    exists k :: Multiple(a, d, k)
  }

  ghost predicate Multiple(a: int, d: int, k: int) {
    a == d * k
  }

  ghost predicate Congruent(x: int, y: int, m: int) {
    Divides(m, x - y)
  }

  lemma DividesByRemainder(d: int, a: int)
    requires d != 0
    ensures Divides(d, a) <==> a % d == 0
  {
    if a % d == 0 {
      assert Multiple(a, d, a / d);
    }
    if Divides(d, a) {
      var k :| Multiple(a, d, k);
      RemainderOfMultiple(d, k);
    }
  }

  lemma RemainderOfMultiple(d: int, k: int)
    requires d != 0
    ensures (d * k) % d == 0
  {
    var a := d * k;
    var e := k - a / d;
    assert a % d == d * e;
    if d > 0 { SmallMultiple(d, e); } else { SmallMultiple(-d, -e); }
  }

  lemma DividesCombination(d: int, a: int, b: int, k: int)
    requires Divides(d, a) && Divides(d, b)
    ensures Divides(d, a + k * b)
  {
    var i :| Multiple(a, d, i);
    var j :| Multiple(b, d, j);
    assert a + k * b == d * (i + k * j) by {
      assert k * (d * j) == d * (k * j);
    }
    assert Multiple(a + k * b, d, i + k * j);
  }

  lemma DividesTransitive(d: int, e: int, x: int)
    requires Divides(d, e) && Divides(e, x)
    ensures Divides(d, x)
  {
    var k :| Multiple(e, d, k);
    var j :| Multiple(x, e, j);
    assert d * k * j == d * (k * j);
    assert Multiple(x, d, k * j);
  }

  lemma DividesZero(d: int)
    ensures Divides(d, 0)
  {
    assert Multiple(0, d, 0);
  }

  lemma DividesSelf(d: int)
    ensures Divides(d, d) && Divides(d, -d)
  {
    assert Multiple(d, d, 1) && Multiple(-d, d, -1);
  }

  lemma DividesMultiple(d: int, a: int, k: int)
    requires Divides(d, a)
    ensures Divides(d, k * a)
  {
    DividesZero(d);
    DividesCombination(d, 0, a, k);
  }

  lemma NonzeroDivisor(d: int, b: int)
    requires Divides(d, b) && b != 0
    ensures d != 0
  {
    var k :| Multiple(b, d, k);
  }

  lemma NegatedDivisor(d: int, a: int)
    requires Divides(d, a)
    ensures Divides(-d, a)
  {
    var k :| Multiple(a, d, k);
    assert Multiple(a, -d, -k);
  }

  lemma Commute(a: int, v: int)
    ensures v * a == a * v && a * -v == -(a * v)
  {
  }
}
