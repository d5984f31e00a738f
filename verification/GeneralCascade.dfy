/** `GeneralCascadeMultiplication` of algebra.cpp: a sum of exponent·base terms by
    repeatedly dividing the largest exponent by the next largest, which a heap keeps
    at hand. */
module GeneralCascade {
  import opened Groups
  import ScalarMultiplication
  import CascadeMultiplication

  /** `BaseAndExponent`, ordered by exponent. */
  datatype BaseAndExponent<T> = BaseAndExponent(base: T, exponent: nat)

  /** The specification: the sum of exponent·base over all the terms. */
  ghost function Sum<T>(g: Group<T>, s: seq<BaseAndExponent<T>>): T {
    if |s| == 0 then g.identity
    else g.Add(Sum(g, s[..|s| - 1]), Term(g, s[|s| - 1]))
  }

  ghost function Term<T>(g: Group<T>, t: BaseAndExponent<T>): T {
    Mul(g, t.exponent, t.base)
  }

  /** A term can be pulled out of any place. */
  lemma {:induction false} SumWithout<T(!new)>(g: Group<T>, s: seq<BaseAndExponent<T>>, j: nat)
    requires Abelian(g) && j < |s|
    ensures Sum(g, s) == g.Add(Sum(g, s[..j] + s[j + 1..]), Term(g, s[j]))
  {
    var n := |s| - 1;
    if j == n {
      assert s[..j] + s[j + 1..] == s[..n];
    } else {
      SumWithout(g, s[..n], j);
      var rest := s[..n][..j] + s[..n][j + 1..];
      assert (s[..j] + s[j + 1..])[..n - 1] == rest;
      assert Assoc(g, Sum(g, rest), Term(g, s[j]), Term(g, s[n]));
      assert Comm(g, Term(g, s[j]), Term(g, s[n]));
      assert Assoc(g, Sum(g, rest), Term(g, s[n]), Term(g, s[j]));
    }
  }

  /** The sum does not depend on the order of the terms. */
  lemma {:induction false} SumPermuted<T(!new)>(g: Group<T>, s: seq<BaseAndExponent<T>>, t: seq<BaseAndExponent<T>>)
    requires Abelian(g) && multiset(s) == multiset(t)
    ensures Sum(g, s) == Sum(g, t)
    decreases |s|
  {
    assert |s| == |multiset(s)| == |multiset(t)| == |t|;
    if |s| > 0 {
      var n := |s| - 1;
      assert s[n] in multiset(t);
      var j :| 0 <= j < |t| && t[j] == s[n];
      SameRest(s, t, j);
      SumWithout(g, t, j);
      SumPermuted(g, s[..n], t[..j] + t[j + 1..]);
    }
  }

  lemma SameRest<X>(s: seq<X>, t: seq<X>, j: nat)
    requires multiset(s) == multiset(t) && |s| > 0 && j < |t| && t[j] == s[|s| - 1]
    ensures multiset(s[..|s| - 1]) == multiset(t[..j] + t[j + 1..])
  {
    var x, front, l, r := t[j], s[..|s| - 1], t[..j], t[j + 1..];
    assert s == front + [x];
    assert t == l + [x] + r;
    MultisetRemove(front, [], x);
    MultisetRemove(l, r, x);
    assert front + [] == front && front + [x] + [] == s;
  }

  lemma MultisetRemove<X>(l: seq<X>, r: seq<X>, x: X)
    ensures multiset(l + r) == multiset(l + [x] + r) - multiset{x}
  {
  }

  lemma {:induction false} SumOfZeros<T(!new)>(g: Group<T>, s: seq<BaseAndExponent<T>>)
    requires Abelian(g) && forall k :: 0 <= k < |s| ==> s[k].exponent == 0
    ensures Sum(g, s) == g.identity
  {
    if |s| > 0 {
      SumOfZeros(g, s[..|s| - 1]);
      assert Unit(g, g.identity);
    }
  }

  /** r·L + e·(B + q·L) is (q·e + r)·L + e·B: one step of the exponent reduction. */
  lemma StepKeepsTerms<T(!new)>(g: Group<T>, L: T, B: T, t: nat, e: nat, q: nat, r: nat)
    requires Abelian(g) && t == q * e + r
    ensures g.Add(Mul(g, r, L), Mul(g, e, g.Add(B, Mul(g, q, L)))) == g.Add(Mul(g, t, L), Mul(g, e, B))
  {
    var qL := Mul(g, q, L);
    var eqL := Mul(g, e, qL);
    MulDistributes(g, e, B, qL);
    MulMul(g, e, q, L);
    assert e * q == q * e;
    MulAdd(g, r, q * e, L);
    assert Comm(g, Mul(g, e, B), eqL);
    assert Assoc(g, Mul(g, r, L), eqL, Mul(g, e, B));
  }

  /** The termination measure: the sum of all exponents. */
  ghost function Total<T>(s: seq<BaseAndExponent<T>>): nat {
    if |s| == 0 then 0 else Total(s[..|s| - 1]) + s[|s| - 1].exponent
  }

  lemma {:induction false} TotalWithout<T>(s: seq<BaseAndExponent<T>>, j: nat)
    requires j < |s|
    ensures Total(s) == Total(s[..j] + s[j + 1..]) + s[j].exponent
  {
    var n := |s| - 1;
    if j == n {
      assert s[..j] + s[j + 1..] == s[..n];
    } else {
      TotalWithout(s[..n], j);
      assert (s[..j] + s[j + 1..])[..n - 1] == s[..n][..j] + s[..n][j + 1..];
    }
  }

  lemma {:induction false} TotalPermuted<T>(s: seq<BaseAndExponent<T>>, t: seq<BaseAndExponent<T>>)
    requires multiset(s) == multiset(t)
    ensures Total(s) == Total(t)
    decreases |s|
  {
    assert |s| == |multiset(s)| == |multiset(t)| == |t|;
    if |s| > 0 {
      var n := |s| - 1;
      assert s[n] in multiset(t);
      var j :| 0 <= j < |t| && t[j] == s[n];
      SameRest(s, t, j);
      TotalWithout(t, j);
      TotalPermuted(s[..n], t[..j] + t[j + 1..]);
    }
  }

  /** The terms after one division step on the largest (last) and next largest (first). */
  ghost function Reduced<T>(g: Group<T>, s: seq<BaseAndExponent<T>>): seq<BaseAndExponent<T>>
    requires |s| >= 2 && s[0].exponent > 0
  {
    var first, last := s[0], s[|s| - 1];
    var q, r := last.exponent / first.exponent, last.exponent % first.exponent;
    s[0 := first.(base := g.Add(first.base, Mul(g, q, last.base)))][|s| - 1 := last.(exponent := r)]
  }

  /** The first and last terms stand apart from the others. */
  lemma EndsApart<T(!new)>(g: Group<T>, s: seq<BaseAndExponent<T>>)
    requires Abelian(g) && |s| >= 2
    ensures Sum(g, s) == g.Add(Sum(g, s[1..|s| - 1]), g.Add(Term(g, s[|s| - 1]), Term(g, s[0])))
    ensures Total(s) == Total(s[1..|s| - 1]) + s[0].exponent + s[|s| - 1].exponent
  {
    var n := |s| - 1;
    SumWithout(g, s[..n], 0);
    TotalWithout(s[..n], 0);
    assert s[..n][..0] + s[..n][1..] == s[1..n];
    assert Assoc(g, Sum(g, s[1..n]), Term(g, s[0]), Term(g, s[n])) && Comm(g, Term(g, s[0]), Term(g, s[n]));
  }

  lemma ReducedKeepsSum<T(!new)>(g: Group<T>, s: seq<BaseAndExponent<T>>)
    requires Abelian(g) && |s| >= 2 && 0 < s[0].exponent <= s[|s| - 1].exponent
    ensures Sum(g, Reduced(g, s)) == Sum(g, s)
    ensures Total(Reduced(g, s)) < Total(s)
  {
    hide Sum, Total, Mul;
    var n := |s| - 1;
    var t := Reduced(g, s);
    var q, r := s[n].exponent / s[0].exponent, s[n].exponent % s[0].exponent;
    EndsApart(g, s);
    EndsApart(g, t);
    assert t[1..n] == s[1..n];
    StepKeepsTerms(g, s[n].base, s[0].base, s[n].exponent, s[0].exponent, q, r);
  }

  // ---------- The std heap operations ----------

  function Parent(k: nat): (p: nat)
    requires k > 0
    ensures p < k
  {
    (k - 1) / 2
  }

  /** Element k is in order with the one above it. */
  ghost predicate InOrder<T>(s: seq<BaseAndExponent<T>>, k: nat)
    requires 1 <= k < |s|
  {
    s[k].exponent <= s[Parent(k)].exponent
  }

  ghost predicate IsHeap<T>(s: seq<BaseAndExponent<T>>, n: nat)
    requires n <= |s|
  {
    forall k :: 1 <= k < n ==> InOrder(s, k)
  }

  lemma {:induction false} RootIsLargest<T>(s: seq<BaseAndExponent<T>>, n: nat, k: nat)
    requires k < n <= |s| && IsHeap(s, n)
    ensures s[k].exponent <= s[0].exponent
    decreases k
  {
    if k > 0 {
      assert InOrder(s, k);
      RootIsLargest(s, n, Parent(k));
    }
  }

  /** Element k, if it is a child of i, is in order with the element above i. */
  ghost predicate Skips<T>(s: seq<BaseAndExponent<T>>, i: nat, k: nat)
    requires 1 <= k < |s| && i < |s|
  {
    i > 0 && Parent(k) == i ==> s[k].exponent <= s[Parent(i)].exponent
  }

  /** A heap but for element i, which may be too large for its place. */
  ghost predicate Rising<T>(s: seq<BaseAndExponent<T>>, n: nat, i: nat)
    requires i < n <= |s|
  {
    && (forall k :: 1 <= k < n && k != i ==> InOrder(s, k))
    && (forall k :: 1 <= k < n ==> Skips(s, i, k))
  }

  /** A heap but for element i, which may be too small for its place. */
  ghost predicate Sinking<T>(s: seq<BaseAndExponent<T>>, n: nat, i: nat)
    requires i < n <= |s|
  {
    && (forall k :: 1 <= k < n && Parent(k) != i ==> InOrder(s, k))
    && (forall k :: 1 <= k < n ==> Skips(s, i, k))
  }

  ghost function Swapped<X>(s: seq<X>, i: nat, j: nat): (t: seq<X>)
    requires i < |s| && j < |s|
    ensures |t| == |s| && multiset(t) == multiset(s)
  {
    s[i := s[j]][j := s[i]]
  }

  lemma RiseStep<T>(s: seq<BaseAndExponent<T>>, n: nat, i: nat)
    requires 0 < i < n <= |s| && Rising(s, n, i) && s[Parent(i)].exponent < s[i].exponent
    ensures Rising(Swapped(s, i, Parent(i)), n, Parent(i))
  {
    var p := Parent(i);
    var t := Swapped(s, i, p);
    forall k | 1 <= k < n ensures k != p ==> InOrder(t, k) {
      assert k != i ==> InOrder(s, k);
      assert Skips(s, i, k);
    }
    forall k | 1 <= k < n ensures Skips(t, p, k) {
      if p > 0 {
        assert InOrder(s, p);
        assert k != i ==> InOrder(s, k);
      }
    }
  }

  lemma SinkStep<T>(s: seq<BaseAndExponent<T>>, n: nat, i: nat, c: nat)
    requires i < c < n <= |s| && Sinking(s, n, i) && Parent(c) == i && s[i].exponent < s[c].exponent
    requires forall k :: 1 <= k < n && Parent(k) == i ==> s[k].exponent <= s[c].exponent
    ensures Sinking(Swapped(s, i, c), n, c)
  {
    var t := Swapped(s, i, c);
    forall k | 1 <= k < n ensures Parent(k) != c ==> InOrder(t, k) {
      assert Parent(k) != i ==> InOrder(s, k);
      assert Skips(s, i, c);
    }
    forall k | 1 <= k < n ensures Skips(t, c, k) {
      assert Parent(k) != i ==> InOrder(s, k);
    }
  }

  method Swap<T>(a: array<BaseAndExponent<T>>, i: nat, j: nat)
    requires i < a.Length && j < a.Length
    modifies a
    ensures a[..] == Swapped(old(a[..]), i, j)
  {
    a[i], a[j] := a[j], a[i];
  }

  /** `std::push_heap`: the element at n - 1 joins the heap before it. */
  method PushHeap<T>(a: array<BaseAndExponent<T>>, n: nat)
    requires 1 <= n <= a.Length && IsHeap(a[..], n - 1)
    modifies a
    ensures IsHeap(a[..], n) && multiset(a[..]) == multiset(old(a[..]))
    ensures a[n..] == old(a[n..])
  {
    var i := n - 1;
    assert Rising(a[..], n, i);
    while i > 0 && a[Parent(i)].exponent < a[i].exponent
      invariant 0 <= i < n && Rising(a[..], n, i)
      invariant multiset(a[..]) == multiset(old(a[..]))
      invariant a[n..] == old(a[n..])
    {
      RiseStep(a[..], n, i);
      Swap(a, i, Parent(i));
      i := Parent(i);
    }
  }

  /** `std::pop_heap`: the largest element goes to n - 1, the others stay a heap. */
  method PopHeap<T>(a: array<BaseAndExponent<T>>, n: nat)
    requires 1 <= n <= a.Length && IsHeap(a[..], n)
    modifies a
    ensures IsHeap(a[..], n - 1) && multiset(a[..]) == multiset(old(a[..]))
    ensures a[n - 1] == old(a[0]) && a[n..] == old(a[n..])
  {
    hide IsHeap;
    ghost var before := a[..];
    Swap(a, 0, n - 1);
    if n > 1 {
      RootMoved(before, a[..], n);
      SiftDown(a, n - 1);
    } else {
      EmptyHeap(a[..]);
    }
  }

  lemma EmptyHeap<T>(s: seq<BaseAndExponent<T>>)
    ensures IsHeap(s, 0)
  {
  }

  lemma RootMoved<T>(before: seq<BaseAndExponent<T>>, s: seq<BaseAndExponent<T>>, n: nat)
    requires 1 < n <= |before| && IsHeap(before, n) && s == Swapped(before, 0, n - 1)
    ensures Sinking(s, n - 1, 0)
  {
    forall k | 1 <= k < n - 1 && Parent(k) != 0 ensures InOrder(s, k) { assert InOrder(before, k); }
  }

  lemma Settled<T>(s: seq<BaseAndExponent<T>>, m: nat, i: nat)
    requires i < m <= |s| && Sinking(s, m, i)
    requires forall k :: 1 <= k < m && Parent(k) == i ==> s[k].exponent <= s[i].exponent
    ensures IsHeap(s, m)
  {
    hide Parent;
    forall k | 1 <= k < m ensures InOrder(s, k) {
      assert Parent(k) == i ==> s[k].exponent <= s[i].exponent;
    }
  }

  /** The root finds its place among the first m elements; the others stay put. */
  method SiftDown<T>(a: array<BaseAndExponent<T>>, m: nat)
    requires 1 <= m <= a.Length && Sinking(a[..], m, 0)
    modifies a
    ensures IsHeap(a[..], m) && multiset(a[..]) == multiset(old(a[..])) && a[m..] == old(a[m..])
  {
    hide IsHeap, Sinking, Parent;
    var i := 0;
    while 2 * i + 1 < m
      invariant 0 <= i < m && Sinking(a[..], m, i)
      invariant multiset(a[..]) == multiset(old(a[..])) && a[m..] == old(a[m..])
      decreases m - i
    {
      var c := LargerChild(a, m, i);
      if a[c].exponent <= a[i].exponent {
        break;
      }
      SinkStep(a[..], m, i, c);
      Swap(a, i, c);
      i := c;
    }
    LeafHasNoChild(m, i);
    Settled(a[..], m, i);
  }

  method LargerChild<T>(a: array<BaseAndExponent<T>>, m: nat, i: nat) returns (c: nat)
    requires 2 * i + 1 < m <= a.Length
    ensures i < c < m && Parent(c) == i
    ensures forall k :: 1 <= k < m && Parent(k) == i ==> a[k].exponent <= a[c].exponent
  {
    c := 2 * i + 1;
    if c + 1 < m && a[c].exponent < a[c + 1].exponent {
      c := c + 1;
    }
  }

  lemma LeafHasNoChild(m: nat, i: nat)
    requires i < m
    ensures 2 * i + 1 >= m ==> forall k :: 1 <= k < m ==> Parent(k) != i
  {
  }

  /** `std::make_heap`. */
  method MakeHeap<T>(a: array<BaseAndExponent<T>>)
    modifies a
    ensures IsHeap(a[..], a.Length) && multiset(a[..]) == multiset(old(a[..]))
  {
    var n := 0;
    while n < a.Length
      invariant n <= a.Length && IsHeap(a[..], n) && multiset(a[..]) == multiset(old(a[..]))
    {
      n := n + 1;
      PushHeap(a, n);
    }
  }

  /** After std::pop_heap on a whole heap, nothing exceeds the old root. */
  lemma NoneLarger<T>(s: seq<BaseAndExponent<T>>, t: seq<BaseAndExponent<T>>, k: nat)
    requires |s| > 0 && IsHeap(s, |s|) && multiset(s) == multiset(t) && k < |t|
    ensures t[k].exponent <= s[0].exponent
  {
    assert t[k] in multiset(s);
    var j :| 0 <= j < |s| && s[j] == t[k];
    RootIsLargest(s, |s|, j);
  }

  /** Only exponents matter to a heap. */
  lemma SameExponents<T>(s: seq<BaseAndExponent<T>>, t: seq<BaseAndExponent<T>>, n: nat)
    requires n <= |s| && n <= |t| && IsHeap(s, n)
    requires forall k :: 0 <= k < n ==> s[k].exponent == t[k].exponent
    ensures IsHeap(t, n)
  {
    forall k | 1 <= k < n ensures InOrder(t, k) { assert InOrder(s, k); }
  }

  lemma SmallSums<T(!new)>(g: Group<T>, s: seq<BaseAndExponent<T>>)
    requires Abelian(g)
    ensures |s| == 1 ==> Sum(g, s) == Mul(g, s[0].exponent, s[0].base)
    ensures |s| == 2 ==> Sum(g, s) == CascadeMultiplication.Combination(g, s[0].base, s[1].base, s[0].exponent, s[1].exponent)
  {
    if 1 <= |s| <= 2 {
      ZeroLeft(g, Term(g, s[0]));
      assert Sum(g, s[..1]) == g.Add(Sum(g, s[..1][..0]), Term(g, s[0]));
      assert |s| == 1 ==> s[..1] == s;
    }
  }

  lemma OnlyLastLeft<T(!new)>(g: Group<T>, s: seq<BaseAndExponent<T>>, last: nat)
    requires Abelian(g) && last > 0 && |s| == last + 1 && IsHeap(s, last) && s[0].exponent == 0
    ensures Sum(g, s) == Mul(g, s[last].exponent, s[last].base)
    ensures forall k :: 0 <= k < last ==> s[k].exponent == 0
  {
    forall k | 0 <= k < last ensures s[k].exponent == 0 { RootIsLargest(s, last, k); }
    SumOfZeros(g, s[..last]);
    ZeroLeft(g, Term(g, s[last]));
  }

  /** One round of the heap calls: the largest term goes last, the next largest first. */
  method Reorder<T(!new)>(g: Group<T>, a: array<BaseAndExponent<T>>)
    requires Abelian(g) && a.Length >= 2 && IsHeap(a[..], a.Length - 1)
    modifies a
    ensures IsHeap(a[..], a.Length - 1)
    ensures forall k :: 0 <= k < a.Length ==> a[k].exponent <= a[a.Length - 1].exponent
    ensures Sum(g, a[..]) == Sum(g, old(a[..])) && Total(a[..]) == Total(old(a[..]))
  {
    hide IsHeap;
    PushHeap(a, a.Length);
    ghost var s := a[..];
    PopHeap(a, a.Length);
    forall k | 0 <= k < a.Length ensures a[k].exponent <= s[0].exponent { NoneLarger(s, a[..], k); }
    SumPermuted(g, old(a[..]), a[..]);
    TotalPermuted(old(a[..]), a[..]);
  }

  /** The sum of exponent·base over all the terms, in any abelian group. With three or more
      terms they are used up: only the last one is left with a nonzero exponent. */
  method GeneralCascadeMultiplication<T(!new)>(g: Group<T>, inversionIsFast: bool, wordBits: nat,
                                               a: array<BaseAndExponent<T>>, junk: T) returns (result: T)
    requires Abelian(g) && wordBits > 0 && a.Length >= 1
    modifies a
    ensures result == Sum(g, old(a[..]))
    ensures a.Length >= 3 ==> forall k :: 0 <= k < a.Length - 1 ==> a[k].exponent == 0
  {
    hide Mul, Times, IsHeap, CascadeMultiplication.Combination;
    ghost var terms := a[..];
    SmallSums(g, terms);
    if a.Length == 1 {
      result := ScalarMultiplication.ScalarMultiply(g, inversionIsFast, wordBits, a[0].base, a[0].exponent);
    } else if a.Length == 2 {
      result := CascadeMultiplication.CascadeScalarMultiply(g, a[0].base, a[0].exponent, a[1].base, a[1].exponent, junk);
    } else {
      var last := a.Length - 1;
      MakeHeap(a);
      ghost var heap := a[..];
      PopHeap(a, a.Length);
      NoneLarger(heap, a[..], 0);
      SumPermuted(g, terms, a[..]);
      while a[0].exponent != 0
        invariant IsHeap(a[..], last) && a[0].exponent <= a[last].exponent
        invariant Sum(g, a[..]) == Sum(g, terms)
        decreases Total(a[..])
      {
        Divide(g, inversionIsFast, wordBits, a);
        Reorder(g, a);
      }
      OnlyLastLeft(g, a[..], last);
      result := ScalarMultiplication.ScalarMultiply(g, inversionIsFast, wordBits, a[last].base, a[last].exponent);
    }
  }

  /** The loop body before the heap calls (algebra.cpp lines 189-196). */
  method Divide<T(!new)>(g: Group<T>, inversionIsFast: bool, wordBits: nat, a: array<BaseAndExponent<T>>)
    requires Abelian(g) && wordBits > 0 && a.Length >= 2 && IsHeap(a[..], a.Length - 1)
    requires 0 < a[0].exponent <= a[a.Length - 1].exponent
    modifies a
    ensures IsHeap(a[..], a.Length - 1)
    ensures Sum(g, a[..]) == Sum(g, old(a[..])) && Total(a[..]) < Total(old(a[..]))
  {
    hide Mul, Times, IsHeap, Sum, Total;
    var last := a.Length - 1;
    ghost var s := a[..];
    ReducedKeepsSum(g, s);
    var t := a[last].exponent;
    var q := t / a[0].exponent;
    a[last] := a[last].(exponent := t % a[0].exponent);
    if q == 1 {
      MulOne(g, a[last].base);
      a[0] := a[0].(base := g.Add(a[0].base, a[last].base));
    } else {
      var m := ScalarMultiplication.ScalarMultiply(g, inversionIsFast, wordBits, a[last].base, q);
      a[0] := a[0].(base := g.Add(a[0].base, m));
    }
    assert a[..] == Reduced(g, s);
    SameExponents(s, a[..], last);
  }
}
