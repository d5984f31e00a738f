/** `AbstractGroup::CascadeScalarMultiply` of algebra.cpp: e1·x + e2·y from one chain
    of doublings, reading both exponents from the top in windows of w bits and adding
    the combination of x and y that a window pair names from a precomputed table. */
module CascadeMultiplication {
  import opened Numbers
  import opened Groups

  /** a·x + b·y. */
  ghost function Combination<T>(g: Group<T>, x: T, y: T, a: int, b: int): T {
    g.Add(Mul(g, a, x), Mul(g, b, y))
  }

  lemma CombinationAdd<T(!new)>(g: Group<T>, x: T, y: T, a: int, b: int, c: int, d: int)
    requires Abelian(g)
    ensures Combination(g, x, y, a + c, b + d) == g.Add(Combination(g, x, y, a, b), Combination(g, x, y, c, d))
  {
    MulAdd(g, a, c, x);
    MulAdd(g, b, d, y);
    Exchange(g, Mul(g, a, x), Mul(g, c, x), Mul(g, b, y), Mul(g, d, y));
  }

  lemma CombinationUnits<T(!new)>(g: Group<T>, x: T, y: T)
    requires Abelian(g)
    ensures Combination(g, x, y, 0, 0) == g.identity
    ensures Combination(g, x, y, 1, 0) == x
    ensures Combination(g, x, y, 0, 1) == y
  {
    MulOne(g, x);
    MulOne(g, y);
    assert Unit(g, x) && Unit(g, g.identity);
    ZeroLeft(g, y);
  }

  // ---------- The table: entry (b << w) + a is a·x + b·y ----------

  ghost predicate Entry<T>(g: Group<T>, x: T, y: T, w: nat, k: nat, v: T) {
    v == Combination(g, x, y, Low(k, w), Shr(k, w))
  }

  /** The entries that are read: those whose coefficients are not both even. */
  ghost predicate TableReady<T>(g: Group<T>, x: T, y: T, w: nat, t: seq<T>) {
    && |t| == Shl(Pow2(w), w)
    && forall k :: 0 <= k < |t| && (k % 2 == 1 || Shr(k, w) % 2 == 1) ==> Entry(g, x, y, w, k, t[k])
  }

  lemma Join(a: nat, b: nat, w: nat)
    requires a < Pow2(w)
    ensures Shl(b, w) >= 0 && Low(Shl(b, w) + a, w) == a && Shr(Shl(b, w) + a, w) == b
    decreases w
  {
    ShlOrder(0, b, w);
    ShlZero(w);
    if w > 0 {
      Join(a / 2, b, w - 1);
      assert (Shl(b, w) + a) / 2 == Shl(b, w - 1) + a / 2;
    }
  }

  lemma {:induction false} NextRow(k: nat, w: nat)
    ensures Low(k + Pow2(w), w) == Low(k, w) && Shr(k + Pow2(w), w) == Shr(k, w) + 1
  {
    if w > 0 {
      assert (k + Pow2(w)) / 2 == k / 2 + Pow2(w - 1);
      NextRow(k / 2, w - 1);
    }
  }

  lemma SameColumn(j: nat, k: nat, w: nat)
    requires Low(j, w) == Low(k, w) && j <= k < j + Pow2(w)
    ensures j == k
  {
    Split(j, w);
    Split(k, w);
    ShlOrder(Shr(j, w), Shr(k, w), w);
    if Shr(j, w) < Shr(k, w) {
      ShlAdd(Shr(j, w), 1, w);
      ShlPow2(w);
      ShlOrder(Shr(j, w) + 1, Shr(k, w), w);
    }
  }

  lemma Parity(k: nat, w: nat)
    requires w > 0
    ensures Low(k, w) % 2 == k % 2
  {
  }

  lemma FirstRow(k: nat, w: nat)
    requires k < Pow2(w)
    ensures Low(k, w) == k && Shr(k, w) == 0
  {
    ShlZero(w);
    Join(k, 0, w);
  }

  /** The table has room for the entries set by hand, and they are where they belong. */
  lemma TableShape(w: nat)
    requires w >= 2
    ensures Pow2(w) % 2 == 0 && 4 <= Pow2(w) && 4 * Pow2(w) <= Shl(Pow2(w), w)
  {
    assert Pow2(w) == 4 * Pow2(w - 2);
    assert Shl(Pow2(w), w) == 4 * Shl(Pow2(w), w - 2);
    ShlShl(1, w, w - 2);
    ShlPow2(w);
    ShlPow2(w + w - 2);
    Pow2Mono(w, w + w - 2);
  }

  lemma FirstEntries<T(!new)>(g: Group<T>, x: T, y: T, w: nat)
    requires Abelian(g) && w >= 2
    ensures Entry(g, x, y, w, 1, x) && Entry(g, x, y, w, Pow2(w), y)
    ensures g.Double(x) == Combination(g, x, y, 2, 0) && g.Double(y) == Combination(g, x, y, 0, 2)
  {
    TableShape(w);
    CombinationUnits(g, x, y);
    FirstRow(1, w);
    FirstRow(0, w);
    NextRow(0, w);
    CombinationAdd(g, x, y, 1, 0, 1, 0);
    CombinationAdd(g, x, y, 0, 1, 0, 1);
  }

  lemma EntryStep<T(!new)>(g: Group<T>, x: T, y: T, w: nat, k: nat, v: T, k': nat, a: nat, b: nat)
    requires Abelian(g) && Entry(g, x, y, w, k, v)
    requires Low(k', w) == Low(k, w) + a && Shr(k', w) == Shr(k, w) + b
    ensures Entry(g, x, y, w, k', g.Add(v, Combination(g, x, y, a, b)))
  {
    CombinationAdd(g, x, y, Low(k, w), Shr(k, w), a, b);
  }

  // The precomputation for w >= 2 (algebra.cpp lines 111-129), loop by loop.

  /** Lines 118-119: odd multiples of x. */
  method FillFirstRow<T(!new)>(g: Group<T>, ghost x: T, ghost y: T, w: nat, t: array<T>)
    requires Abelian(g) && w >= 2 && t.Length == Shl(Pow2(w), w) >= Pow2(w) >= 4
    requires Entry(g, x, y, w, 1, t[1]) && t[2] == Combination(g, x, y, 2, 0)
    modifies t
    ensures forall k :: 0 <= k < t.Length && k % 2 == 1 && k < Pow2(w) ==> Entry(g, x, y, w, k, t[k])
    ensures forall k :: 0 <= k < t.Length && !(k % 2 == 1 && k < Pow2(w)) ==> t[k] == old(t[k])
  {
    hide Combination, Low, Shr, Shl, Pow2, Entry;
    Pow2Even(w);
    var i := 3;
    while i < Pow2(w)
      invariant 3 <= i <= Pow2(w) + 1 && i % 2 == 1
      invariant forall k :: 0 <= k < t.Length && !(k % 2 == 1 && k < Pow2(w)) ==> t[k] == old(t[k])
      invariant forall k :: 0 <= k < i && k % 2 == 1 && k < Pow2(w) ==> Entry(g, x, y, w, k, t[k])
    {
      FirstRow(i, w);
      FirstRow(i - 2, w);
      EntryStep(g, x, y, w, i - 2, t[i - 2], i, 2, 0);
      t[i] := g.Add(t[i - 2], t[2]);
      i := i + 2;
    }
  }

  /** Lines 121-122: one column upwards from its entry in the first row. */
  method FillColumn<T(!new)>(g: Group<T>, ghost x: T, y: T, w: nat, t: array<T>, i: nat)
    requires Abelian(g) && t.Length == Shl(Pow2(w), w) >= Pow2(w) > i
    requires y == Combination(g, x, y, 0, 1) && Entry(g, x, y, w, i, t[i])
    modifies t
    ensures forall k :: 0 <= k < t.Length && Low(k, w) == i ==> Entry(g, x, y, w, k, t[k])
    ensures forall k :: 0 <= k < t.Length && Low(k, w) != i ==> t[k] == old(t[k])
  {
    hide Combination, Low, Shr, Shl, Pow2, Entry;
    var tableSize := Pow2(w);
    var j := i + tableSize;
    FirstRow(i, w);
    NextRow(i, w);
    forall k | i <= k < i + tableSize && Low(k, w) == i ensures k == i { SameColumn(i, k, w); }
    forall k | 0 <= k < i ensures Low(k, w) != i { FirstRow(k, w); }
    while j < t.Length
      invariant i + tableSize <= j < t.Length + tableSize
      invariant Low(j, w) == i == Low(j - tableSize, w) && Shr(j, w) == Shr(j - tableSize, w) + 1
      invariant Entry(g, x, y, w, j - tableSize, t[j - tableSize])
      invariant forall k :: 0 <= k < t.Length && Low(k, w) == i && k < j ==> Entry(g, x, y, w, k, t[k])
      invariant forall k :: 0 <= k < t.Length && Low(k, w) != i ==> t[k] == old(t[k])
    {
      EntryStep(g, x, y, w, j - tableSize, t[j - tableSize], j, 0, 1);
      t[j] := g.Add(t[j - tableSize], y);
      forall k | j <= k < j + tableSize && Low(k, w) == i ensures k == j { SameColumn(j, k, w); }
      NextRow(j, w);
      j := j + tableSize;
    }
  }

  /** Lines 124-125: odd multiples of y. */
  method FillFirstColumn<T(!new)>(g: Group<T>, ghost x: T, ghost y: T, w: nat, t: array<T>)
    requires Abelian(g) && w >= 2 && t.Length == Shl(Pow2(w), w) >= 4 * Pow2(w)
    requires Entry(g, x, y, w, Pow2(w), t[Pow2(w)]) && t[2 * Pow2(w)] == Combination(g, x, y, 0, 2)
    modifies t
    ensures forall k :: 0 <= k < t.Length && Low(k, w) == 0 && Shr(k, w) % 2 == 1 ==> Entry(g, x, y, w, k, t[k])
    ensures forall k :: 0 <= k < t.Length && Low(k, w) != 0 ==> t[k] == old(t[k])
  {
    hide Combination, Low, Shr, Shl, Pow2, Entry;
    var tableSize := Pow2(w);
    var i := 3 * tableSize;
    ColumnZero(w);
    while i < t.Length
      invariant 3 * tableSize <= i < t.Length + 2 * tableSize && Low(i, w) == 0 && Shr(i, w) % 2 == 1
      invariant Low(i - 2 * tableSize, w) == 0 && Shr(i - 2 * tableSize, w) == Shr(i, w) - 2
      invariant Entry(g, x, y, w, i - 2 * tableSize, t[i - 2 * tableSize])
      invariant t[2 * tableSize] == Combination(g, x, y, 0, 2)
      invariant forall k :: 0 <= k < t.Length && Low(k, w) == 0 && Shr(k, w) % 2 == 1 && k < i ==> Entry(g, x, y, w, k, t[k])
      invariant forall k :: 0 <= k < t.Length && Low(k, w) != 0 ==> t[k] == old(t[k])
    {
      EntryStep(g, x, y, w, i - 2 * tableSize, t[i - 2 * tableSize], i, 0, 2);
      assert i != 2 * tableSize;
      t[i] := g.Add(t[i - 2 * tableSize], t[2 * tableSize]);
      NextRow(i, w);
      NextRow(i + tableSize, w);
      TwoRowsOn(i, w);
      i := i + 2 * tableSize;
    }
  }

  /** Only the next row starts between a row and the next but one. */
  lemma TwoRowsOn(i: nat, w: nat)
    requires Low(i, w) == 0
    ensures forall k :: i < k < i + 2 * Pow2(w) && Low(k, w) == 0 ==> k == i + Pow2(w)
  {
    hide Low, Pow2;
    NextRow(i, w);
    forall k | i < k < i + 2 * Pow2(w) && Low(k, w) == 0 ensures k == i + Pow2(w) {
      if k < i + Pow2(w) { SameColumn(i, k, w); } else { SameColumn(i + Pow2(w), k, w); }
    }
  }

  lemma ColumnZero(w: nat)
    ensures Low(0, w) == 0 && Shr(0, w) == 0
    ensures Low(Pow2(w), w) == 0 && Shr(Pow2(w), w) == 1
    ensures Low(3 * Pow2(w), w) == 0 && Shr(3 * Pow2(w), w) == 3
    ensures forall k :: 0 <= k < 3 * Pow2(w) && Low(k, w) == 0 && Shr(k, w) % 2 == 1 ==> k == Pow2(w)
  {
    FirstRow(0, w);
    NextRow(0, w);
    NextRow(Pow2(w), w);
    NextRow(2 * Pow2(w), w);
    forall k | 0 <= k < 3 * Pow2(w) && Low(k, w) == 0 && Shr(k, w) % 2 == 1 ensures k == Pow2(w) {
      if k < Pow2(w) {
        SameColumn(0, k, w);
      } else if k < 2 * Pow2(w) {
        SameColumn(Pow2(w), k, w);
      } else {
        SameColumn(2 * Pow2(w), k, w);
      }
    }
  }

  /** Lines 127-128: the even entries of one odd row, each from its odd neighbour. */
  method FillRow<T(!new)>(g: Group<T>, x: T, ghost y: T, w: nat, t: array<T>, i: nat)
    requires Abelian(g) && w > 0 && Low(i, w) == 0 && i % 2 == 0 && i + Pow2(w) <= t.Length
    requires x == Combination(g, x, y, 1, 0) && Entry(g, x, y, w, i, t[i])
    requires forall k :: i <= k < i + Pow2(w) && k % 2 == 1 ==> Entry(g, x, y, w, k, t[k])
    modifies t
    ensures forall k :: i <= k < i + Pow2(w) ==> Entry(g, x, y, w, k, t[k])
    ensures forall k :: 0 <= k < t.Length && !(i <= k < i + Pow2(w)) ==> t[k] == old(t[k])
  {
    hide Combination, Low, Shr, Shl, Pow2, Entry;
    Pow2Even(w);
    var tableSize := Pow2(w);
    var j := i + 2;
    while j < i + tableSize
      invariant i + 2 <= j <= i + tableSize && j % 2 == 0
      invariant forall k :: i <= k < i + tableSize && (k % 2 == 1 || k < j) ==> Entry(g, x, y, w, k, t[k])
      invariant forall k :: 0 <= k < t.Length && !(i <= k < i + tableSize) ==> t[k] == old(t[k])
    {
      InRow(i, j - i, w);
      InRow(i, j - 1 - i, w);
      EntryStep(g, x, y, w, j - 1, t[j - 1], j, 1, 0);
      t[j] := g.Add(t[j - 1], x);
      j := j + 2;
    }
  }

  lemma InRow(i: nat, d: nat, w: nat)
    requires Low(i, w) == 0 && d < Pow2(w)
    ensures Low(i + d, w) == d && Shr(i + d, w) == Shr(i, w)
  {
    Split(i, w);
    Join(d, Shr(i, w), w);
  }

  /** Lines 120-122. */
  method FillColumns<T(!new)>(g: Group<T>, ghost x: T, y: T, w: nat, t: array<T>)
    requires Abelian(g) && w >= 2 && t.Length == Shl(Pow2(w), w) >= Pow2(w) && Pow2(w) % 2 == 0
    requires y == Combination(g, x, y, 0, 1)
    requires forall k :: 0 <= k < Pow2(w) && k % 2 == 1 ==> Entry(g, x, y, w, k, t[k])
    modifies t
    ensures forall k :: 0 <= k < t.Length && k % 2 == 1 ==> Entry(g, x, y, w, k, t[k])
    ensures forall k :: 0 <= k < t.Length && k % 2 == 0 ==> t[k] == old(t[k])
  {
    hide Combination, Low, Shr, Shl, Pow2, Entry;
    forall k: nat ensures Low(k, w) % 2 == k % 2 && Low(k, w) < Pow2(w) { Parity(k, w); Split(k, w); }
    forall k: nat | k < Pow2(w) ensures Low(k, w) == k { FirstRow(k, w); }
    var i := 1;
    while i < Pow2(w)
      invariant 1 <= i <= Pow2(w) + 1 && i % 2 == 1
      invariant forall k :: 0 <= k < t.Length && k % 2 == 1 && (k < Pow2(w) || Low(k, w) < i) ==> Entry(g, x, y, w, k, t[k])
      invariant forall k :: 0 <= k < t.Length && k % 2 == 0 ==> t[k] == old(t[k])
    {
      FillColumn(g, x, y, w, t, i);
      i := i + 2;
    }
  }

  /** Lines 126-128. */
  method FillRows<T(!new)>(g: Group<T>, x: T, ghost y: T, w: nat, t: array<T>)
    requires Abelian(g) && w >= 2 && t.Length == Shl(Pow2(w), w) && Pow2(w) % 2 == 0
    requires x == Combination(g, x, y, 1, 0)
    requires forall k :: 0 <= k < t.Length && k % 2 == 1 ==> Entry(g, x, y, w, k, t[k])
    requires forall k :: 0 <= k < t.Length && Low(k, w) == 0 && Shr(k, w) % 2 == 1 ==> Entry(g, x, y, w, k, t[k])
    modifies t
    ensures forall k :: 0 <= k < t.Length && (k % 2 == 1 || Shr(k, w) % 2 == 1) ==> Entry(g, x, y, w, k, t[k])
  {
    hide Combination, Low, Shr, Shl, Pow2, Entry;
    var tableSize := Pow2(w);
    var i := tableSize;
    ColumnZero(w);
    forall k: nat | k < tableSize ensures Shr(k, w) == 0 { FirstRow(k, w); }
    while i < t.Length
      invariant tableSize <= i && i % 2 == 0 && Low(i, w) == 0 && Shr(i, w) % 2 == 1
      invariant forall k :: 0 <= k < t.Length && k % 2 == 1 ==> Entry(g, x, y, w, k, t[k])
      invariant forall k :: i <= k < t.Length && Low(k, w) == 0 && Shr(k, w) % 2 == 1 ==> Entry(g, x, y, w, k, t[k])
      invariant forall k :: 0 <= k < t.Length && Shr(k, w) % 2 == 1 && k < i ==> Entry(g, x, y, w, k, t[k])
    {
      RowFits(i, w);
      FillRow(g, x, y, w, t, i);
      NextOddRow(i, w);
      i := i + 2 * tableSize;
    }
  }

  lemma NextOddRow(i: nat, w: nat)
    requires Low(i, w) == 0 && Shr(i, w) % 2 == 1
    ensures Low(i + 2 * Pow2(w), w) == 0 && Shr(i + 2 * Pow2(w), w) % 2 == 1
    ensures forall k :: i + Pow2(w) <= k < i + 2 * Pow2(w) ==> Shr(k, w) % 2 == 0
  {
    NextRow(i, w);
    NextRow(i + Pow2(w), w);
    forall k | i + Pow2(w) <= k < i + 2 * Pow2(w) ensures Shr(k, w) == Shr(i, w) + 1 {
      InRow(i + Pow2(w), k - i - Pow2(w), w);
    }
  }

  /** `junk` is whatever a default-constructed element holds: no entry that is read keeps it. */
  method FillTable<T(!new)>(g: Group<T>, x: T, y: T, w: nat, junk: T) returns (t: array<T>)
    requires Abelian(g) && w >= 2
    ensures fresh(t) && TableReady(g, x, y, w, t[..])
  {
    hide Combination, Low, Shr, Shl, Pow2, Entry;
    var tableSize := Pow2(w);
    TableShape(w);
    t := new T[Shl(tableSize, w)](_ => junk);
    t[1] := x;
    t[tableSize] := y;
    t[2] := g.Double(x);
    t[2 * tableSize] := g.Double(y);
    FirstEntries(g, x, y, w);
    CombinationUnits(g, x, y);
    forall k: nat ensures Low(k, w) % 2 == k % 2 { Parity(k, w); }
    FillFirstRow(g, x, y, w, t);
    FillColumns(g, x, y, w, t);
    FillFirstColumn(g, x, y, w, t);
    FillRows(g, x, y, w, t);
  }

  lemma RowFits(i: nat, w: nat)
    requires Low(i, w) == 0 && i < Shl(Pow2(w), w)
    ensures i + Pow2(w) <= Shl(Pow2(w), w)
  {
    Split(i, w);
    ShlOrder(Shr(i, w), Pow2(w), w);
    ShlAdd(Shr(i, w), 1, w);
    ShlPow2(w);
    ShlOrder(Shr(i, w) + 1, Pow2(w), w);
  }

  /** The same for w = 1, where three entries are everything. */
  method SmallTable<T(!new)>(g: Group<T>, x: T, y: T, junk: T) returns (t: array<T>)
    requires Abelian(g)
    ensures fresh(t) && TableReady(g, x, y, 1, t[..])
  {
    t := new T[4](_ => junk);
    t[1] := x;
    t[2] := y;
    t[3] := g.Add(x, y);
    CombinationUnits(g, x, y);
    CombinationAdd(g, x, y, 1, 0, 0, 1);
    assert Pow2(1) == 2 && Shl(2, 1) == 4;
    forall k | 0 <= k < 4 && (k % 2 == 1 || Shr(k, 1) % 2 == 1) ensures Entry(g, x, y, 1, k, t[k]) {
      assert Low(k, 1) == k % 2 && Shr(k, 1) == k / 2;
    }
  }

  // ---------- The main loop ----------

  method DoubleTimes<T(!new)>(g: Group<T>, ghost x: T, ghost y: T, r: T, n: nat, ghost a: int, ghost b: int) returns (r': T)
    requires Abelian(g) && r == Combination(g, x, y, a, b)
    ensures r' == Combination(g, x, y, Shl(a, n), Shl(b, n))
  {
    hide Combination;
    r' := r;
    for i := 0 to n
      invariant r' == Combination(g, x, y, Shl(a, i), Shl(b, i))
    {
      CombinationAdd(g, x, y, Shl(a, i), Shl(b, i), Shl(a, i), Shl(b, i));
      r' := g.Double(r');
    }
  }

  /** Takes common factors of two out of a window pair, so that the squarings they
      stand for come after the addition. There are never more of them than the
      positions the window spans: `squaresBefore` stays a natural number. */
  method TakeOutTwos(p1: nat, p2: nat, squares: nat) returns (power1: nat, power2: nat, squaresBefore: nat, squaresAfter: nat)
    requires p1 < Pow2(squares + 1) && p2 < Pow2(squares + 1)
    ensures Shl(power1, squaresAfter) == p1 && Shl(power2, squaresAfter) == p2
    ensures squaresBefore + squaresAfter == squares
    ensures power1 <= p1 && power2 <= p2
    ensures (p1 == 0 && p2 == 0) || power1 % 2 == 1 || power2 % 2 == 1
    ensures p1 == 0 && p2 == 0 ==> power1 == 0 && power2 == 0 && squaresAfter == 0
  {
    power1, power2, squaresBefore, squaresAfter := p1, p2, squares, 0;
    while (power1 != 0 || power2 != 0) && power1 % 2 == 0 && power2 % 2 == 0
      invariant Shl(power1, squaresAfter) == p1 && Shl(power2, squaresAfter) == p2
      invariant squaresBefore + squaresAfter == squares
      invariant power1 <= p1 && power2 <= p2
      invariant (power1 == 0 && power2 == 0) <==> (p1 == 0 && p2 == 0)
      invariant p1 == 0 && p2 == 0 ==> squaresAfter == 0
      decreases power1 + power2
    {
      HalfShift(power1, squaresAfter);
      HalfShift(power2, squaresAfter);
      HalvingFits(power1, p1, squaresAfter, squares);
      HalvingFits(power2, p2, squaresAfter, squares);
      power1 := power1 / 2;
      power2 := power2 / 2;
      squaresBefore := squaresBefore - 1;
      squaresAfter := squaresAfter + 1;
    }
  }

  lemma HalfShift(v: nat, k: nat)
    requires v % 2 == 0
    ensures Shl(v / 2, k + 1) == Shl(v, k)
  {
    ShlShl(v / 2, 1, k);
    assert Shl(v / 2, 1) == v;
  }

  lemma HalvingFits(v: nat, p: nat, k: nat, squares: nat)
    requires Shl(v, k) == p < Pow2(squares + 1) && k <= squares
    ensures v >= 2 ==> k < squares
  {
    if v >= 2 {
      ShlOrder(2, v, k);
      Pow2Split(1, k);
      assert Pow2(1) == 2;
    }
  }

  /** The bits of e from `position` up are those from `top` up followed by `power`. */
  ghost predicate ReadSoFar(e: nat, top: nat, position: nat, power: nat) {
    position <= top && Shr(e, position) == Shl(Shr(e, top), top - position) + power && power < Pow2(top - position)
  }

  lemma ReadBit(e: nat, top: nat, i: nat, power: nat)
    requires i < top && ReadSoFar(e, top, i + 1, power)
    ensures ReadSoFar(e, top, i, 2 * power + GetBit(e, i))
  {
    ShrStep(e, i);
    var n := top - (i + 1);
    assert Shl(Shr(e, top), n + 1) == 2 * Shl(Shr(e, top), n);
    assert Pow2(n + 1) == 2 * Pow2(n);
  }

  lemma {:induction false} FirstBit(e: nat, i: nat)
    requires Pow2(i) <= e
    ensures Shr(e, i) > 0
  {
    if i > 0 { FirstBit(e / 2, i - 1); }
  }

  lemma Regroup(a: int, p: int, before: nat, after: nat)
    ensures Shl(Shl(a, before) + p, after) == Shl(a, before + after) + Shl(p, after)
  {
    ShlAdd(Shl(a, before), p, after);
    ShlShl(a, before, after);
  }

  method LookUp<T(!new)>(g: Group<T>, ghost x: T, ghost y: T, w: nat, powerTable: array<T>, power1: nat, power2: nat)
      returns (v: T)
    requires TableReady(g, x, y, w, powerTable[..])
    requires power1 < Pow2(w) && power2 < Pow2(w) && w > 0 && (power1 % 2 == 1 || power2 % 2 == 1)
    ensures v == Combination(g, x, y, power1, power2)
  {
    Join(power1, power2, w);
    Parity(Shl(power2, w) + power1, w);
    ShlAdd(power2, 1, w);
    ShlPow2(w);
    ShlOrder(power2 + 1, Pow2(w), w);
    v := powerTable[Shl(power2, w) + power1];
    assert v == powerTable[..][Shl(power2, w) + power1];
  }

  /** What the main loop does with a finished window pair (lines 142-165). */
  method FlushWindow<T(!new)>(g: Group<T>, ghost x: T, ghost y: T, w: nat, powerTable: array<T>, ghost e1: nat, ghost e2: nat,
                              ghost top: nat, prevPosition: nat, i: nat, p1: nat, p2: nat, firstTime: bool, r: T)
    returns (result: T)
    requires Abelian(g) && w > 0 && TableReady(g, x, y, w, powerTable[..])
    requires i <= prevPosition && top == (if firstTime then prevPosition + 1 else prevPosition)
    requires ReadSoFar(e1, top, i, p1) && ReadSoFar(e2, top, i, p2) && p1 < Pow2(w) && p2 < Pow2(w)
    requires if firstTime then Shr(e1, top) == 0 == Shr(e2, top) && (p1 > 0 || p2 > 0)
             else r == Combination(g, x, y, Shr(e1, top), Shr(e2, top))
    ensures result == Combination(g, x, y, Shr(e1, i), Shr(e2, i))
  {
    hide Combination, TableReady, Shl, Shr;
    Pow2Mono(top - i, prevPosition - i + 1);
    var power1, power2, squaresBefore, squaresAfter := TakeOutTwos(p1, p2, prevPosition - i);
    ghost var a, b := Shr(e1, top), Shr(e2, top);
    if firstTime {
      result := LookUp(g, x, y, w, powerTable, power1, power2);
      result := DoubleTimes(g, x, y, result, squaresAfter, power1, power2);
      ShlZero(top - i);
    } else {
      result := DoubleTimes(g, x, y, r, squaresBefore, a, b);
      if power1 != 0 || power2 != 0 {
        var v := LookUp(g, x, y, w, powerTable, power1, power2);
        CombinationAdd(g, x, y, Shl(a, squaresBefore), Shl(b, squaresBefore), power1, power2);
        result := g.Add(result, v);
      }
      Regroup(a, power1, squaresBefore, squaresAfter);
      Regroup(b, power2, squaresBefore, squaresAfter);
      result := DoubleTimes(g, x, y, result, squaresAfter, Shl(a, squaresBefore) + power1, Shl(b, squaresBefore) + power2);
    }
  }

  /** The table for either kind of window. */
  method MakeTable<T(!new)>(g: Group<T>, x: T, y: T, w: nat, junk: T) returns (t: array<T>)
    requires Abelian(g) && w >= 1
    ensures fresh(t) && TableReady(g, x, y, w, t[..])
  {
    hide TableReady;
    if w == 1 {
      t := SmallTable(g, x, y, junk);
    } else {
      t := FillTable(g, x, y, w, junk);
    }
  }

  /** e1·x + e2·y in any abelian group, for every pair of exponents and so for every
      window width the code picks, whatever unset table entries and an unset result hold. */
  method CascadeScalarMultiply<T(!new)>(g: Group<T>, x: T, e1: nat, y: T, e2: nat, junk: T) returns (result: T)
    requires Abelian(g)
    ensures result == Combination(g, x, y, e1, e2)
  {
    hide Combination, TableReady, ReadSoFar, Shl, Shr, Pow2, BitCount;
    var expLen := if BitCount(e1) > BitCount(e2) then BitCount(e1) else BitCount(e2);
    ReadNothing(e1, expLen);
    ReadNothing(e2, expLen);
    if expLen == 0 {
      CombinationUnits(g, x, y);
      return g.identity;
    }

    var w := if expLen <= 46 then 1 else if expLen <= 260 then 2 else 3;
    var tableSize := Pow2(w);
    Pow2Even(w);
    var powerTable := MakeTable(g, x, y, w, junk);

    result := junk;
    var power1: nat, power2: nat, prevPosition: nat := 0, 0, expLen - 1;
    var firstTime := true;
    ghost var top: nat := expLen;
    var i := expLen - 1;
    while i >= 0
      invariant -1 <= i < top
      invariant TableReady(g, x, y, w, powerTable[..])
      invariant top == (if firstTime then prevPosition + 1 else prevPosition)
      invariant ReadSoFar(e1, top, i + 1, power1) && ReadSoFar(e2, top, i + 1, power2)
      invariant 2 * power1 < tableSize && 2 * power2 < tableSize
      invariant firstTime ==> top == expLen && i >= 0
      invariant !firstTime ==> result == Combination(g, x, y, Shr(e1, top), Shr(e2, top))
      invariant i < 0 ==> top == 0
    {
      ReadBit(e1, top, i, power1);
      ReadBit(e2, top, i, power2);
      power1 := 2 * power1 + GetBit(e1, i);
      power2 := 2 * power2 + GetBit(e2, i);

      if i == 0 || 2 * power1 >= tableSize || 2 * power2 >= tableSize {
        if firstTime {
          TopBitOfEither(e1, e2, expLen, i, power1, power2);
        }
        result := FlushWindow(g, x, y, w, powerTable, e1, e2, top, prevPosition, i, power1, power2, firstTime, result);
        firstTime := false;
        prevPosition := i;
        top := i;
        power1, power2 := 0, 0;
        ReadAll(e1, i);
        ReadAll(e2, i);
      }
      i := i - 1;
    }
    ReadWhole(e1);
    ReadWhole(e2);
  }

  lemma ReadNothing(e: nat, n: nat)
    requires BitCount(e) <= n
    ensures ReadSoFar(e, n, n, 0) && Shr(e, n) == 0 && (n == 0 ==> e == 0)
  {
    ShiftOut(e, n);
  }

  lemma ReadAll(e: nat, i: nat)
    ensures ReadSoFar(e, i, i, 0)
  {
  }

  lemma ReadWhole(e: nat)
    ensures Shr(e, 0) == e
  {
  }

  /** The top bit of the longer exponent is in the first window pair. */
  lemma TopBitRead(e: nat, i: nat, p: nat)
    requires i < BitCount(e) && ReadSoFar(e, BitCount(e), i, p)
    ensures p > 0
  {
    var n := BitCount(e);
    ShiftOut(e, n);
    ShlZero(n - i);
    Pow2Mono(i, n - 1);
    BitCountBounds(e);
    FirstBit(e, i);
  }

  lemma TopBitOfEither(e1: nat, e2: nat, expLen: nat, i: nat, power1: nat, power2: nat)
    requires expLen == if BitCount(e1) > BitCount(e2) then BitCount(e1) else BitCount(e2)
    requires i < expLen && ReadSoFar(e1, expLen, i, power1) && ReadSoFar(e2, expLen, i, power2)
    ensures power1 > 0 || power2 > 0
  {
    hide ReadSoFar, BitCount;
    if expLen == BitCount(e1) {
      TopBitRead(e1, i, power1);
    } else {
      TopBitRead(e2, i, power2);
    }
  }
}
