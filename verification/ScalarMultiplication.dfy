/** `AbstractGroup::SimultaneousMultiply` and `ScalarMultiply` of algebra.cpp:
    several multiples of one base from one chain of doublings, by collecting the
    powers of two that share a digit in a bucket for that digit. */
module ScalarMultiplication {
  import opened Numbers
  import opened Groups
  import opened WindowSliders

  // The ghost counts c say which multiple of the base each bucket holds.
  ghost predicate Tracks<T>(g: Group<T>, base: T, bucket: seq<T>, c: seq<int>) {
    |bucket| == |c| && forall j :: 0 <= j < |c| ==> bucket[j] == Mul(g, c[j], base)
  }

  /** (2t + 1)·x, by repeated addition. */
  ghost function OddTimes(t: nat, x: int): int {
    if t == 0 then x else OddTimes(t - 1, x) + 2 * x
  }

  /** What the buckets from t on are worth: bucket k counts 2k+1 times. */
  ghost function Weighted(c: seq<int>, t: nat): int
    requires t <= |c|
    decreases |c| - t
  {
    if t == |c| then 0 else OddTimes(t, c[t]) + Weighted(c, t + 1)
  }

  ghost function Tail(c: seq<int>, t: nat): int
    requires t <= |c|
    decreases |c| - t
  {
    if t == |c| then 0 else c[t] + Tail(c, t + 1)
  }

  ghost function TailSum(c: seq<int>, t: nat): int
    requires t <= |c|
    decreases |c| - t
  {
    if t == |c| then 0 else Tail(c, t) + TailSum(c, t + 1)
  }

  lemma {:induction false} OddTimesAdd(t: nat, x: int, y: int)
    ensures OddTimes(t, x + y) == OddTimes(t, x) + OddTimes(t, y)
  {
    if t > 0 { OddTimesAdd(t - 1, x, y); }
  }

  /** Why adding up suffix sums weighs bucket k by 2k+1. */
  lemma {:induction false} WeightedByTails(c: seq<int>, t: nat)
    requires t < |c|
    ensures Weighted(c, t) == OddTimes(t, Tail(c, t)) + 2 * TailSum(c, t + 1)
    decreases |c| - t
  {
    OddTimesAdd(t, c[t], Tail(c, t + 1));
    if t + 1 < |c| {
      WeightedByTails(c, t + 1);
    } else {
      OddTimesAdd(t, 0, 0);
    }
  }

  lemma {:induction false} WeightedBump(c: seq<int>, t: nat, j: nat, d: int)
    requires t <= |c| && j < |c|
    ensures Weighted(c[j := c[j] + d], t) == Weighted(c, t) + if t <= j then OddTimes(j, d) else 0
    decreases |c| - t
  {
    if t < |c| {
      WeightedBump(c, t + 1, j, d);
      OddTimesAdd(j, c[j], d);
    }
  }

  lemma {:induction false} WeightedZeros(c: seq<int>, t: nat)
    requires t <= |c| && forall j :: 0 <= j < |c| ==> c[j] == 0
    ensures Weighted(c, t) == 0
    decreases |c| - t
  {
    if t < |c| {
      WeightedZeros(c, t + 1);
      OddTimesAdd(t, 0, 0);
    }
  }

  /** The last loop of `SimultaneousMultiply`, for one exponent. */
  method Collapse<T(!new)>(g: Group<T>, ghost base: T, bucket: seq<T>, ghost c: seq<int>) returns (r: T)
    requires Abelian(g) && Tracks(g, base, bucket, c) && |c| > 0
    ensures r == Mul(g, Weighted(c, 0), base)
  {
    hide Mul, Times;
    var n := |bucket|;
    var b := bucket;
    r := b[n - 1];
    WeightedByTails(c, 0);
    if n > 1 {
      assert Tail(c, n) == 0 && TailSum(c, n) == 0;
      assert Tail(c, n - 1) == c[n - 1] && TailSum(c, n - 1) == c[n - 1];
      var j := n - 2;
      while j >= 1
        invariant 0 <= j <= n - 2 && |b| == n
        invariant forall k :: 0 <= k <= j ==> b[k] == bucket[k]
        invariant b[j + 1] == Mul(g, Tail(c, j + 1), base)
        invariant r == Mul(g, TailSum(c, j + 1), base)
      {
        MulAdd(g, c[j], Tail(c, j + 1), base);
        b := b[j := g.Add(b[j], b[j + 1])];
        MulAdd(g, TailSum(c, j + 1), Tail(c, j), base);
        r := g.Add(r, b[j]);
        j := j - 1;
      }
      MulAdd(g, c[0], Tail(c, 1), base);
      b := b[0 := g.Add(b[0], b[1])];
      MulAdd(g, TailSum(c, 1), TailSum(c, 1), base);
      MulAdd(g, 2 * TailSum(c, 1), Tail(c, 0), base);
      r := g.Add(g.Double(r), b[0]);
    }
  }

  /** One exponent under way: its buckets hold the counted multiples of the base, and
      what they are worth plus what the slider still owes is the exponent. */
  ghost predicate UnderWay<T>(g: Group<T>, base: T, s: WindowSlider, bucket: seq<T>, c: seq<int>, e: nat)
    reads s
  {
    && s.Valid() && !s.firstTime
    && |bucket| == Pow2(s.windowSize - 1)
    && Tracks(g, base, bucket, c)
    && Weighted(c, 0) + Shl(s.Owed(), s.windowBegin) == e
  }

  method Start<T(!new)>(g: Group<T>, inversionIsFast: bool, wordBits: nat, ghost base: T, exponent: nat)
    returns (s: WindowSlider, bucket: seq<T>, ghost c: seq<int>)
    requires Abelian(g) && wordBits > 0
    ensures fresh(s) && UnderWay(g, base, s, bucket, c, exponent)
  {
    hide Mul, Times;
    MulZero(g, base);
    s := new WindowSlider(wordBits, exponent, inversionIsFast);
    s.FindNextWindow();
    var size := Pow2(s.windowSize - 1);
    bucket := seq(size, _ => g.identity);
    c := seq(size, _ => 0);
    WeightedZeros(c, 0);
    ShlZero(s.windowBegin);
  }

  /** Adds the current power of the base, or its inverse, to the bucket of the current
      digit, and moves the slider on. */
  method Deposit<T(!new)>(g: Group<T>, ghost base: T, s: WindowSlider, bucket: seq<T>, ghost c: seq<int>, ghost e: nat, p: T)
    returns (bucket': seq<T>, ghost c': seq<int>)
    requires Abelian(g) && UnderWay(g, base, s, bucket, c, e) && !s.finished
    requires p == Mul(g, Pow2(s.windowBegin), base)
    modifies s
    ensures UnderWay(g, base, s, bucket', c', e)
    ensures !s.finished ==> s.windowBegin > old(s.windowBegin)
  {
    hide Mul, Times, Tracks, Weighted;
    ghost var at := s.windowBegin;
    ghost var digit, ahead := s.Digit(), s.Ahead();
    TracksAll(g, base, bucket, c);
    bucket', c' := Accumulate(g, base, bucket, c, s.expWindow / 2, s.negateNext, at, p);
    DigitShift(s.expWindow, s.negateNext, at);
    ShlAdd(digit, ahead, at);
    s.FindNextWindow();
    if s.finished {
      ShlZero(at);
      ShlZero(s.windowBegin);
    } else {
      ShlShl(s.Owed(), s.windowBegin - at, at);
    }
  }

  lemma TracksAll<T>(g: Group<T>, base: T, bucket: seq<T>, c: seq<int>)
    requires Tracks(g, base, bucket, c)
    ensures |bucket| == |c|
  {
  }

  /** The accumulation into bucket j, where p is the base times a power of two. */
  method Accumulate<T(!new)>(g: Group<T>, ghost base: T, bucket: seq<T>, ghost c: seq<int>, j: nat, negate: bool,
                             ghost at: nat, p: T)
      returns (bucket': seq<T>, ghost c': seq<int>)
    requires Abelian(g) && Tracks(g, base, bucket, c) && j < |bucket| == |c| && p == Mul(g, Pow2(at), base)
    ensures Tracks(g, base, bucket', c') && |bucket'| == |bucket|
    ensures Weighted(c', 0) == Weighted(c, 0) + OddTimes(j, Shl(if negate then -1 else 1, at))
  {
    hide Mul, Times;
    ghost var d := Shl(if negate then -1 else 1, at);
    ShlPow2(at);
    ShlNeg(1, at);
    MulAdd(g, c[j], d, base);
    if negate {
      MulNeg(g, Pow2(at), base);
      bucket' := bucket[j := g.Add(bucket[j], g.Inverse(p))];
    } else {
      bucket' := bucket[j := g.Add(bucket[j], p)];
    }
    c' := c[j := c[j] + d];
    WeightedBump(c, 0, j, d);
  }

  /** The digit w at position `at` is worth w = 2(w/2) + 1 copies of that power of two. */
  lemma {:induction false} DigitShift(w: nat, negate: bool, at: nat)
    requires w % 2 == 1
    ensures Shl(if negate then -(w as int) else w, at) == OddTimes(w / 2, Shl(if negate then -1 else 1, at))
  {
    var unit := if negate then -1 else 1;
    if w > 1 {
      DigitShift(w - 2, negate, at);
      ShlAdd(unit, unit, at);
      ShlAdd(if negate then -((w - 2) as int) else w - 2, unit + unit, at);
    }
  }

  ghost predicate AllUnderWay<T>(g: Group<T>, base: T, sliders: seq<WindowSlider>, buckets: seq<seq<T>>,
                                 counts: seq<seq<int>>, exponents: seq<nat>, bound: int)
    reads sliders
  {
    && |sliders| == |buckets| == |counts| == |exponents|
    && (forall k, l :: 0 <= k < l < |sliders| ==> sliders[k] != sliders[l])
    && (forall k :: 0 <= k < |sliders| ==> UnderWay(g, base, sliders[k], buckets[k], counts[k], exponents[k]))
    && (forall k :: 0 <= k < |sliders| ==> sliders[k].limit <= bound)
  }

  /** The first loop of `SimultaneousMultiply`. */
  method StartAll<T(!new)>(g: Group<T>, inversionIsFast: bool, wordBits: nat, ghost base: T, exponents: seq<nat>)
    returns (sliders: seq<WindowSlider>, buckets: seq<seq<T>>, ghost counts: seq<seq<int>>, ghost bound: int)
    requires Abelian(g) && wordBits > 0
    ensures AllUnderWay(g, base, sliders, buckets, counts, exponents, bound)
    ensures fresh(set s | s in sliders)
  {
    hide UnderWay, Mul, Times;
    sliders, buckets, counts, bound := [], [], [], 0;
    for i := 0 to |exponents|
      invariant AllUnderWay(g, base, sliders, buckets, counts, exponents[..i], bound)
      invariant fresh(set s | s in sliders)
    {
      var s, bucket, c := Start(g, inversionIsFast, wordBits, base, exponents[i]);
      sliders := sliders + [s];
      buckets := buckets + [bucket];
      counts := counts + [c];
      bound := if bound < s.limit then s.limit else bound;
    }
    assert exponents[..|exponents|] == exponents;
  }

  /** No digit has been passed over: every unfinished slider from i on is at `position` or beyond. */
  ghost predicate NoneBehind(sliders: seq<WindowSlider>, i: nat, position: nat)
    reads sliders
  {
    forall k :: i <= k < |sliders| && !sliders[k].finished ==> position <= sliders[k].windowBegin
  }

  lemma BeginsWithinLimit<T>(g: Group<T>, base: T, s: WindowSlider, bucket: seq<T>, c: seq<int>, e: nat)
    requires UnderWay(g, base, s, bucket, c, e)
    ensures s.windowBegin <= s.limit
  {
  }

  /** One round of the second loop: every digit that starts at this bit position is used. */
  method DepositAll<T(!new)>(g: Group<T>, ghost base: T, sliders: seq<WindowSlider>, buckets: seq<seq<T>>,
                             ghost counts: seq<seq<int>>, ghost exponents: seq<nat>, ghost bound: int,
                             expBitPosition: nat, p: T)
    returns (buckets': seq<seq<T>>, ghost counts': seq<seq<int>>, notDone: bool)
    requires Abelian(g) && AllUnderWay(g, base, sliders, buckets, counts, exponents, bound)
    requires NoneBehind(sliders, 0, expBitPosition) && p == Mul(g, Pow2(expBitPosition), base)
    modifies sliders
    ensures AllUnderWay(g, base, sliders, buckets', counts', exponents, bound)
    ensures NoneBehind(sliders, 0, expBitPosition + 1)
    ensures notDone ==> expBitPosition < bound
    ensures !notDone ==> forall k :: 0 <= k < |sliders| ==> sliders[k].finished
  {
    hide Mul, Times, UnderWay;
    buckets', counts', notDone := buckets, counts, false;
    for i := 0 to |sliders|
      invariant AllUnderWay(g, base, sliders, buckets', counts', exponents, bound)
      invariant NoneBehind(sliders, i, expBitPosition)
      invariant forall k :: 0 <= k < i && !sliders[k].finished ==> expBitPosition < sliders[k].windowBegin
      invariant notDone ==> expBitPosition < bound
      invariant !notDone ==> forall k :: 0 <= k < i ==> sliders[k].finished
    {
      var s := sliders[i];
      BeginsWithinLimit(g, base, s, buckets'[i], counts'[i], exponents[i]);
      if !s.finished && expBitPosition == s.windowBegin {
        var bucket, c := Deposit(g, base, s, buckets'[i], counts'[i], exponents[i], p);
        buckets' := buckets'[i := bucket];
        counts' := counts'[i := c];
        BeginsWithinLimit(g, base, s, bucket, c, exponents[i]);
      }
      notDone := notDone || !s.finished;
    }
  }

  /** The last loop of `SimultaneousMultiply`. */
  method CollapseAll<T(!new)>(g: Group<T>, ghost base: T, sliders: seq<WindowSlider>, buckets: seq<seq<T>>,
                              ghost counts: seq<seq<int>>, ghost exponents: seq<nat>, ghost bound: int)
    returns (results: seq<T>)
    requires Abelian(g) && AllUnderWay(g, base, sliders, buckets, counts, exponents, bound)
    requires forall k :: 0 <= k < |sliders| ==> sliders[k].finished
    ensures |results| == |exponents|
    ensures forall i :: 0 <= i < |exponents| ==> results[i] == Mul(g, exponents[i], base)
  {
    hide Mul, Times, Weighted;
    results := [];
    for i := 0 to |sliders|
      invariant |results| == i
      invariant forall k :: 0 <= k < i ==> results[k] == Mul(g, exponents[k], base)
    {
      assert UnderWay(g, base, sliders[i], buckets[i], counts[i], exponents[i]);
      ShlZero(sliders[i].windowBegin);
      var r := Collapse(g, base, buckets[i], counts[i]);
      results := results + [r];
    }
  }

  /** Every result is its exponent times the base, in any abelian group, whether or not
      the sliders may use negative digits. */
  method SimultaneousMultiply<T(!new)>(g: Group<T>, inversionIsFast: bool, wordBits: nat, base: T, exponents: seq<nat>)
    returns (results: seq<T>)
    requires Abelian(g) && wordBits > 0
    ensures |results| == |exponents|
    ensures forall i :: 0 <= i < |exponents| ==> results[i] == Mul(g, exponents[i], base)
  {
    hide Mul, Times, AllUnderWay;
    var sliders, buckets, counts, bound := StartAll(g, inversionIsFast, wordBits, base, exponents);

    var expBitPosition := 0;
    var p := base;
    var notDone := true;
    MulOne(g, base);
    while notDone
      invariant AllUnderWay(g, base, sliders, buckets, counts, exponents, bound)
      invariant fresh(set s | s in sliders)
      invariant NoneBehind(sliders, 0, expBitPosition)
      invariant p == Mul(g, Pow2(expBitPosition), base)
      invariant !notDone ==> forall k :: 0 <= k < |sliders| ==> sliders[k].finished
      decreases notDone, bound + 1 - expBitPosition
    {
      buckets, counts, notDone := DepositAll(g, base, sliders, buckets, counts, exponents, bound, expBitPosition, p);
      if notDone {
        assert g.Double(p) == Mul(g, Pow2(expBitPosition + 1), base) by {
          MulAdd(g, Pow2(expBitPosition), Pow2(expBitPosition), base);
        }
        p := g.Double(p);
        expBitPosition := expBitPosition + 1;
      }
    }

    results := CollapseAll(g, base, sliders, buckets, counts, exponents, bound);
  }

  method ScalarMultiply<T(!new)>(g: Group<T>, inversionIsFast: bool, wordBits: nat, base: T, exponent: nat) returns (r: T)
    requires Abelian(g) && wordBits > 0
    ensures r == Mul(g, exponent, base)
  {
    var results := SimultaneousMultiply(g, inversionIsFast, wordBits, base, [exponent]);
    r := results[0];
  }
}
