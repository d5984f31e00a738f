/** `WindowSlider` of algebra.cpp: an exponent read from its low end as signed
    odd digits, each with the bit position it is worth. */
module WindowSliders {
  import opened Arithmetic
  import opened Numbers

  /** `Integer::WordCount` for words of the given width. */
  function WordCount(e: nat, wordBits: nat): nat
    requires wordBits > 0
  {
    (BitCount(e) + wordBits - 1) / wordBits
  }

  function DefaultWindowSize(expLen: nat): nat {
    if expLen <= 17 then 1 else if expLen <= 24 then 2 else if expLen <= 70 then 3
    else if expLen <= 197 then 4 else if expLen <= 539 then 5 else if expLen <= 1434 then 6 else 7
  }

  class WindowSlider {
    const wordBits: nat
    var exp: nat
    var windowModulus: nat
    var windowSize: nat
    var windowBegin: nat
    var expWindow: nat
    var fastNegate: bool
    var negateNext: bool
    var firstTime: bool
    var finished: bool

    // No digit starts beyond this position.
    ghost const limit: nat

    /** The signed digit at `windowBegin`. */
    ghost function Digit(): int
      reads this
    {
      if negateNext then -(expWindow as int) else expWindow
    }

    /** What the exponent holds beyond the current digit, in units of 2^windowBegin. */
    ghost function Ahead(): int
      reads this
    {
      if firstTime then exp else if finished then 0 else Shl(Shr(exp, windowSize), windowSize)
    }

    /** What the exponent still owes, current digit included, in units of 2^windowBegin. */
    ghost function Owed(): int
      reads this
    {
      if firstTime then exp else if finished then 0 else Digit() + Ahead()
    }

    ghost predicate Valid()
      reads this
    {
      && wordBits > 0
      && windowSize > 0
      && windowModulus == Pow2(windowSize)
      && windowBegin <= limit
      && Ahead() <= Pow2(limit - windowBegin)
      && (firstTime ==> !finished && windowBegin == 0)
      && (!firstTime && !finished ==> expWindow % 2 == 1 && expWindow < windowModulus)
    }

    constructor (wordBits: nat, expIn: nat, fastNegate: bool, windowSizeIn: nat := 0)
      requires wordBits > 0
      ensures Valid() && firstTime && exp == expIn && this.fastNegate == fastNegate
      ensures windowSize == if windowSizeIn == 0 then DefaultWindowSize(BitCount(expIn)) else windowSizeIn
    {
      this.wordBits := wordBits;
      exp := expIn;
      windowModulus := 1;
      windowSize := windowSizeIn;
      windowBegin := 0;
      expWindow := 0;
      this.fastNegate := fastNegate;
      negateNext := false;
      firstTime := true;
      finished := false;
      limit := BitCount(expIn);
      new;
      if windowSize == 0 {
        var expLen := BitCount(exp);
        windowSize := DefaultWindowSize(expLen);
      }
      ShlPow2(windowSize);
      windowModulus := Shl(windowModulus, windowSize);
      BitCountBounds(expIn);
    }

    /** Moves to the next digit. What was owed beyond the old digit is exactly
        what is owed now, at the new position; no digit is lost at the end. */
    method FindNextWindow()
      requires Valid() && !finished
      modifies this
      ensures Valid() && !firstTime
      ensures windowSize == old(windowSize) && fastNegate == old(fastNegate)
      ensures finished <==> old(Ahead()) == 0
      ensures !finished ==> windowBegin >= old(windowBegin) + (if old(firstTime) then 0 else windowSize)
      ensures !finished ==> old(Ahead()) == Shl(Owed(), windowBegin - old(windowBegin))
      ensures !finished && negateNext ==> fastNegate
    {
      var expLen := WordCount(exp, wordBits) * wordBits;
      WordsCover(exp, wordBits);
      var skipCount := if firstTime then 0 else windowSize;
      ghost var start, ahead := skipCount, Ahead();
      assert ahead == Shl(Shr(exp, start), start);
      hide WordCount;
      firstTime := false;
      while GetBit(exp, skipCount) == 0
        invariant start <= skipCount
        invariant unchanged(`exp, `windowSize, `windowModulus, `windowBegin, `fastNegate, `finished) && !firstTime
        invariant ahead == Shl(Shr(exp, skipCount), skipCount)
        decreases expLen + 1 - skipCount
      {
        if skipCount >= expLen {
          ShiftOut(exp, skipCount);
          ShlZero(skipCount);
          finished := true;
          return;
        }
        SkipZero(exp, skipCount);
        skipCount := skipCount + 1;
      }

      Landing(ahead, Shr(exp, skipCount), skipCount, limit - windowBegin);
      exp := Shr(exp, skipCount);
      windowBegin := windowBegin + skipCount;
      TakeDigit();
    }

    /** The end of `FindNextWindow`: the window at the low end of an odd value becomes
        the digit, and the value is adjusted when the digit is negative. */
    method TakeDigit()
      requires windowSize > 0 && windowModulus == Pow2(windowSize) && wordBits > 0
      requires !firstTime && !finished && exp % 2 == 1
      requires windowBegin <= limit && exp <= Pow2(limit - windowBegin)
      modifies this`exp, this`expWindow, this`negateNext
      ensures Valid() && Owed() == old(exp)
      ensures negateNext ==> fastNegate
    {
      TakeWindow(exp, windowSize, limit - windowBegin);
      expWindow := Low(exp, windowSize);
      if fastNegate && GetBit(exp, windowSize) == 1 {
        negateNext := true;
        expWindow := Pow2(windowSize) - expWindow;
        exp := exp + windowModulus;
      } else {
        negateNext := false;
      }
    }
  }

  lemma SkipZero(e: nat, s: nat)
    requires GetBit(e, s) == 0
    ensures Shl(Shr(e, s), s) == Shl(Shr(e, s + 1), s + 1)
  {
    ShrStep(e, s);
    ShlShl(Shr(e, s + 1), 1, s);
    assert Shl(Shr(e, s + 1), 1) == 2 * Shr(e, s + 1);
  }

  /** A value of at most 2^m whose lowest one bit is bit s leaves room for s. */
  lemma Landing(ahead: int, v: nat, s: nat, m: nat)
    requires ahead == Shl(v, s) && v > 0 && ahead <= Pow2(m)
    ensures s <= m && v <= Pow2(m - s) && ahead > 0
  {
    assert Pow2(m + 1) == 2 * Pow2(m);
    ShlOrder(1, v, s);
    ShlPow2(s);
    if s > m {
      Pow2Mono(m + 1, s);
    } else {
      Pow2Split(m - s, s);
      ShlOrder(v, Pow2(m - s), s);
    }
  }

  /** Both ways of cutting a window off an odd value: an odd digit and what is left. */
  lemma TakeWindow(v: nat, w: nat, m: nat)
    requires v % 2 == 1 && w > 0 && v <= Pow2(m)
    ensures Low(v, w) < Pow2(w) && Low(v, w) % 2 == 1 && (Pow2(w) - Low(v, w)) % 2 == 1
    ensures v == Low(v, w) + Shl(Shr(v, w), w) && Shl(Shr(v, w), w) <= Pow2(m)
    ensures GetBit(v, w) == 1 ==>
      var left := Shl(Shr(v + Pow2(w), w), w);
      v == left - (Pow2(w) - Low(v, w)) && left <= Pow2(m)
  {
    Split(v, w);
    OddDigit(v, w);
    if Shr(v, w) > 0 {
      BorrowFits(v, Shr(v, w), w, m);
      ShrAddModulus(v, w);
    } else {
      ShlZero(w);
    }
  }

  lemma OddDigit(v: nat, w: nat)
    requires v % 2 == 1 && w > 0
    ensures Low(v, w) % 2 == 1 && (Pow2(w) - Low(v, w)) % 2 == 1
  {
    assert Pow2(w) == 2 * Pow2(w - 1);
  }

  /** Borrowing 2^w keeps the value and, although it adds to the exponent, never
      carries it past the power of two that bounded it. */
  lemma BorrowFits(v: nat, q: nat, w: nat, m: nat)
    requires q > 0 && Shl(q, w) < v <= Pow2(m)
    ensures Shl(q + 1, w) == Shl(q, w) + Pow2(w) <= Pow2(m)
  {
    ShlAdd(q, 1, w);
    ShlPow2(w);
    ShlOrder(1, q, w);
    if m < w {
      Pow2Mono(m, w);
    } else {
      Pow2Split(m - w, w);
      ShlOrder(q, Pow2(m - w), w);
      ShlOrder(q + 1, Pow2(m - w), w);
    }
  }

  lemma WordsCover(e: nat, wordBits: nat)
    requires wordBits > 0
    ensures BitCount(e) <= WordCount(e, wordBits) * wordBits
  {
    hide BitCount;
    RoundedUp(BitCount(e), wordBits);
  }

  lemma RoundedUp(n: nat, d: nat)
    requires d > 0
    ensures n <= (n + d - 1) / d * d
  {
    Fundamental(n + d - 1, d);
    MulCommutes(d, (n + d - 1) / d);
  }
}
