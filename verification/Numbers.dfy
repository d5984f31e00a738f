/** Bits of the non-negative `Integer`s that the other modules use. Shifts are
    defined one bit at a time, so that their laws are linear. */
module Numbers {
  import opened Arithmetic

  function Pow2(n: nat): (r: nat)
    ensures r >= 1
  {
    if n == 0 then 1 else 2 * Pow2(n - 1)
  }

  /** x << n. */
  function Shl(x: int, n: nat): int {
    if n == 0 then x else 2 * Shl(x, n - 1)
  }

  /** The same of a number that is not negative. */
  function ShlNat(x: nat, n: nat): (r: nat)
    ensures r == Shl(x, n)
  {
    if n == 0 then x else 2 * ShlNat(x, n - 1)
  }

  /** e >> n. */
  function Shr(e: nat, n: nat): nat {
    if n == 0 then e else Shr(e / 2, n - 1)
  }

  /** e % (1 << n): the n lowest bits of e. */
  function Low(e: nat, n: nat): nat {
    if n == 0 then 0 else e % 2 + 2 * Low(e / 2, n - 1)
  }

  /** `Integer::BitCount`: the number of binary digits, none for zero. */
  function BitCount(e: nat): nat {
    if e == 0 then 0 else 1 + BitCount(e / 2)
  }

  /** `Integer::GetBit`. */
  function GetBit(e: nat, n: nat): (b: nat)
    ensures b < 2
  {
    Shr(e, n) % 2
  }

  lemma {:induction false} ShlAdd(x: int, y: int, n: nat)
    ensures Shl(x + y, n) == Shl(x, n) + Shl(y, n)
  {
    if n > 0 { ShlAdd(x, y, n - 1); }
  }

  lemma {:induction false} ShlNeg(x: int, n: nat)
    ensures Shl(-x, n) == -Shl(x, n)
  {
    if n > 0 { ShlNeg(x, n - 1); }
  }

  lemma {:induction false} ShlShl(x: int, m: nat, n: nat)
    ensures Shl(Shl(x, m), n) == Shl(x, m + n)
  {
    if n > 0 { ShlShl(x, m, n - 1); }
  }

  lemma {:induction false} ShlPow2(n: nat)
    ensures Shl(1, n) == Pow2(n)
  {
    if n > 0 { ShlPow2(n - 1); }
  }

  /** A left shift keeps and reflects the order. */
  lemma {:induction false} ShlOrder(x: int, y: int, n: nat)
    ensures x < y <==> Shl(x, n) < Shl(y, n)
    ensures x <= y <==> Shl(x, n) <= Shl(y, n)
  {
    if n > 0 { ShlOrder(x, y, n - 1); }
  }

  lemma ShlZero(n: nat)
    ensures Shl(0, n) == 0
  {
  }

  /** Cutting e at bit n loses nothing. */
  lemma {:induction false} Split(e: nat, n: nat)
    ensures e == Low(e, n) + Shl(Shr(e, n), n)
    ensures Low(e, n) < Pow2(n)
  {
    if n > 0 { Split(e / 2, n - 1); }
  }

  lemma {:induction false} ShrStep(e: nat, n: nat)
    ensures Shr(e, n + 1) == Shr(e, n) / 2
  {
    if n > 0 { ShrStep(e / 2, n - 1); }
  }

  lemma {:induction false} ShrAddModulus(e: nat, n: nat)
    ensures Shr(e + Pow2(n), n) == Shr(e, n) + 1
  {
    if n > 0 {
      assert (e + Pow2(n)) / 2 == e / 2 + Pow2(n - 1);
      ShrAddModulus(e / 2, n - 1);
    }
  }

  /** These shifts are the ones of C: division and remainder by a power of two. */
  lemma ShiftsAreDivisions(e: nat, n: nat)
    ensures Shr(e, n) == e / Pow2(n) && Low(e, n) == e % Pow2(n)
  {
    Split(e, n);
    ShlMul(Shr(e, n), n);
    DivModUnique(e, Pow2(n), Shr(e, n), Low(e, n));
  }

  lemma {:induction false} ShlMul(x: int, n: nat)
    ensures Shl(x, n) == Pow2(n) * x
  {
    if n > 0 { ShlMul(x, n - 1); }
  }

  lemma {:induction false} BitCountBounds(e: nat)
    ensures e < Pow2(BitCount(e))
    ensures e > 0 ==> BitCount(e) > 0 && Pow2(BitCount(e) - 1) <= e
  {
    if e > 0 { BitCountBounds(e / 2); }
  }

  lemma {:induction false} ShiftOut(e: nat, n: nat)
    requires BitCount(e) <= n
    ensures Shr(e, n) == 0
  {
    if n > 0 { ShiftOut(e / 2, n - 1); }
  }

  /** What a shift is tested against zero for. */
  lemma {:induction false} ShiftTest(e: nat, n: nat)
    ensures Shr(e, n) != 0 <==> e >= Pow2(n)
  {
    if n > 0 { ShiftTest(e / 2, n - 1); }
  }

  lemma {:induction false} Pow2Mono(m: nat, n: nat)
    requires m <= n
    ensures Pow2(m) <= Pow2(n)
  {
    if m < n { Pow2Mono(m, n - 1); }
  }

  lemma Pow2Even(n: nat)
    requires n > 0
    ensures Pow2(n) % 2 == 0
  {
  }

  lemma Pow2Split(m: nat, n: nat)
    ensures Pow2(m + n) == Shl(Pow2(m), n)
  {
    ShlPow2(m);
    ShlPow2(m + n);
    ShlShl(1, m, n);
  }

  // ---------- Exclusive or ----------

  /** Of the lowest binary digits. */
  function XorBit(a: nat, b: nat): (c: nat)
    ensures c < 2
  {
    if a % 2 == b % 2 then 0 else 1
  }

  /** The operator ^ of C on unsigned numbers. */
  function XorWord(a: nat, b: nat): nat
    decreases a + b
  {
    if a == 0 && b == 0 then 0 else 2 * XorWord(a / 2, b / 2) + XorBit(a, b)
  }

  lemma XorParts(a: nat, b: nat)
    ensures XorWord(a, b) / 2 == XorWord(a / 2, b / 2) && XorWord(a, b) % 2 == XorBit(a, b)
  {
  }

  lemma {:induction false} XorBound(a: nat, b: nat, n: nat)
    requires a < Pow2(n) && b < Pow2(n)
    ensures XorWord(a, b) < Pow2(n)
  {
    if n > 0 { XorBound(a / 2, b / 2, n - 1); }
  }

  lemma {:induction false} XorZeroWord(a: nat)
    ensures XorWord(a, 0) == a && XorWord(0, a) == a
  {
    if a > 0 { XorZeroWord(a / 2); }
  }

  lemma {:induction false} XorCommutes(a: nat, b: nat)
    ensures XorWord(a, b) == XorWord(b, a)
    decreases a + b
  {
    if a > 0 || b > 0 { XorCommutes(a / 2, b / 2); }
  }

  lemma {:induction false} XorAssociativeWord(a: nat, b: nat, c: nat)
    ensures XorWord(XorWord(a, b), c) == XorWord(a, XorWord(b, c))
    decreases a + b + c
  {
    hide XorBit;
    if a > 0 || b > 0 || c > 0 {
      var x, y := XorWord(a, b), XorWord(b, c);
      XorAssociativeWord(a / 2, b / 2, c / 2);
      XorParts(a, b);
      XorParts(b, c);
      XorBitAssociative(a, b, c, x, y);
      XorParts(x, c);
      XorParts(a, y);
    }
  }

  lemma XorBitAssociative(a: nat, b: nat, c: nat, x: nat, y: nat)
    requires x % 2 == XorBit(a, b) && y % 2 == XorBit(b, c)
    ensures XorBit(x, c) == XorBit(a, y)
  {
  }

  lemma {:induction false} XorSelf(a: nat)
    ensures XorWord(a, a) == 0
  {
    if a > 0 { XorSelf(a / 2); }
  }

  lemma XorTwiceWord(a: nat, b: nat)
    ensures XorWord(XorWord(a, b), b) == a
  {
    XorAssociativeWord(a, b, b);
    XorSelf(b);
    XorZeroWord(a);
  }
}
