/** The exclusive or of `Numbers` is that of bit-vectors, which decides it for given bytes. */
module BitwiseXor {
  import opened Numbers
  import opened Bytes

  lemma HalfByte(x: bv8)
    ensures (x >> 1) as int == x as int / 2 && (x & 1) as int == x as int % 2
  {
  }

  lemma XorLast(a: bv8, b: bv8)
    ensures XorBit(a as int, b as int) == ((a ^ b) & 1) as int && (a ^ b) >> 1 == (a >> 1) ^ (b >> 1)
  {
    HalfByte(a);
    HalfByte(b);
    var x, y := a & 1, b & 1;
    assert (a ^ b) & 1 == x ^ y && x <= 1 && y <= 1;
    assert x == y || x ^ y == 1;
  }

  lemma XorNext(a: nat, b: nat, c: nat)
    requires XorWord(a / 2, b / 2) == c / 2 && XorBit(a, b) == c % 2
    ensures XorWord(a, b) == c
  {
    hide XorWord;
    XorParts(a, b);
  }

  lemma XorStep(a: bv8, b: bv8)
    requires XorWord((a >> 1) as int, (b >> 1) as int) == ((a >> 1) ^ (b >> 1)) as int
    ensures XorWord(a as int, b as int) == (a ^ b) as int
  {
    hide XorWord, XorBit;
    HalfByte(a);
    HalfByte(b);
    HalfByte(a ^ b);
    XorLast(a, b);
    XorNext(a as int, b as int, (a ^ b) as int);
  }

  lemma HalfBound(x: bv8, n: nat)
    requires n > 0 && x as int < Pow2(n)
    ensures (x >> 1) as int < Pow2(n - 1)
  {
    HalfByte(x);
  }

  lemma ZeroByte(x: bv8)
    requires x as int < 1
    ensures x == 0
  {
  }

  lemma {:induction false} XorBelow(a: bv8, b: bv8, n: nat)
    requires a as int < Pow2(n) && b as int < Pow2(n)
    ensures XorWord(a as int, b as int) == (a ^ b) as int
    decreases n
  {
    hide XorWord, XorBit;
    if n == 0 {
      ZeroByte(a);
      ZeroByte(b);
      XorSelf(0);
    } else {
      HalfBound(a, n);
      HalfBound(b, n);
      XorBelow(a >> 1, b >> 1, n - 1);
      XorStep(a, b);
    }
  }

  lemma ByteBound(x: bv8)
    ensures x as int < Pow2(8)
  {
    assert Pow2(8) == 256;
  }

  /** `XorWord` is the operator of the machine. */
  lemma XorIsBitwise(a: bv8, b: bv8)
    ensures XorWord(a as int, b as int) == (a ^ b) as int
  {
    hide XorWord;
    ByteBound(a);
    ByteBound(b);
    XorBelow(a, b, 8);
  }

  /** The same for bytes. */
  lemma XorOctets(a: bv8, b: bv8)
    ensures XorByte(a as int, b as int) == (a ^ b) as int
  {
    hide XorWord;
    XorIsBitwise(a, b);
  }

  // ---------- Byte by byte ----------

  lemma {:induction false} XorJoin(x: nat, a: nat, y: nat, b: nat, n: nat)
    requires a < Pow2(n) && b < Pow2(n)
    ensures XorWord(ShlNat(x, n) + a, ShlNat(y, n) + b) == ShlNat(XorWord(x, y), n) + XorWord(a, b)
    decreases n
  {
    hide XorWord, XorBit;
    if n == 0 {
      XorSelf(0);
    } else {
      var v, w := ShlNat(x, n) + a, ShlNat(y, n) + b;
      XorJoin(x, a / 2, y, b / 2, n - 1);
      assert v / 2 == ShlNat(x, n - 1) + a / 2 && w / 2 == ShlNat(y, n - 1) + b / 2;
      SameLastBit(a, b, v, w);
      XorParts(v, w);
      XorParts(a, b);
    }
  }

  lemma SameLastBit(a: nat, b: nat, v: nat, w: nat)
    requires v % 2 == a % 2 && w % 2 == b % 2
    ensures XorBit(v, w) == XorBit(a, b)
  {
  }

  lemma XorWithByte(x: nat, a: Byte, y: nat, b: Byte)
    ensures XorWord(256 * x + a, 256 * y + b) == 256 * XorWord(x, y) + XorByte(a, b)
  {
    hide XorWord, Pow2, ShlNat;
    EightBits(x);
    EightBits(y);
    EightBits(XorWord(x, y));
    XorJoin(x, a, y, b, 8);
  }

  lemma EightBits(x: nat)
    ensures ShlNat(x, 8) == 256 * x && Pow2(8) == 256
  {
    ShlMul(x, 8);
    assert Pow2(8) == 256;
  }

  /** A byte more at the end. */
  lemma XorMore(a: nat, b: nat, c: nat)
    requires XorWord(a / 256, b / 256) == c / 256 && XorByte(a % 256, b % 256) == c % 256
    ensures XorWord(a, b) == c
  {
    hide XorWord, XorByte;
    XorWithByte(a / 256, a % 256, b / 256, b % 256);
  }
}
