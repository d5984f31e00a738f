/** What the doubling of `Cmacs` means in the binary fields of section 6.1 of NIST SP 800-38B. */
module CmacFields {
  import opened Numbers
  import opened Bytes
  import opened BitwiseXor
  import opened BlockCiphers
  import opened Cmacs

  // ---------- Bits of numbers ----------

  lemma {:induction false} ShrXor(a: nat, b: nat, i: nat)
    ensures Shr(XorWord(a, b), i) == XorWord(Shr(a, i), Shr(b, i))
  {
    hide XorWord;
    if i > 0 {
      XorParts(a, b);
      ShrXor(a / 2, b / 2, i - 1);
    }
  }

  lemma BitOfXor(a: nat, b: nat, i: nat)
    ensures GetBit(XorWord(a, b), i) == (GetBit(a, i) + GetBit(b, i)) % 2
  {
    hide XorWord, Shr;
    ShrXor(a, b, i);
    XorParts(Shr(a, i), Shr(b, i));
  }

  lemma BitOfDouble(v: nat, i: nat)
    ensures GetBit(2 * v, i) == if i == 0 then 0 else GetBit(v, i - 1)
  {
  }

  /** Bits below n do not notice 2^n. */
  lemma {:induction false} BitBelow(v: nat, n: nat, i: nat)
    requires i < n
    ensures GetBit(v + Pow2(n), i) == GetBit(v, i)
  {
    if i > 0 {
      assert (v + Pow2(n)) / 2 == v / 2 + Pow2(n - 1);
      BitBelow(v / 2, n - 1, i - 1);
    }
  }

  lemma {:induction false} BitAbove(v: nat, i: nat)
    requires v < Pow2(i)
    ensures GetBit(v, i) == 0
  {
    if i > 0 { BitAbove(v / 2, i - 1); }
  }

  /** The highest of n bits. */
  lemma {:induction false} HighestBit(v: nat, n: nat)
    requires n > 0 && v < Pow2(n)
    ensures GetBit(v, n - 1) == if v >= Pow2(n - 1) then 1 else 0
  {
    if n > 1 { HighestBit(v / 2, n - 1); }
  }

  // ---------- Values of byte strings ----------

  lemma {:induction false} ValueOfXor(a: seq<Byte>, b: seq<Byte>)
    requires |a| == |b|
    ensures Value(Xor(a, b)) == XorWord(Value(a), Value(b))
    decreases |a|
  {
    hide XorWord;
    if a == [] {
      XorSelf(0);
    } else {
      var n := |a| - 1;
      ValueOfXor(a[..n], b[..n]);
      assert Xor(a, b)[..n] == Xor(a[..n], b[..n]);
      XorWithByte(Value(a[..n]), a[n], Value(b[..n]), b[n]);
    }
  }

  // ---------- Doubling ----------

  lemma {:induction false} BigEndianDropsHigh(v: nat, n: nat)
    ensures BigEndian(v + Power256(n), n) == BigEndian(v, n)
    decreases n
  {
    if n > 0 {
      assert (v + Power256(n)) / 256 == v / 256 + Power256(n - 1);
      BigEndianDropsHigh(v / 256, n - 1);
    }
  }

  /** The first byte tells whether the value is in the upper half. */
  lemma {:induction false} UpperHalf(k: seq<Byte>)
    requires k != []
    ensures k[0] >= 128 <==> 2 * Value(k) >= Power256(|k|)
    decreases |k|
  {
    var n := |k| - 1;
    if n == 0 {
      assert k[..0] == [] && Power256(1) == 256 * Power256(0);
    } else {
      UpperHalf(k[..n]);
      EvenHalf(Power256(n - 1), Value(k[..n]), k[n]);
    }
  }

  lemma EvenHalf(p: nat, v: nat, b: Byte)
    ensures 2 * v >= 256 * p <==> 2 * (256 * v + b) >= 256 * (256 * p)
  {
  }

  /** `ShiftLeft` drops the top bit. */
  lemma ValueOfShift(k: seq<Byte>)
    requires k != []
    ensures Value(ShiftLeft(k)) == 2 * Value(k) - if k[0] >= 128 then Power256(|k|) else 0
  {
    hide Value, Power256, BigEndian;
    UpperHalf(k);
    ValueBound(k);
    var n, v := |k|, 2 * Value(k);
    if k[0] >= 128 {
      var w: nat := v - Power256(n);
      assert w + Power256(n) == v && w < Power256(n);
      BigEndianDropsHigh(w, n);
      BigEndianValue(w, n);
    } else {
      BigEndianValue(v, n);
    }
  }

  lemma BitOfShift(k: seq<Byte>, i: nat)
    requires k != [] && i < 8 * |k|
    ensures GetBit(Value(ShiftLeft(k)), i) == if i == 0 then 0 else GetBit(Value(k), i - 1)
  {
    hide Value, Power256, Pow2, GetBit, ShiftLeft;
    var n, v := |k|, Value(k);
    ValueOfShift(k);
    Power256IsPow2(n);
    BitOfDouble(v, i);
    if k[0] >= 128 {
      BitBelow(2 * v - Pow2(8 * n), 8 * n, i);
    }
  }

  /** The top bit, as 0 or 1. */
  lemma TopBitIs(k: seq<Byte>)
    requires k != []
    ensures GetBit(Value(k), 8 * |k| - 1) == if k[0] >= 128 then 1 else 0
  {
    hide Value, Power256, GetBit;
    UpperHalf(k);
    ValueBound(k);
    Power256IsPow2(|k|);
    HighestBit(Value(k), 8 * |k|);
  }

  /** Bit i of the double, for a reduction whose bits are those of r. */
  lemma BitOfDoubled(k: seq<Byte>, r: nat, i: nat)
    requires SupportedSize(|k|) && Value(Reduction(|k|)) == r && i < 8 * |k|
    ensures GetBit(Value(Double(k)), i)
            == ((if i == 0 then 0 else GetBit(Value(k), i - 1)) + GetBit(Value(k), 8 * |k| - 1) * GetBit(r, i)) % 2
  {
    hide Value, GetBit, ShiftLeft, Reduction;
    BitOfShift(k, i);
    TopBitIs(k);
    if k[0] >= 128 {
      ValueOfXor(ShiftLeft(k), Reduction(|k|));
      BitOfXor(Value(ShiftLeft(k)), r, i);
    }
  }

  lemma {:induction false} ValueOfZeros(n: nat, s: seq<Byte>)
    ensures Value(Zeros(n) + s) == Value(s)
    decreases |s|, n
  {
    if s == [] {
      assert Zeros(n) + s == Zeros(n);
      if n > 0 {
        assert Zeros(n)[..n - 1] == Zeros(n - 1) == Zeros(n - 1) + [];
        ValueOfZeros(n - 1, []);
      }
    } else {
      assert (Zeros(n) + s)[..n + |s| - 1] == Zeros(n) + s[..|s| - 1];
      ValueOfZeros(n, s[..|s| - 1]);
    }
  }

  /** In the field with x^128 + x^7 + x^2 + x + 1, of blocks of 16 bytes, doubling is
      multiplication by x: every bit moves up by one, and the top one comes back in as the bits
      7, 2, 1 and 0. */
  lemma DoubleOf16(k: seq<Byte>, i: nat)
    requires |k| == 16 && i < 128
    ensures GetBit(Value(Double(k)), i)
            == ((if i == 0 then 0 else GetBit(Value(k), i - 1))
                + (if i == 0 || i == 1 || i == 2 || i == 7 then GetBit(Value(k), 127) else 0)) % 2
  {
    hide Value, GetBit, Double;
    LastByteOnly(16, 0x87);
    BitOfDoubled(k, 0x87, i);
    BitsOf135(i);
  }

  /** The same with x^64 + x^4 + x^3 + x + 1 for blocks of 8 bytes. */
  lemma DoubleOf8(k: seq<Byte>, i: nat)
    requires |k| == 8 && i < 64
    ensures GetBit(Value(Double(k)), i)
            == ((if i == 0 then 0 else GetBit(Value(k), i - 1))
                + (if i == 0 || i == 1 || i == 3 || i == 4 then GetBit(Value(k), 63) else 0)) % 2
  {
    hide Value, GetBit, Double;
    LastByteOnly(8, 0x1b);
    BitOfDoubled(k, 0x1b, i);
    BitsOf27(i);
  }

  /** And, outside the standard, with x^256 + x^10 + x^5 + x + 1 for blocks of 32 bytes. */
  lemma DoubleOf32(k: seq<Byte>, i: nat)
    requires |k| == 32 && i < 256
    ensures GetBit(Value(Double(k)), i)
            == ((if i == 0 then 0 else GetBit(Value(k), i - 1))
                + (if i == 0 || i == 1 || i == 5 || i == 10 then GetBit(Value(k), 255) else 0)) % 2
  {
    hide Value, GetBit, Double;
    LastTwoBytes();
    BitOfDoubled(k, 0x423, i);
    BitsOf1059(i);
  }

  lemma LastByteOnly(n: nat, b: Byte)
    requires (n == 8 && b == 0x1b) || (n == 16 && b == 0x87)
    ensures Value(Reduction(n)) == b
  {
    ValueOfZeros(n - 2, [0, b]);
    assert [0, b][..1] == [0] && [0][..0] == [];
    ValueSplit([0]);
    ValueSplit([0, b]);
  }

  lemma LastTwoBytes()
    ensures Value(Reduction(32)) == 0x423
  {
    ValueOfZeros(30, [4, 0x23]);
    assert [4, 0x23][..1] == [4] && [4][..0] == [];
    ValueSplit([4]);
    ValueSplit([4, 0x23]);
  }

  lemma Division(v: nat, i: nat)
    ensures GetBit(v, i) == v / Pow2(i) % 2
  {
    ShiftsAreDivisions(v, i);
  }

  lemma Powers()
    ensures Pow2(0) == 1 && Pow2(1) == 2 && Pow2(2) == 4 && Pow2(3) == 8 && Pow2(4) == 16 && Pow2(5) == 32
    ensures Pow2(6) == 64 && Pow2(7) == 128 && Pow2(8) == 256 && Pow2(9) == 512 && Pow2(10) == 1024 && Pow2(11) == 2048
  {
  }

  lemma BitsOf135(i: nat)
    ensures GetBit(0x87, i) == if i == 0 || i == 1 || i == 2 || i == 7 then 1 else 0
  {
    hide GetBit, Pow2;
    Powers();
    Division(0x87, i);
    if i >= 8 {
      Pow2Mono(8, i);
      BitAbove(0x87, i);
    }
  }

  lemma BitsOf27(i: nat)
    ensures GetBit(0x1b, i) == if i == 0 || i == 1 || i == 3 || i == 4 then 1 else 0
  {
    hide GetBit, Pow2;
    Powers();
    Division(0x1b, i);
    if i >= 5 {
      Pow2Mono(5, i);
      BitAbove(0x1b, i);
    }
  }

  lemma BitsOf1059(i: nat)
    ensures GetBit(0x423, i) == if i == 0 || i == 1 || i == 5 || i == 10 then 1 else 0
  {
    hide GetBit, Pow2;
    Powers();
    Division(0x423, i);
    if i >= 11 {
      Pow2Mono(11, i);
      BitAbove(0x423, i);
    }
  }

  // ---------- The example of appendix D.1 of NIST SP 800-38B ----------

  /** What AES-128 makes of zero under the key of the example. */
  const EncipheredZero: seq<Byte> := [0x7d, 0xf7, 0x6b, 0x0c] + [0x1a, 0xb8, 0x99, 0xb3] + [0x3e, 0x42, 0xf0, 0x47] + [0xb9, 0x1b, 0x54, 0x6f]
  const K1: seq<Byte> := [0xfb, 0xee, 0xd6, 0x18] + [0x35, 0x71, 0x33, 0x66] + [0x7c, 0x85, 0xe0, 0x8f] + [0x72, 0x36, 0xa8, 0xde]
  const K2: seq<Byte> := [0xf7, 0xdd, 0xac, 0x30] + [0x6a, 0xe2, 0x66, 0xcc] + [0xf9, 0x0b, 0xc1, 0x1e] + [0xe4, 0x6d, 0x51, 0x3b]

  /** A shift in pieces: the top bit of the second one goes into the first. */
  lemma ShiftedAppend(a: seq<Byte>, b: seq<Byte>, x: seq<Byte>, y: seq<Byte>, carry: nat)
    requires b != [] && ShiftedBytes(a, x, TopBit(b[0])) && ShiftedBytes(b, y, carry)
    ensures ShiftedBytes(a + b, x + y, carry)
  {
    hide TopBit, ShiftedByte;
  }

  lemma ShiftedBits(a: Byte, b: Byte, c: Byte, d: Byte, carry: nat)
    ensures ShiftedBytes([a, b, c, d], [ShiftedByte(a, TopBit(b)), ShiftedByte(b, TopBit(c)), ShiftedByte(c, TopBit(d)), ShiftedByte(d, carry)], carry)
  {
    hide TopBit, ShiftedByte;
  }

  lemma ShiftedFour(a: Byte, b: Byte, c: Byte, d: Byte, carry: nat, x: Byte, y: Byte, z: Byte, w: Byte)
    requires (2 * (a as int) + b / 128) % 256 == x && (2 * (b as int) + c / 128) % 256 == y
    requires (2 * (c as int) + d / 128) % 256 == z && (2 * (d as int) + carry) % 256 == w
    ensures ShiftedBytes([a, b, c, d], [x, y, z, w], carry)
  {
  }

  lemma ShiftedQuarters(a: seq<Byte>, b: seq<Byte>, c: seq<Byte>, d: seq<Byte>, x: seq<Byte>, y: seq<Byte>, z: seq<Byte>, w: seq<Byte>)
    requires |a| == |b| == |c| == |d| == 4
    requires ShiftedBytes(a, x, TopBit(b[0])) && ShiftedBytes(b, y, TopBit(c[0])) && ShiftedBytes(c, z, TopBit(d[0])) && ShiftedBytes(d, w, 0)
    ensures ShiftLeft(a + b + c + d) == x + y + z + w
  {
    hide TopBit, ShiftedByte, ShiftedBytes, Value, BigEndian;
    ShiftedAppend(c, d, z, w, 0);
    ShiftedAppend(b, c + d, y, z + w, 0);
    ShiftedAppend(a, b + (c + d), x, y + (z + w), 0);
    ShiftedBytesShift(a + (b + (c + d)), x + (y + (z + w)), 0);
    assert a + (b + (c + d)) == a + b + c + d && x + (y + (z + w)) == x + y + z + w;
  }

  lemma FirstShift()
    ensures ShiftLeft(EncipheredZero) == K1
  {
    hide ShiftedBytes, ShiftLeft, Value, BigEndian;
    ShiftedFour(0x7d, 0xf7, 0x6b, 0x0c, 0, 0xfb, 0xee, 0xd6, 0x18);
    ShiftedFour(0x1a, 0xb8, 0x99, 0xb3, 0, 0x35, 0x71, 0x33, 0x66);
    ShiftedFour(0x3e, 0x42, 0xf0, 0x47, 1, 0x7c, 0x85, 0xe0, 0x8f);
    ShiftedFour(0xb9, 0x1b, 0x54, 0x6f, 0, 0x72, 0x36, 0xa8, 0xde);
    ShiftedQuarters([0x7d, 0xf7, 0x6b, 0x0c], [0x1a, 0xb8, 0x99, 0xb3], [0x3e, 0x42, 0xf0, 0x47], [0xb9, 0x1b, 0x54, 0x6f],
                    [0xfb, 0xee, 0xd6, 0x18], [0x35, 0x71, 0x33, 0x66], [0x7c, 0x85, 0xe0, 0x8f], [0x72, 0x36, 0xa8, 0xde]);
  }

  lemma SecondShift()
    ensures ShiftLeft(K1) == [0xf7, 0xdd, 0xac, 0x30] + [0x6a, 0xe2, 0x66, 0xcc] + [0xf9, 0x0b, 0xc1, 0x1e] + [0xe4, 0x6d, 0x51, 0xbc]
  {
    hide ShiftedBytes, ShiftLeft, Value, BigEndian;
    ShiftedFour(0xfb, 0xee, 0xd6, 0x18, 0, 0xf7, 0xdd, 0xac, 0x30);
    ShiftedFour(0x35, 0x71, 0x33, 0x66, 0, 0x6a, 0xe2, 0x66, 0xcc);
    ShiftedFour(0x7c, 0x85, 0xe0, 0x8f, 0, 0xf9, 0x0b, 0xc1, 0x1e);
    ShiftedFour(0x72, 0x36, 0xa8, 0xde, 0, 0xe4, 0x6d, 0x51, 0xbc);
    ShiftedQuarters([0xfb, 0xee, 0xd6, 0x18], [0x35, 0x71, 0x33, 0x66], [0x7c, 0x85, 0xe0, 0x8f], [0x72, 0x36, 0xa8, 0xde],
                    [0xf7, 0xdd, 0xac, 0x30], [0x6a, 0xe2, 0x66, 0xcc], [0xf9, 0x0b, 0xc1, 0x1e], [0xe4, 0x6d, 0x51, 0xbc]);
  }

  lemma XorNoBits(b: Byte)
    ensures XorByte(b, 0) == b
  {
    XorZeroWord(b);
  }

  /** A reduction in the last byte only. */
  lemma ReduceLast(s: seq<Byte>)
    requires |s| == 16
    ensures Xor(s, Reduction(16)) == s[..15] + [XorByte(s[15], 0x87)]
  {
    hide XorByte;
    forall i | 0 <= i < 15 ensures XorByte(s[i], 0) == s[i] {
      XorNoBits(s[i]);
    }
    assert Reduction(16)[15] == 0x87;
  }

  /** Both subkeys of the example. */
  lemma ExampleSubkeys(e: BlockCipher)
    requires e.blockSize == 16 && e.ProcessBlock(Zeros(16)) == EncipheredZero
    ensures FirstSubkey(e) == K1 && SecondSubkey(e) == K2
  {
    hide ShiftLeft, Reduction, XorByte, Xor;
    FirstShift();
    SecondShift();
    ReduceLast(ShiftLeft(K1));
    XorOctets(0xbc, 0x87);
    assert Double(EncipheredZero) == K1;
    assert Double(K1) == K2;
  }

  // Its messages: none, one block, and two blocks and a half.

  const Message1: seq<Byte> := [0x6b, 0xc1, 0xbe, 0xe2, 0x2e, 0x40, 0x9f, 0x96, 0xe9, 0x3d, 0x7e, 0x11, 0x73, 0x93, 0x17, 0x2a]
  const Message2: seq<Byte> := [0xae, 0x2d, 0x8a, 0x57, 0x1e, 0x03, 0xac, 0x9c, 0x9e, 0xb7, 0x6f, 0xac, 0x45, 0xaf, 0x8e, 0x51]
  const Message3: seq<Byte> := [0x30, 0xc8, 0x1c, 0x46, 0xa3, 0x5c, 0xe4, 0x11]

  lemma XorEmpty()
    ensures Xor([0x80, 0x00, 0x00, 0x00, 0x00, 0x00, 0x00, 0x00, 0x00, 0x00, 0x00, 0x00, 0x00, 0x00, 0x00, 0x00], K2) == [0x77, 0xdd, 0xac, 0x30, 0x6a, 0xe2, 0x66, 0xcc, 0xf9, 0x0b, 0xc1, 0x1e, 0xe4, 0x6d, 0x51, 0x3b]
  {
    hide XorByte;
    XorOctets(0x80, 0xf7); XorOctets(0x00, 0xdd); XorOctets(0x00, 0xac); XorOctets(0x00, 0x30);
    XorOctets(0x00, 0x6a); XorOctets(0x00, 0xe2); XorOctets(0x00, 0x66); XorOctets(0x00, 0xcc);
    XorOctets(0x00, 0xf9); XorOctets(0x00, 0x0b); XorOctets(0x00, 0xc1); XorOctets(0x00, 0x1e);
    XorOctets(0x00, 0xe4); XorOctets(0x00, 0x6d); XorOctets(0x00, 0x51); XorOctets(0x00, 0x3b);
  }

  lemma XorComplete()
    ensures Xor(Message1, K1) == [0x90, 0x2f, 0x68, 0xfa, 0x1b, 0x31, 0xac, 0xf0, 0x95, 0xb8, 0x9e, 0x9e, 0x01, 0xa5, 0xbf, 0xf4]
  {
    hide XorByte;
    XorOctets(0x6b, 0xfb); XorOctets(0xc1, 0xee); XorOctets(0xbe, 0xd6); XorOctets(0xe2, 0x18);
    XorOctets(0x2e, 0x35); XorOctets(0x40, 0x71); XorOctets(0x9f, 0x33); XorOctets(0x96, 0x66);
    XorOctets(0xe9, 0x7c); XorOctets(0x3d, 0x85); XorOctets(0x7e, 0xe0); XorOctets(0x11, 0x8f);
    XorOctets(0x73, 0x72); XorOctets(0x93, 0x36); XorOctets(0x17, 0xa8); XorOctets(0x2a, 0xde);
  }

  lemma XorSecond()
    ensures Xor([0x3a, 0xd7, 0x7b, 0xb4, 0x0d, 0x7a, 0x36, 0x60, 0xa8, 0x9e, 0xca, 0xf3, 0x24, 0x66, 0xef, 0x97], Message2) == [0x94, 0xfa, 0xf1, 0xe3, 0x13, 0x79, 0x9a, 0xfc, 0x36, 0x29, 0xa5, 0x5f, 0x61, 0xc9, 0x61, 0xc6]
  {
    hide XorByte;
    XorOctets(0x3a, 0xae); XorOctets(0xd7, 0x2d); XorOctets(0x7b, 0x8a); XorOctets(0xb4, 0x57);
    XorOctets(0x0d, 0x1e); XorOctets(0x7a, 0x03); XorOctets(0x36, 0xac); XorOctets(0x60, 0x9c);
    XorOctets(0xa8, 0x9e); XorOctets(0x9e, 0xb7); XorOctets(0xca, 0x6f); XorOctets(0xf3, 0xac);
    XorOctets(0x24, 0x45); XorOctets(0x66, 0xaf); XorOctets(0xef, 0x8e); XorOctets(0x97, 0x51);
  }

  lemma XorPadded()
    ensures Xor([0x30, 0xc8, 0x1c, 0x46, 0xa3, 0x5c, 0xe4, 0x11] + [0x80, 0x00, 0x00, 0x00, 0x00, 0x00, 0x00, 0x00], K2) == [0xc7, 0x15, 0xb0, 0x76, 0xc9, 0xbe, 0x82, 0xdd, 0x79, 0x0b, 0xc1, 0x1e, 0xe4, 0x6d, 0x51, 0x3b]
  {
    hide XorByte;
    XorOctets(0x30, 0xf7); XorOctets(0xc8, 0xdd); XorOctets(0x1c, 0xac); XorOctets(0x46, 0x30);
    XorOctets(0xa3, 0x6a); XorOctets(0x5c, 0xe2); XorOctets(0xe4, 0x66); XorOctets(0x11, 0xcc);
    XorOctets(0x80, 0xf9); XorOctets(0x00, 0x0b); XorOctets(0x00, 0xc1); XorOctets(0x00, 0x1e);
    XorOctets(0x00, 0xe4); XorOctets(0x00, 0x6d); XorOctets(0x00, 0x51); XorOctets(0x00, 0x3b);
  }

  lemma XorThird()
    ensures Xor([0xb1, 0x48, 0xc1, 0x7f, 0x30, 0x9e, 0xe6, 0x92, 0x28, 0x7a, 0xe5, 0x7c, 0xf1, 0x2a, 0xdd, 0x49], [0xc7, 0x15, 0xb0, 0x76, 0xc9, 0xbe, 0x82, 0xdd, 0x79, 0x0b, 0xc1, 0x1e, 0xe4, 0x6d, 0x51, 0x3b]) == [0x76, 0x5d, 0x71, 0x09, 0xf9, 0x20, 0x64, 0x4f, 0x51, 0x71, 0x24, 0x62, 0x15, 0x47, 0x8c, 0x72]
  {
    hide XorByte;
    XorOctets(0xb1, 0xc7); XorOctets(0x48, 0x15); XorOctets(0xc1, 0xb0); XorOctets(0x7f, 0x76);
    XorOctets(0x30, 0xc9); XorOctets(0x9e, 0xbe); XorOctets(0xe6, 0x82); XorOctets(0x92, 0xdd);
    XorOctets(0x28, 0x79); XorOctets(0x7a, 0x0b); XorOctets(0xe5, 0xc1); XorOctets(0x7c, 0x1e);
    XorOctets(0xf1, 0xe4); XorOctets(0x2a, 0x6d); XorOctets(0xdd, 0x51); XorOctets(0x49, 0x3b);
  }

  /** AES-128 under the key of the example, as far as the examples use it. */
  predicate Example(e: BlockCipher) {
    && e.blockSize == 16
    && e.ProcessBlock(Zeros(16)) == EncipheredZero
    && e.ProcessBlock([0x77, 0xdd, 0xac, 0x30, 0x6a, 0xe2, 0x66, 0xcc, 0xf9, 0x0b, 0xc1, 0x1e, 0xe4, 0x6d, 0x51, 0x3b]) == [0xbb, 0x1d, 0x69, 0x29, 0xe9, 0x59, 0x37, 0x28, 0x7f, 0xa3, 0x7d, 0x12, 0x9b, 0x75, 0x67, 0x46]
    && e.ProcessBlock([0x90, 0x2f, 0x68, 0xfa, 0x1b, 0x31, 0xac, 0xf0, 0x95, 0xb8, 0x9e, 0x9e, 0x01, 0xa5, 0xbf, 0xf4]) == [0x07, 0x0a, 0x16, 0xb4, 0x6b, 0x4d, 0x41, 0x44, 0xf7, 0x9b, 0xdd, 0x9d, 0xd0, 0x4a, 0x28, 0x7c]
    && e.ProcessBlock([0x6b, 0xc1, 0xbe, 0xe2, 0x2e, 0x40, 0x9f, 0x96, 0xe9, 0x3d, 0x7e, 0x11, 0x73, 0x93, 0x17, 0x2a]) == [0x3a, 0xd7, 0x7b, 0xb4, 0x0d, 0x7a, 0x36, 0x60, 0xa8, 0x9e, 0xca, 0xf3, 0x24, 0x66, 0xef, 0x97]
    && e.ProcessBlock([0x94, 0xfa, 0xf1, 0xe3, 0x13, 0x79, 0x9a, 0xfc, 0x36, 0x29, 0xa5, 0x5f, 0x61, 0xc9, 0x61, 0xc6]) == [0xb1, 0x48, 0xc1, 0x7f, 0x30, 0x9e, 0xe6, 0x92, 0x28, 0x7a, 0xe5, 0x7c, 0xf1, 0x2a, 0xdd, 0x49]
    && e.ProcessBlock([0x76, 0x5d, 0x71, 0x09, 0xf9, 0x20, 0x64, 0x4f, 0x51, 0x71, 0x24, 0x62, 0x15, 0x47, 0x8c, 0x72]) == [0xdf, 0xa6, 0x67, 0x47, 0xde, 0x9a, 0xe6, 0x30, 0x30, 0xca, 0x32, 0x61, 0x14, 0x97, 0xc8, 0x27]
  }

  lemma LastOfNothing(e: BlockCipher)
    requires Example(e) && SecondSubkey(e) == K2
    ensures LastBlock(e, []) == [0x77, 0xdd, 0xac, 0x30, 0x6a, 0xe2, 0x66, 0xcc, 0xf9, 0x0b, 0xc1, 0x1e, 0xe4, 0x6d, 0x51, 0x3b]
  {
    hide Xor, FirstSubkey, SecondSubkey;
    XorEmpty();
    assert [] + [0x80] + Zeros(15) == [0x80, 0x00, 0x00, 0x00, 0x00, 0x00, 0x00, 0x00, 0x00, 0x00, 0x00, 0x00, 0x00, 0x00, 0x00, 0x00];
  }

  lemma TagOfNothing(e: BlockCipher)
    requires Example(e)
    ensures Tag(e, []) == [0xbb, 0x1d, 0x69, 0x29, 0xe9, 0x59, 0x37, 0x28, 0x7f, 0xa3, 0x7d, 0x12, 0x9b, 0x75, 0x67, 0x46]
  {
    hide Tag, Chain, Xor, FirstSubkey, SecondSubkey, LastBlock;
    ExampleSubkeys(e);
    var nothing: seq<Byte> := [];
    LastOfNothing(e);
    TagFromChain(e, nothing, nothing, 0);
    ChainShort(e, Zeros(16), nothing);
    XorZeros(LastBlock(e, nothing));
    assert nothing + nothing == nothing;
  }

  lemma TagOfOneBlock(e: BlockCipher)
    requires Example(e)
    ensures Tag(e, Message1) == [0x07, 0x0a, 0x16, 0xb4, 0x6b, 0x4d, 0x41, 0x44, 0xf7, 0x9b, 0xdd, 0x9d, 0xd0, 0x4a, 0x28, 0x7c]
  {
    hide Tag, Chain, Xor, FirstSubkey, SecondSubkey;
    ExampleSubkeys(e);
    XorComplete();
    TagFromChain(e, [], Message1, 0);
    ChainShort(e, Zeros(16), []);
    XorZeros(LastBlock(e, Message1));
    assert [] + Message1 == Message1;
  }

  lemma ChainOfTwo(e: BlockCipher)
    requires Example(e)
    ensures Chain(e, Zeros(16), Message1 + Message2) == [0xb1, 0x48, 0xc1, 0x7f, 0x30, 0x9e, 0xe6, 0x92, 0x28, 0x7a, 0xe5, 0x7c, 0xf1, 0x2a, 0xdd, 0x49]
  {
    hide Chain, Xor;
    ChainAppend(e, Zeros(16), Message1, Message2, 1);
    ChainOne(e, Zeros(16), Message1);
    XorZeros(Message1);
    ChainOne(e, [0x3a, 0xd7, 0x7b, 0xb4, 0x0d, 0x7a, 0x36, 0x60, 0xa8, 0x9e, 0xca, 0xf3, 0x24, 0x66, 0xef, 0x97], Message2);
    XorSecond();
  }

  lemma TagOfForty(e: BlockCipher)
    requires Example(e)
    ensures Tag(e, Message1 + Message2 + Message3) == [0xdf, 0xa6, 0x67, 0x47, 0xde, 0x9a, 0xe6, 0x30, 0x30, 0xca, 0x32, 0x61, 0x14, 0x97, 0xc8, 0x27]
  {
    hide Tag, Chain, Xor, FirstSubkey, SecondSubkey;
    ExampleSubkeys(e);
    ChainOfTwo(e);
    XorPadded();
    XorThird();
    assert Message3 + [0x80] + Zeros(7) == [0x30, 0xc8, 0x1c, 0x46, 0xa3, 0x5c, 0xe4, 0x11] + [0x80, 0x00, 0x00, 0x00, 0x00, 0x00, 0x00, 0x00];
    TagFromChain(e, Message1 + Message2, Message3, 2);
  }

  /** The three tags of the example, however each message is cut. */
  method ExampleTags(cipher: BlockCipher, pieces: seq<seq<Byte>>) returns (mac: seq<Byte>)
    requires Example(cipher)
    ensures Join(pieces) == [] ==> mac == [0xbb, 0x1d, 0x69, 0x29, 0xe9, 0x59, 0x37, 0x28, 0x7f, 0xa3, 0x7d, 0x12, 0x9b, 0x75, 0x67, 0x46]
    ensures Join(pieces) == Message1 ==> mac == [0x07, 0x0a, 0x16, 0xb4, 0x6b, 0x4d, 0x41, 0x44, 0xf7, 0x9b, 0xdd, 0x9d, 0xd0, 0x4a, 0x28, 0x7c]
    ensures Join(pieces) == Message1 + Message2 + Message3 ==> mac == [0xdf, 0xa6, 0x67, 0x47, 0xde, 0x9a, 0xe6, 0x30, 0x30, 0xca, 0x32, 0x61, 0x14, 0x97, 0xc8, 0x27]
  {
    hide Example, Tag, Join;
    ExampleIsSupported(cipher);
    TagOfNothing(cipher);
    TagOfOneBlock(cipher);
    TagOfForty(cipher);
    mac := MacOfPieces(cipher, pieces, 16);
    assert Tag(cipher, Join(pieces))[..16] == Tag(cipher, Join(pieces));
  }

  lemma ExampleIsSupported(e: BlockCipher)
    requires Example(e)
    ensures e.blockSize == 16 && SupportedSize(16)
  {
  }
}
