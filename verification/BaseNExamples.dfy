/** Base-N encoding character by character, and the examples of section 10 of RFC 4648. */
module BaseNExamples {
  import Arithmetic
  import opened Numbers
  import opened Bytes
  import opened BitStrings
  import opened BaseN
  import opened BaseNRoundTrips
  import Groupers

  // ---------- Bits ----------

  lemma {:induction false} BitsOfAt(v: nat, n: nat, k: nat)
    requires k < n
    ensures BitsOf(v, n)[k] == GetBit(v, n - 1 - k)
    decreases n
  {
    if k < n - 1 {
      BitsOfAt(v / 2, n - 1, k);
    }
  }

  lemma {:induction false} BitStringAt(digits: seq<nat>, w: nat, j: nat, k: nat)
    requires j < |digits| && k < w
    ensures 0 <= Width(j, w) + k < |BitString(digits, w)|
    ensures BitString(digits, w)[Width(j, w) + k] == GetBit(digits[j], w - 1 - k)
    decreases |digits|
  {
    hide GetBit;
    var n := |digits| - 1;
    WidthMono(j, n, w);
    if j == n {
      BitsOfAt(digits[n], w, k);
    } else {
      WidthMono(j + 1, n, w);
      BitStringAt(digits[..n], w, j, k);
    }
  }

  /** Bit p of the input, most significant bits first, and zeros behind it. */
  function InputBit(input: seq<Byte>, p: nat): nat {
    if p / 8 < |input| then input[p / 8] / Pow2(7 - p % 8) % 2 else 0
  }

  /** The number of the k bits from bit p on. */
  function BitsFrom(input: seq<Byte>, p: nat, k: nat): nat {
    if k == 0 then 0 else 2 * BitsFrom(input, p, k - 1) + InputBit(input, p + k - 1)
  }

  lemma InputBitAt(input: seq<Byte>, p: nat, bits: seq<Bit>, zeros: nat)
    requires bits == BitString(input, 8) && p < |bits| + zeros
    ensures (bits + Zeros(zeros))[p] == InputBit(input, p)
  {
    hide BitString, GetBit, Pow2;
    WidthMul(|input|, 8);
    var j, k := p / 8, p % 8;
    if j < |input| {
      WidthMul(j, 8);
      BitStringAt(input, 8, j, k);
      DivisionBit(input[j], 7 - k);
    }
  }

  lemma DivisionBit(v: nat, k: nat)
    ensures GetBit(v, k) == v / Pow2(k) % 2
  {
    ShiftsAreDivisions(v, k);
  }

  /** Bit i of the w bits of d, from the top, is bit p + i of the input. */
  predicate SameBit(d: nat, w: nat, input: seq<Byte>, p: nat, i: nat)
    requires i < w
  {
    GetBit(d, w - 1 - i) == InputBit(input, p + i)
  }

  lemma {:induction false} DigitIsBits(d: nat, w: nat, input: seq<Byte>, p: nat, k: nat)
    requires d < Pow2(w) && k <= w && forall i :: 0 <= i < w ==> SameBit(d, w, input, p, i)
    ensures Shr(d, w - k) == BitsFrom(input, p, k)
    decreases k
  {
    hide InputBit, Pow2, Shr, GetBit;
    if k == 0 {
      ShiftTest(d, w);
    } else {
      DigitIsBits(d, w, input, p, k - 1);
      assert SameBit(d, w, input, p, k - 1);
      OneBitMore(d, w - k);
    }
  }

  lemma OneBitMore(d: nat, n: nat)
    ensures Shr(d, n) == 2 * Shr(d, n + 1) + GetBit(d, n)
  {
    hide Shr;
    ShrStep(d, n);
  }

  /** Digit j of the input is made of its w bits from bit w j on. */
  lemma DigitAt(input: seq<Byte>, w: nat, j: nat)
    requires 1 <= w <= 7 && j < |DivideAll(BitString(input, 8), w)|
    ensures DivideAll(BitString(input, 8), w)[j] == BitsFrom(input, w * j, w)
  {
    hide BitString, DivideAll, InputBit, GetBit, Pow2, BitsFrom;
    var bits := BitString(input, 8);
    var digits := DivideAll(bits, w);
    var zeros := DivideAllBits(bits, w);
    DivideAllDigits(bits, w);
    WidthMul(j, w);
    forall i | 0 <= i < w ensures SameBit(digits[j], w, input, w * j, i) {
      BitStringAt(digits, w, j, i);
      InputBitAt(input, w * j + i, bits, zeros);
    }
    DigitIsBits(digits[j], w, input, w * j, w);
    NoShift(digits[j]);
  }

  lemma NoShift(d: nat)
    ensures Shr(d, 0) == d
  {
  }

  // ---------- Characters ----------

  /** Section 4 of RFC 4648 for any width. Character j stands for the w bits from bit w j on, bits
      that are missing being zeros; there are just enough characters for all bits; after them
      comes padding, up to the next whole block and no further. */
  lemma EncodingAt(alphabet: seq<Byte>, w: nat, padding: int, input: seq<Byte>, j: nat, p: nat)
    requires 1 <= w <= 7 && |alphabet| == Pow2(w) && -1 <= padding < 256
    requires j < |Encoding(alphabet, w, padding, input)| && p == w * j
    ensures
      if p < 8 * |input| then BitsFrom(input, p, w) < |alphabet| && Encoding(alphabet, w, padding, input)[j] == alphabet[BitsFrom(input, p, w)]
      else Encoding(alphabet, w, padding, input)[j] == padding
  {
    hide *;
    var digits := DivideAll(BitString(input, 8), w);
    EncodingParts(alphabet, w, padding, input, j);
    InDigits(input, w, j, p);
    if j < |digits| {
      DigitFrom(input, w, j, p);
    }
  }

  lemma DigitFrom(input: seq<Byte>, w: nat, j: nat, p: nat)
    requires 1 <= w <= 7 && j < |DivideAll(BitString(input, 8), w)| && p == w * j
    ensures DivideAll(BitString(input, 8), w)[j] == BitsFrom(input, p, w)
  {
    hide *;
    DigitAt(input, w, j);
  }

  lemma EncodingParts(alphabet: seq<Byte>, w: nat, padding: int, input: seq<Byte>, j: nat)
    requires 1 <= w <= 7 && |alphabet| == Pow2(w) && -1 <= padding < 256
    requires j < |Encoding(alphabet, w, padding, input)|
    ensures var digits := DivideAll(BitString(input, 8), w);
      if j < |digits| then digits[j] < |alphabet| && Encoding(alphabet, w, padding, input)[j] == alphabet[digits[j]]
      else Encoding(alphabet, w, padding, input)[j] == padding
  {
    hide BitString, DivideAll, Pow2, Missing, BlockSize;
    DivideAllDigits(BitString(input, 8), w);
  }

  lemma DigitCount(input: seq<Byte>, w: nat)
    requires 1 <= w <= 7
    ensures var n := |DivideAll(BitString(input, 8), w)|; 8 * |input| <= w * n < 8 * |input| + w
  {
    hide BitString, DivideAll;
    var n := |DivideAll(BitString(input, 8), w)|;
    var zeros := DivideAllBits(BitString(input, 8), w);
    WidthMul(|input|, 8);
    WidthMul(n, w);
    Arithmetic.MulCommutes(n, w);
  }

  lemma InDigits(input: seq<Byte>, w: nat, j: nat, p: nat)
    requires 1 <= w <= 7 && p == w * j
    ensures j < |DivideAll(BitString(input, 8), w)| <==> p < 8 * |input|
  {
    hide BitString, DivideAll;
    DigitCount(input, w);
    EnoughDigits(w, |DivideAll(BitString(input, 8), w)|, j, 8 * |input|);
  }

  lemma EnoughDigits(w: nat, n: nat, j: nat, bits: nat)
    requires w > 0 && bits <= w * n < bits + w
    ensures j < n <==> w * j < bits
  {
    if j < n {
      Arithmetic.MulMono(w, j + 1, n);
      assert w * (j + 1) == w * j + w;
    } else {
      Arithmetic.MulMono(w, n, j);
    }
  }

  /** The length: with padding, whole blocks, and less than one more than without. */
  lemma EncodingLength(alphabet: seq<Byte>, w: nat, padding: int, input: seq<Byte>)
    requires 1 <= w <= 7 && |alphabet| == Pow2(w) && -1 <= padding < 256
    ensures var n, block := |Encoding(alphabet, w, padding, input)|, (if w == 4 then 2 else if w == 2 || w == 6 then 4 else 8);
      if padding == -1 then 8 * |input| <= w * n < 8 * |input| + w
      else n % block == 0 && 8 * |input| <= w * n < 8 * |input| + w * block
  {
    hide BitString, DivideAll, Pow2;
    DigitCount(input, w);
    var n := |DivideAll(BitString(input, 8), w)|;
    WholeBlocks(n, BlockSize(w));
    Arithmetic.MulMono(w, Missing(n, BlockSize(w)), BlockSize(w) - 1);
    Distributes(w, n, Missing(n, BlockSize(w)));
    Distributes(w, BlockSize(w) - 1, 1);
  }

  lemma WholeBlocks(n: nat, block: nat)
    requires block == 2 || block == 4 || block == 8
    ensures (n + Missing(n, block)) % block == 0 && Missing(n, block) < block
  {
    Arithmetic.Fundamental(n, block);
    var q, r := n / block, n % block;
    if r == 0 {
      Arithmetic.DivModUnique(block, block, 1, 0);
    } else {
      Arithmetic.DivModUnique(block - r, block, 0, block - r);
      Distributes(block, q, 1);
      Arithmetic.DivModUnique(n + (block - r), block, q + 1, 0);
    }
  }

  lemma Distributes(w: int, x: int, y: int)
    ensures w * (x + y) == w * x + w * y
  {
  }

  // ---------- Examples ----------

  lemma Powers()
    ensures Pow2(0) == 1 && Pow2(1) == 2 && Pow2(2) == 4 && Pow2(3) == 8 && Pow2(4) == 16 && Pow2(5) == 32 && Pow2(6) == 64 && Pow2(7) == 128
  {
  }

  /** The bits of one byte of the input, or of none. */
  lemma InputByte(input: seq<Byte>, j: nat, b: Byte)
    requires b == if j < |input| then input[j] else 0
    ensures InputBit(input, 8 * j) == b / 128 % 2 && InputBit(input, 8 * j + 1) == b / 64 % 2
    ensures InputBit(input, 8 * j + 2) == b / 32 % 2 && InputBit(input, 8 * j + 3) == b / 16 % 2
    ensures InputBit(input, 8 * j + 4) == b / 8 % 2 && InputBit(input, 8 * j + 5) == b / 4 % 2
    ensures InputBit(input, 8 * j + 6) == b / 2 % 2 && InputBit(input, 8 * j + 7) == b % 2
  {
    hide Pow2, InputBit;
    Powers();
    OneInputBit(input, j, 0, b);
    OneInputBit(input, j, 1, b);
    OneInputBit(input, j, 2, b);
    OneInputBit(input, j, 3, b);
    OneInputBit(input, j, 4, b);
    OneInputBit(input, j, 5, b);
    OneInputBit(input, j, 6, b);
    OneInputBit(input, j, 7, b);
  }

  lemma OneInputBit(input: seq<Byte>, j: nat, k: nat, b: Byte)
    requires k < 8 && b == if j < |input| then input[j] else 0
    ensures InputBit(input, 8 * j + k) == b / Pow2(7 - k) % 2
  {
    hide Pow2;
    assert (8 * j + k) / 8 == j && (8 * j + k) % 8 == k;
    if j >= |input| {
      assert 0 / Pow2(7 - k) == 0;
    }
  }

  lemma SixBits(input: seq<Byte>, p: nat, a: nat, b: nat, c: nat, d: nat, e: nat, f: nat)
    requires a == InputBit(input, p) && b == InputBit(input, p + 1) && c == InputBit(input, p + 2)
    requires d == InputBit(input, p + 3) && e == InputBit(input, p + 4) && f == InputBit(input, p + 5)
    ensures BitsFrom(input, p, 6) == 32 * a + 16 * b + 8 * c + 4 * d + 2 * e + f
  {
    hide InputBit;
    assert BitsFrom(input, p, 1) == a;
    assert BitsFrom(input, p, 2) == 2 * a + b;
    assert BitsFrom(input, p, 3) == 4 * a + 2 * b + c;
    assert BitsFrom(input, p, 4) == 8 * a + 4 * b + 2 * c + d;
    assert BitsFrom(input, p, 5) == 16 * a + 8 * b + 4 * c + 2 * d + e;
  }

  lemma BitsOfFoo()
    ensures BitsFrom([0x66, 0x6f, 0x6f], 0, 6) == 25 && BitsFrom([0x66, 0x6f, 0x6f], 6, 6) == 38
    ensures BitsFrom([0x66, 0x6f, 0x6f], 12, 6) == 61 && BitsFrom([0x66, 0x6f, 0x6f], 18, 6) == 47
  {
    hide BitsFrom, InputBit;
    InputByte([0x66, 0x6f, 0x6f], 0, 0x66);
    InputByte([0x66, 0x6f, 0x6f], 1, 0x6f);
    InputByte([0x66, 0x6f, 0x6f], 2, 0x6f);
    SixBits([0x66, 0x6f, 0x6f], 0, 0, 1, 1, 0, 0, 1);
    SixBits([0x66, 0x6f, 0x6f], 6, 1, 0, 0, 1, 1, 0);
    SixBits([0x66, 0x6f, 0x6f], 12, 1, 1, 1, 1, 0, 1);
    SixBits([0x66, 0x6f, 0x6f], 18, 1, 0, 1, 1, 1, 1);
  }

  lemma BitsOfFo()
    ensures BitsFrom([0x66, 0x6f], 0, 6) == 25 && BitsFrom([0x66, 0x6f], 6, 6) == 38 && BitsFrom([0x66, 0x6f], 12, 6) == 60
  {
    hide BitsFrom, InputBit;
    InputByte([0x66, 0x6f], 0, 0x66);
    InputByte([0x66, 0x6f], 1, 0x6f);
    InputByte([0x66, 0x6f], 2, 0);
    SixBits([0x66, 0x6f], 0, 0, 1, 1, 0, 0, 1);
    SixBits([0x66, 0x6f], 6, 1, 0, 0, 1, 1, 0);
    SixBits([0x66, 0x6f], 12, 1, 1, 1, 1, 0, 0);
  }

  lemma BitsOfF()
    ensures BitsFrom([0x66], 0, 6) == 25 && BitsFrom([0x66], 6, 6) == 32
  {
    hide BitsFrom, InputBit;
    InputByte([0x66], 0, 0x66);
    InputByte([0x66], 1, 0);
    SixBits([0x66], 0, 0, 1, 1, 0, 0, 1);
    SixBits([0x66], 6, 1, 0, 0, 0, 0, 0);
  }

  /** In an alphabet of 64 characters with padding every encoding of one to three bytes has four. */
  lemma FourCharacters(alphabet: seq<Byte>, padding: Byte, input: seq<Byte>)
    requires |alphabet| == Pow2(6) && 1 <= |input| <= 3
    ensures |Encoding(alphabet, 6, padding, input)| == 4
  {
    hide Encoding, Pow2;
    EncodingLength(alphabet, 6, padding, input);
  }

  lemma Foo(alphabet: seq<Byte>, padding: Byte)
    requires |alphabet| == Pow2(6)
    ensures |alphabet| == 64 && Encoding(alphabet, 6, padding, [0x66, 0x6f, 0x6f]) == [alphabet[25], alphabet[38], alphabet[61], alphabet[47]]
  {
    hide Encoding, BitsFrom, Pow2;
    Powers();
    BitsOfFoo();
    FourCharacters(alphabet, padding, [0x66, 0x6f, 0x6f]);
    EncodingAt(alphabet, 6, padding, [0x66, 0x6f, 0x6f], 0, 0);
    EncodingAt(alphabet, 6, padding, [0x66, 0x6f, 0x6f], 1, 6);
    EncodingAt(alphabet, 6, padding, [0x66, 0x6f, 0x6f], 2, 12);
    EncodingAt(alphabet, 6, padding, [0x66, 0x6f, 0x6f], 3, 18);
  }

  lemma Fo(alphabet: seq<Byte>, padding: Byte)
    requires |alphabet| == Pow2(6)
    ensures |alphabet| == 64 && Encoding(alphabet, 6, padding, [0x66, 0x6f]) == [alphabet[25], alphabet[38], alphabet[60], padding]
  {
    hide Encoding, BitsFrom, Pow2;
    Powers();
    BitsOfFo();
    FourCharacters(alphabet, padding, [0x66, 0x6f]);
    EncodingAt(alphabet, 6, padding, [0x66, 0x6f], 0, 0);
    EncodingAt(alphabet, 6, padding, [0x66, 0x6f], 1, 6);
    EncodingAt(alphabet, 6, padding, [0x66, 0x6f], 2, 12);
    EncodingAt(alphabet, 6, padding, [0x66, 0x6f], 3, 18);
  }

  lemma F(alphabet: seq<Byte>, padding: Byte)
    requires |alphabet| == Pow2(6)
    ensures |alphabet| == 64 && Encoding(alphabet, 6, padding, [0x66]) == [alphabet[25], alphabet[32], padding, padding]
  {
    hide Encoding, BitsFrom, Pow2;
    Powers();
    BitsOfF();
    FourCharacters(alphabet, padding, [0x66]);
    EncodingAt(alphabet, 6, padding, [0x66], 0, 0);
    EncodingAt(alphabet, 6, padding, [0x66], 1, 6);
    EncodingAt(alphabet, 6, padding, [0x66], 2, 12);
    EncodingAt(alphabet, 6, padding, [0x66], 3, 18);
  }

  /** "f", "fo" and "foo" through the modelled filter, in pieces: "Zg==", "Zm8=" and "Zm9v" for the
      alphabet of the standard, where Z, g, m, 8, 9 and v are the characters 25, 32, 38, 60, 61 and 47. */
  method Section10(alphabet: seq<Byte>, padding: Byte, pieces: seq<seq<Byte>>) returns (s: seq<Byte>)
    requires |alphabet| == Pow2(6)
    ensures |alphabet| == 64
    ensures Join(pieces) == [0x66] ==> s == [alphabet[25], alphabet[32], padding, padding]
    ensures Join(pieces) == [0x66, 0x6f] ==> s == [alphabet[25], alphabet[38], alphabet[60], padding]
    ensures Join(pieces) == [0x66, 0x6f, 0x6f] ==> s == [alphabet[25], alphabet[38], alphabet[61], alphabet[47]]
  {
    hide Encoding, Pow2, Join;
    F(alphabet, padding);
    Fo(alphabet, padding);
    Foo(alphabet, padding);
    s := EncodePieces(alphabet, 6, padding, pieces);
  }

  /** Groups of two: no separator behind the last one, complete or not. */
  method GroupsExample() returns (even: seq<Byte>, odd: seq<Byte>)
    ensures even == [1, 2, 0, 3, 4, 10] && odd == [1, 2, 0, 3, 4, 0, 5, 10]
  {
    hide Groupers.Groups, Join;
    PairsExample();
    PairJoined([1, 2, 3], [4]);
    PairJoined([1, 2, 3], [4, 5]);
    assert [1, 2, 3] + [4] == [1, 2, 3, 4] && [1, 2, 3] + [4, 5] == [1, 2, 3, 4, 5];
    even := GroupPieces(2, [0], [10], [[1, 2, 3], [4]]);
    odd := GroupPieces(2, [0], [10], [[1, 2, 3], [4, 5]]);
  }

  lemma PairsExample()
    ensures Groupers.Groups([1, 2, 3, 4], 2, [0]) == [1, 2, 0, 3, 4]
    ensures Groupers.Groups([1, 2, 3, 4, 5], 2, [0]) == [1, 2, 0, 3, 4, 0, 5]
  {
    hide Groupers.Groups;
    Groupers.FirstGroup([1, 2], [3, 4], 2, [0]);
    Groupers.FirstGroup([3, 4], [5], 2, [0]);
    Groupers.FirstGroup([1, 2], [3, 4, 5], 2, [0]);
    assert [1, 2] + [3, 4, 5] == [1, 2, 3, 4, 5] && [3, 4] + [5] == [3, 4, 5] && [1, 2] + [3, 4] == [1, 2, 3, 4];
  }

  lemma PairJoined(a: seq<Byte>, b: seq<Byte>)
    ensures Join([a, b]) == a + b
  {
    assert [a, b][..1] == [a] && [a][..0] == [];
    assert Join([a]) == [] + a;
  }

  /** A letter of the alphabet is read in both cases exactly if case does not matter; k is its
      number from A on. */
  lemma Letters(k: nat, caseInsensitive: bool)
    requires k < 26
    ensures ReadAs(65 + k, 97 + k, caseInsensitive) <==> caseInsensitive
    ensures ReadAs(97 + k, 65 + k, caseInsensitive) <==> caseInsensitive
    ensures ReadAs(65 + k, 65 + k, caseInsensitive) && ReadAs(97 + k, 97 + k, caseInsensitive)
  {
  }
}
