/** Byte strings: exclusive or, zero padding and big-endian numbers. */
module Bytes {
  import opened Arithmetic
  import opened Numbers

  type Byte = b: int | 0 <= b < 256

  /** A C cast of a number to `byte`. */
  function ByteOf(n: nat): Byte {
    n % 256
  }

  function XorByte(a: Byte, b: Byte): Byte {
    assert Pow2(8) == 256;
    XorBound(a, b, 8);
    XorWord(a, b)
  }

  function Zeros(n: nat): (z: seq<Byte>)
    ensures |z| == n
  {
    seq(n, _ => 0)
  }

  function Xor(a: seq<Byte>, b: seq<Byte>): (c: seq<Byte>)
    requires |a| == |b|
    ensures |c| == |a|
  {
    seq(|a|, i requires 0 <= i < |a| => XorByte(a[i], b[i]))
  }

  /** `xorbuf` of a short buffer into the front of a longer one. */
  function XorFront(a: seq<Byte>, b: seq<Byte>): (c: seq<Byte>)
    requires |b| <= |a|
    ensures |c| == |a|
  {
    Xor(a, b + Zeros(|a| - |b|))
  }

  /** The n low bytes of v, most significant first. */
  function BigEndian(v: nat, n: nat): (s: seq<Byte>)
    ensures |s| == n
  {
    if n == 0 then [] else BigEndian(v / 256, n - 1) + [ByteOf(v)]
  }

  lemma BigEndianEnd(v: nat)
    ensures BigEndian(v, 0) == []
  {
  }

  lemma BigEndianNext(v: nat, n: nat)
    ensures BigEndian(v, n + 1) == BigEndian(v / 256, n) + [ByteOf(v)]
  {
  }

  lemma {:induction false} BigEndianTail(v: nat, n: nat, k: nat)
    requires k <= n
    ensures BigEndian(v, n)[n - k..] == BigEndian(v, k)
  {
    if k > 0 {
      BigEndianTail(v / 256, n - 1, k - 1);
      assert BigEndian(v, n)[n - k..] == BigEndian(v / 256, n - 1)[n - k..] + [ByteOf(v)];
    }
  }

  // Two and four bytes written out.

  lemma TwoOctets(a: Byte, b: Byte)
    ensures BigEndian(256 * a + b, 2) == [a, b]
  {
    BigEndianNext(256 * a + b, 1);
    BigEndianNext(a, 0);
    BigEndianEnd(0);
  }

  lemma FourOctets(a: Byte, b: Byte, c: Byte, d: Byte)
    ensures BigEndian(0x100_0000 * a + 0x1_0000 * b + 0x100 * c + d, 4) == [a, b, c, d]
  {
    hide BigEndian;
    var v := 0x100_0000 * a + 0x1_0000 * b + 0x100 * c + d;
    BigEndianNext(v, 3);
    BigEndianNext(v / 256, 2);
    assert v / 256 / 256 == 256 * a + b && v % 256 == d && v / 256 % 256 == c;
    TwoOctets(a, b);
  }

  /** Byte i of n, from the front: v divided by 256 as often as bytes follow. */
  lemma {:induction false} BigEndianAt(v: nat, n: nat, i: nat)
    requires i < n
    ensures BigEndian(v, n)[i] == v / Power256(n - 1 - i) % 256
    decreases n
  {
    if i < n - 1 {
      BigEndianAt(v / 256, n - 1, i);
      DivideTwice(v, Power256(n - 2 - i));
    }
  }

  lemma DivideTwice(v: nat, p: nat)
    requires p > 0
    ensures v / 256 / p == v / (256 * p)
  {
    Fundamental(v, 256);
    Fundamental(v / 256, p);
    DivModUnique(v, 256 * p, v / 256 / p, 256 * (v / 256 % p) + v % 256);
  }

  /** The n low bytes of v, least significant first. */
  function LittleEndian(v: nat, n: nat): (s: seq<Byte>)
    ensures |s| == n
  {
    if n == 0 then [] else [ByteOf(v)] + LittleEndian(v / 256, n - 1)
  }

  function LittleValue(s: seq<Byte>): nat {
    if s == [] then 0 else s[0] + 256 * LittleValue(s[1..])
  }

  lemma {:induction false} LittleRoundTrip(v: nat, n: nat)
    requires v < Power256(n)
    ensures LittleValue(LittleEndian(v, n)) == v
  {
    if n > 0 { LittleRoundTrip(v / 256, n - 1); }
  }

  /** The number that bytes denote, most significant first. */
  function Value(k: seq<Byte>): nat {
    if k == [] then 0 else 256 * Value(k[..|k| - 1]) + k[|k| - 1]
  }

  function Power256(n: nat): (p: nat)
    ensures p > 0
  {
    if n == 0 then 1 else 256 * Power256(n - 1)
  }

  lemma {:induction false} Power256Mono(a: nat, b: nat)
    requires a <= b
    ensures Power256(a) <= Power256(b)
  {
    if a < b { Power256Mono(a, b - 1); }
  }

  lemma {:induction false} Power256IsPow2(n: nat)
    ensures Power256(n) == Pow2(8 * n)
  {
    if n > 0 {
      Power256IsPow2(n - 1);
      Pow2Byte(8 * (n - 1));
    }
  }

  lemma Pow2Byte(k: nat)
    ensures Pow2(k + 8) == 256 * Pow2(k)
  {
    assert Pow2(k + 2) == 2 * Pow2(k + 1) == 4 * Pow2(k);
    assert Pow2(k + 4) == 2 * Pow2(k + 3) == 4 * Pow2(k + 2);
    assert Pow2(k + 6) == 2 * Pow2(k + 5) == 4 * Pow2(k + 4);
    assert Pow2(k + 8) == 2 * Pow2(k + 7) == 4 * Pow2(k + 6);
  }

  lemma EightByteLengths()
    ensures Power256(8) == 0x1_0000_0000_0000_0000
  {
    assert Power256(4) == 0x1_0000_0000;
    assert Power256(8) == 0x1_0000_0000 * Power256(4);
  }

  lemma {:induction false} ValueBound(k: seq<Byte>)
    ensures Value(k) < Power256(|k|)
  {
    if k != [] { ValueBound(k[..|k| - 1]); }
  }

  lemma ValueSplit(k: seq<Byte>)
    requires k != []
    ensures Value(k) == 256 * Value(k[..|k| - 1]) + k[|k| - 1]
  {
  }

  /** Writing a number down and reading it undo each other. */
  lemma {:induction false} BigEndianValue(v: nat, n: nat)
    requires v < Power256(n)
    ensures Value(BigEndian(v, n)) == v
  {
    if n > 0 {
      BigEndianValue(v / 256, n - 1);
      assert BigEndian(v, n)[..n - 1] == BigEndian(v / 256, n - 1);
    }
  }

  /** Applying the same mask twice restores the bytes. */
  lemma XorTwice(a: seq<Byte>, k: seq<Byte>)
    requires |a| == |k|
    ensures Xor(Xor(a, k), k) == a
  {
    forall i | 0 <= i < |a| ensures Xor(Xor(a, k), k)[i] == a[i] { XorTwiceWord(a[i], k[i]); }
  }

  lemma XorAssociative(a: seq<Byte>, b: seq<Byte>, c: seq<Byte>)
    requires |a| == |b| == |c|
    ensures Xor(Xor(a, b), c) == Xor(a, Xor(b, c))
  {
    forall i | 0 <= i < |a| ensures XorByte(XorByte(a[i], b[i]), c[i]) == XorByte(a[i], XorByte(b[i], c[i])) {
      XorAssociativeWord(a[i], b[i], c[i]);
    }
  }

  lemma XorAppend(a: seq<Byte>, b: seq<Byte>, c: seq<Byte>, d: seq<Byte>)
    requires |a| == |c| && |b| == |d|
    ensures Xor(a + b, c + d) == Xor(a, c) + Xor(b, d)
  {
  }

  lemma XorZeros(a: seq<Byte>)
    ensures Xor(a, Zeros(|a|)) == a && Xor(Zeros(|a|), a) == a
  {
    forall i | 0 <= i < |a| ensures XorByte(a[i], 0) == a[i] && XorByte(0, a[i]) == a[i] { XorZeroWord(a[i]); }
  }

  /** The pieces of a byte string put together again. */
  function Join(pieces: seq<seq<Byte>>): seq<Byte> {
    if pieces == [] then [] else Join(pieces[..|pieces| - 1]) + pieces[|pieces| - 1]
  }

  lemma JoinEnds(pieces: seq<seq<Byte>>)
    ensures Join(pieces[..0]) == [] && Join(pieces[..|pieces|]) == Join(pieces)
  {
    assert pieces[..|pieces|] == pieces;
  }

  lemma JoinNext(pieces: seq<seq<Byte>>, i: nat)
    requires i < |pieces|
    ensures Join(pieces[..i + 1]) == Join(pieces[..i]) + pieces[i]
  {
    assert pieces[..i + 1][..i] == pieces[..i];
  }

  lemma {:induction false} JoinPrefix(pieces: seq<seq<Byte>>, i: nat)
    requires i <= |pieces|
    ensures |Join(pieces[..i])| <= |Join(pieces)|
    decreases |pieces|
  {
    if i == |pieces| {
      assert pieces[..i] == pieces;
    } else {
      assert pieces[..|pieces| - 1][..i] == pieces[..i];
      JoinPrefix(pieces[..|pieces| - 1], i);
    }
  }

  lemma XorNothing(k: seq<Byte>)
    requires |k| == 0
    ensures Xor([], k) == []
  {
  }

  /** s in pieces of the given sizes, and what is left over as the last piece. */
  function Cut(s: seq<Byte>, sizes: seq<nat>): (pieces: seq<seq<Byte>>)
    ensures Join(pieces) == s
    decreases |sizes|
  {
    if sizes == [] then [s]
    else
      var n := sizes[|sizes| - 1];
      var k := if n > |s| then 0 else |s| - n;
      assert s == s[..k] + s[k..];
      var front := Cut(s[..k], sizes[..|sizes| - 1]);
      assert (front + [s[k..]])[..|front|] == front;
      front + [s[k..]]
  }
}
