/** Bit strings, most significant bit first, and their division into digits of equal width. */
module BitStrings {
  import opened Numbers
  import opened Bytes

  type Bit = b: nat | b < 2

  function Number(bits: seq<Bit>): nat {
    if bits == [] then 0 else 2 * Number(bits[..|bits| - 1]) + bits[|bits| - 1]
  }

  /** The bits as the front of an n-bit number whose other bits are zero. */
  function Aligned(bits: seq<Bit>, n: nat): nat
    requires |bits| <= n
  {
    ShlNat(Number(bits), n - |bits|)
  }

  /** v in n bits. */
  function BitsOf(v: nat, n: nat): (bits: seq<Bit>)
    ensures |bits| == n
  {
    if n == 0 then [] else BitsOf(v / 2, n - 1) + [v % 2]
  }

  /** n digits of w bits. */
  function Width(n: nat, w: nat): nat {
    if n == 0 then 0 else Width(n - 1, w) + w
  }

  /** Digits of w bits, one after the other. */
  function BitString(digits: seq<nat>, w: nat): (bits: seq<Bit>)
    ensures |bits| == Width(|digits|, w)
  {
    if digits == [] then [] else BitString(digits[..|digits| - 1], w) + BitsOf(digits[|digits| - 1], w)
  }

  /** The complete digits of w bits that the bits divide into. */
  function Divide(bits: seq<Bit>, w: nat): seq<nat>
    requires w > 0
    decreases |bits|
  {
    if |bits| < w then [] else [Aligned(bits[..w], w)] + Divide(bits[w..], w)
  }

  /** The same, with zeros to complete the last one. */
  function DivideAll(bits: seq<Bit>, w: nat): seq<nat>
    requires w > 0
    decreases |bits|
  {
    if bits == [] then []
    else if |bits| < w then [Aligned(bits, w)]
    else [Aligned(bits[..w], w)] + DivideAll(bits[w..], w)
  }

  predicate Digits(digits: seq<nat>, w: nat) {
    forall i :: 0 <= i < |digits| ==> digits[i] < Pow2(w)
  }

  // ---------- Numbers and bits ----------

  lemma NumberNext(bits: seq<Bit>, b: Bit)
    ensures Number(bits + [b]) == 2 * Number(bits) + b
  {
    assert (bits + [b])[..|bits|] == bits;
  }

  lemma {:induction false} NumberBound(bits: seq<Bit>)
    ensures Number(bits) < Pow2(|bits|)
  {
    if bits != [] { NumberBound(bits[..|bits| - 1]); }
  }

  lemma {:induction false} NumberAppend(p: seq<Bit>, q: seq<Bit>)
    ensures Number(p + q) == Shl(Number(p), |q|) + Number(q)
    decreases |q|
  {
    if q == [] {
      assert p + q == p;
    } else {
      var t := q[..|q| - 1];
      NumberAppend(p, t);
      assert p + q == (p + t) + [q[|q| - 1]];
      NumberNext(p + t, q[|q| - 1]);
    }
  }

  lemma {:induction false} NumberOfBits(v: nat, n: nat)
    requires v < Pow2(n)
    ensures Number(BitsOf(v, n)) == v
  {
    if n > 0 {
      NumberOfBits(v / 2, n - 1);
      NumberNext(BitsOf(v / 2, n - 1), v % 2);
    }
  }

  lemma {:induction false} BitsOfNumber(bits: seq<Bit>)
    ensures BitsOf(Number(bits), |bits|) == bits
  {
    if bits != [] {
      var t, b := bits[..|bits| - 1], bits[|bits| - 1];
      BitsOfNumber(t);
      Halves(Number(t), b);
      assert bits == t + [b];
    }
  }

  lemma Halves(x: nat, b: Bit)
    ensures (2 * x + b) / 2 == x && (2 * x + b) % 2 == b
  {
  }

  lemma AlignedAppend(p: seq<Bit>, q: seq<Bit>, n: nat)
    requires |p| + |q| <= n
    ensures Aligned(p + q, n) == Aligned(p, n) + Aligned(q, n - |p|)
  {
    var k := n - |p| - |q|;
    NumberAppend(p, q);
    ShlAdd(Shl(Number(p), |q|), Number(q), k);
    ShlShl(Number(p), |q|, k);
  }

  lemma AlignedBound(q: seq<Bit>, n: nat)
    requires |q| <= n
    ensures Aligned(q, n) < Pow2(n)
  {
    NumberBound(q);
    ShlOrder(Number(q), Pow2(|q|), n - |q|);
    Pow2Split(|q|, n - |q|);
  }

  lemma AlignedNothing(n: nat)
    ensures Aligned([], n) == 0
  {
    ShlZero(n);
  }

  /** A right shift drops bits at the end. */
  lemma {:induction false} AlignedShr(q: seq<Bit>, n: nat, j: nat)
    requires |q| <= n && j <= n
    ensures Shr(Aligned(q, n), j) == if |q| <= n - j then Aligned(q, n - j) else Aligned(q[..n - j], n - j)
    decreases j
  {
    if j > 0 {
      if |q| < n {
        AlignedShr(q, n - 1, j - 1);
      } else {
        var t := q[..n - 1];
        Halves(Number(t), q[n - 1]);
        AlignedShr(t, n - 1, j - 1);
        assert t[..n - j] == q[..n - j];
      }
    } else if |q| == n {
      assert q[..n] == q;
    }
  }

  /** A left shift within n bits drops bits at the front. */
  lemma AlignedShl(q: seq<Bit>, n: nat, j: nat)
    requires j <= |q| <= n
    ensures Shl(Aligned(q, n), j) == Shl(Number(q[..j]), n) + Aligned(q[j..], n)
  {
    hide Number;
    var a, b := q[..j], q[j..];
    assert q == a + b;
    AlignedAppend(a, b, n);
    ShlAdd(Aligned(a, n), Aligned(b, n - j), j);
    ShlShl(Number(a), n - j, j);
    ShlShl(Number(b), n - j - |b|, j);
  }

  // ---------- Digits and bits ----------

  lemma BitStringLast(digits: seq<nat>, d: nat, w: nat)
    ensures BitString(digits + [d], w) == BitString(digits, w) + BitsOf(d, w)
  {
    hide BitsOf, Width;
    assert (digits + [d])[..|digits|] == digits;
  }

  lemma {:induction false} BitStringAppend(a: seq<nat>, b: seq<nat>, w: nat)
    ensures BitString(a + b, w) == BitString(a, w) + BitString(b, w)
    decreases |b|
  {
    hide Width, BitsOf, BitString;
    if b == [] {
      assert a + b == a;
      BitStringNothing(w);
    } else {
      var t, d := b[..|b| - 1], b[|b| - 1];
      assert b == t + [d] && a + b == a + t + [d];
      BitStringAppend(a, t, w);
      BitStringLast(t, d, w);
      BitStringLast(a + t, d, w);
    }
  }

  lemma BitStringOne(d: nat, w: nat)
    ensures BitString([d], w) == BitsOf(d, w)
  {
    assert [d][..0] == [];
  }

  /** One more digit, made of exactly its bits. */
  lemma BitStringNext(digits: seq<nat>, bits: seq<Bit>)
    ensures BitString(digits + [Aligned(bits, |bits|)], |bits|) == BitString(digits, |bits|) + bits
  {
    BitsOfNumber(bits);
    BitStringOne(Aligned(bits, |bits|), |bits|);
    BitStringAppend(digits, [Aligned(bits, |bits|)], |bits|);
  }

  lemma FirstDigit(digits: seq<nat>, w: nat)
    requires digits != []
    ensures BitString(digits, w) == BitsOf(digits[0], w) + BitString(digits[1..], w)
  {
    assert digits == [digits[0]] + digits[1..];
    BitStringAppend([digits[0]], digits[1..], w);
    BitStringOne(digits[0], w);
  }

  lemma AlignedOfBits(d: nat, w: nat)
    requires d < Pow2(w)
    ensures Aligned(BitsOf(d, w), w) == d
  {
    NumberOfBits(d, w);
  }

  lemma DivideStep(first: seq<Bit>, more: seq<Bit>, w: nat)
    requires |first| == w > 0
    ensures Divide(first + more, w) == [Aligned(first, w)] + Divide(more, w)
    ensures DivideAll(first + more, w) == [Aligned(first, w)] + DivideAll(more, w)
  {
    hide Aligned;
    assert (first + more)[..w] == first && (first + more)[w..] == more;
  }

  lemma DivideRest(rest: seq<Bit>, w: nat)
    requires |rest| < w
    ensures Divide(rest, w) == []
    ensures DivideAll(rest, w) == if rest == [] then [] else [Aligned(rest, w)]
  {
  }

  /** Dividing a string of digits gives them back; fewer bits than a digit do not matter. */
  lemma {:induction false} DivideBitString(digits: seq<nat>, rest: seq<Bit>, w: nat)
    requires w > 0 && Digits(digits, w) && |rest| < w
    ensures Divide(BitString(digits, w) + rest, w) == digits
    ensures DivideAll(BitString(digits, w) + rest, w) == digits + if rest == [] then [] else [Aligned(rest, w)]
    decreases |digits|
  {
    hide Aligned, Divide, DivideAll, BitsOf, Pow2;
    if digits == [] {
      assert BitString(digits, w) + rest == rest;
      DivideRest(rest, w);
    } else {
      FirstDigit(digits, w);
      var first, more := BitsOf(digits[0], w), BitString(digits[1..], w) + rest;
      assert BitString(digits, w) + rest == first + more;
      AlignedOfBits(digits[0], w);
      DivideStep(first, more, w);
      DivideBitString(digits[1..], rest, w);
      assert digits == [digits[0]] + digits[1..];
    }
  }

  /** Nothing but zeros is added to complete the last digit, and less than a digit of them. */
  lemma {:induction false} DivideAllBits(bits: seq<Bit>, w: nat) returns (zeros: nat)
    requires w > 0
    ensures zeros < w && BitString(DivideAll(bits, w), w) == bits + Zeros(zeros)
    ensures Digits(DivideAll(bits, w), w)
    decreases |bits|
  {
    hide Aligned, BitsOf, Pow2, BitString;
    if bits == [] {
      zeros := 0;
      BitStringNothing(w);
    } else if |bits| < w {
      zeros := w - |bits|;
      PaddedDigit(bits, w);
      AlignedBound(bits, w);
    } else {
      var first, more := bits[..w], bits[w..];
      zeros := DivideAllBits(more, w);
      assert bits == first + more;
      DivideStep(first, more, w);
      AlignedBound(first, w);
      var ds := DivideAll(more, w);
      assert ([Aligned(first, w)] + ds)[1..] == ds;
      FirstDigit([Aligned(first, w)] + ds, w);
      BitsOfAligned(first);
    }
  }

  lemma DivideAllDigits(bits: seq<Bit>, w: nat)
    requires w > 0
    ensures Digits(DivideAll(bits, w), w)
  {
    var zeros := DivideAllBits(bits, w);
  }

  lemma BitStringNothing(w: nat)
    ensures BitString([], w) == []
  {
  }

  lemma BitsOfAligned(bits: seq<Bit>)
    ensures BitsOf(Aligned(bits, |bits|), |bits|) == bits
  {
    BitsOfNumber(bits);
  }

  lemma PaddedDigit(bits: seq<Bit>, w: nat)
    requires |bits| <= w
    ensures BitString([Aligned(bits, w)], w) == bits + Zeros(w - |bits|)
  {
    AlignedZeros(bits, w - |bits|);
    BitsOfNumber(bits + Zeros(w - |bits|));
    BitStringOne(Aligned(bits, w), w);
  }

  lemma {:induction false} AlignedZeros(bits: seq<Bit>, n: nat)
    ensures Number(bits + Zeros(n)) == Aligned(bits, |bits| + n)
  {
    if n == 0 {
      assert bits + Zeros(0) == bits;
    } else {
      AlignedZeros(bits, n - 1);
      assert bits + Zeros(n) == (bits + Zeros(n - 1)) + [0];
      NumberNext(bits + Zeros(n - 1), 0);
    }
  }

  /** Bytes in digits of at most eight bits, and back. */
  lemma Regrouping(bytes: seq<nat>, w: nat)
    requires 0 < w <= 8 && Digits(bytes, 8)
    ensures Divide(BitString(DivideAll(BitString(bytes, 8), w), w), 8) == bytes
  {
    var zeros := DivideAllBits(BitString(bytes, 8), w);
    DivideBitString(bytes, Zeros(zeros), 8);
  }

  // ---------- Inclusive or ----------

  function OrDigits(a: nat, b: nat, n: nat): nat {
    if n == 0 then 0 else 2 * OrDigits(a / 2, b / 2, n - 1) + if a % 2 == 1 || b % 2 == 1 then 1 else 0
  }

  lemma {:induction false} OrBound(a: nat, b: nat, n: nat)
    ensures OrDigits(a, b, n) < Pow2(n)
  {
    if n > 0 { OrBound(a / 2, b / 2, n - 1); }
  }

  function OrByte(a: Byte, b: nat): Byte {
    OrBound(a, b, 8);
    assert Pow2(8) == 256;
    OrDigits(a, b, 8)
  }

  lemma {:induction false} OrNothing(a: nat, n: nat)
    requires a < Pow2(n)
    ensures OrDigits(a, 0, n) == a
  {
    if n > 0 { OrNothing(a / 2, n - 1); }
  }

  /** Numbers without a common bit are added. */
  lemma {:induction false} OrDisjoint(c: nat, a: nat, b: nat, k: nat, n: nat)
    requires a == Shl(c, k) && b < Pow2(k) && a + b < Pow2(n)
    ensures OrDigits(a, b, n) == a + b
    decreases n
  {
    if k == 0 {
      OrNothing(a, n);
    } else if n > 0 {
      ShlNatural(c, k - 1);
      OrDisjoint(c, a / 2, b / 2, k - 1, n - 1);
    }
  }

  /** `|=` into a byte drops what lies above it. */
  lemma {:induction false} OrIgnoresHigh(a: nat, x: nat, b: nat, n: nat)
    ensures Shl(x, n) >= 0 && OrDigits(a, Shl(x, n) + b, n) == OrDigits(a, b, n)
  {
    if n > 0 { OrIgnoresHigh(a / 2, x, b / 2, n - 1); }
  }

  lemma ShlNatural(c: nat, k: nat)
    ensures Shl(c, k) >= 0
  {
    assert ShlNat(c, k) >= 0;
  }

  /** `|=` of bits into a byte whose top n bits hold p, behind p. */
  lemma OrAligned(p: seq<Bit>, q: seq<Bit>, n: nat)
    requires |p| + |q| <= n <= 8
    ensures Aligned(p, n) < 256 && OrByte(Aligned(p, n), Aligned(q, n - |p|)) == Aligned(p + q, n)
  {
    AlignedAppend(p, q, n);
    AlignedBound(p, n);
    AlignedBound(q, n - |p|);
    AlignedBound(p + q, n);
    Pow2Mono(n, 8);
    assert Pow2(8) == 256;
    OrDisjoint(Number(p), Aligned(p, n), Aligned(q, n - |p|), n - |p|, 8);
  }
}
