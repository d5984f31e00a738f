/** `DEREncodeUnsigned` and `BERDecodeUnsigned` (asn.h): section 8.3 of ITU-T X.690. */
module DerIntegers {
  import opened Bytes
  import opened ByteQueues
  import opened BerLengths

  const BOOLEAN: Byte := 0x01

  // ---------- Specification ----------

  /** The least number of octets that hold w and a sign bit. */
  function SignedCount(w: nat): (n: nat)
    ensures n >= 1
  {
    if w < 128 then 1 else 1 + SignedCount(w / 256)
  }

  lemma {:induction false} SignedCountIs(w: nat, n: nat)
    requires n >= 1 && 2 * w < Power256(n) && (n > 1 ==> 2 * w >= Power256(n - 1))
    ensures SignedCount(w) == n
  {
    hide Power256;
    PowerOne();
    if n > 1 {
      HalfPower(n);
      HalfPower(n - 1);
      if n > 2 { HalfPower(n - 2); }
      DropByte(w, 128 * Power256(n - 2), if n > 2 then 128 * Power256(n - 3) else 0);
      SignedCountIs(w / 256, n - 1);
    }
  }

  lemma DropByte(w: nat, h: nat, g: nat)
    requires 256 * g <= w < 256 * h
    ensures g <= w / 256 < h
  {
  }

  lemma HalfPower(n: nat)
    requires n >= 1
    ensures Power256(n) == 256 * Power256(n - 1)
    ensures Power256(n) >= 256
  {
  }

  function Contents(w: nat, asnTag: Byte): seq<Byte> {
    if asnTag == BOOLEAN then [if w != 0 then 0xff else 0] else BigEndian(w, SignedCount(w))
  }

  function Encoded(w: nat, asnTag: Byte): seq<Byte>
    requires |Contents(w, asnTag)| < LWORD_LIMIT
  {
    [asnTag] + DerLength(|Contents(w, asnTag)|) + Contents(w, asnTag)
  }

  datatype Reading = Number(value: nat, rest: seq<Byte>) | Unreadable

  /** The number at the front of s, if it is one of `size` bytes and within bounds. */
  function ReadUnsigned(s: seq<Byte>, size: nat, asnTag: Byte, minValue: nat, maxValue: nat): Reading {
    if s == [] || s[0] != asnTag then Unreadable
    else
      match ReadLength(s[1..])
      case Definite(n, k) =>
        if 1 + k + n > |s| then Unreadable
        else
          var w := Value(s[1 + k..1 + k + n]);
          if w < Power256(size) && minValue <= w <= maxValue then Number(w, s[1 + k + n..]) else Unreadable
      case _ => Unreadable
  }

  /** The most significant of n octets tells where w lies. */
  lemma {:induction false} TopByte(w: nat, n: nat)
    requires n >= 1 && w < Power256(n)
    ensures BigEndian(w, n)[0] == 0 <==> w < Power256(n - 1)
    ensures BigEndian(w, n)[0] >= 128 <==> 2 * w >= Power256(n)
  {
    if n == 1 {
      assert BigEndian(w, 1) == BigEndian(w / 256, 0) + [ByteOf(w)];
      assert Power256(0) == 1 && Power256(1) == 256 * Power256(0);
    } else {
      TopByte(w / 256, n - 1);
      HalfPower(n);
      HalfPower(n - 1);
    }
  }

  lemma {:induction false} LeadingZero(s: seq<Byte>)
    ensures Value([0] + s) == Value(s)
  {
    var t := [0] + s;
    if s == [] {
      assert t[..0] == [];
    } else {
      LeadingZero(s[..|s| - 1]);
      assert t[..|t| - 1] == [0] + s[..|s| - 1];
    }
  }

  lemma {:induction false} LargeValue(s: seq<Byte>)
    requires s != [] && s[0] != 0
    ensures Value(s) >= Power256(|s| - 1)
  {
    if |s| > 1 {
      LargeValue(s[..|s| - 1]);
    } else {
      OneByte(s[0]);
      assert s == [s[0]];
      PowerOne();
    }
  }

  lemma {:induction false} SignedCountBound(w: nat, size: nat)
    requires w < Power256(size)
    ensures SignedCount(w) <= size + 1
    ensures w < Power256(SignedCount(w))
    decreases size
  {
    if w >= 128 {
      SignedCountBound(w / 256, size - 1);
    } else {
      assert Power256(1) == 256 * Power256(0);
    }
  }

  lemma PowerOne()
    ensures Power256(0) == 1 && Power256(1) == 256
  {
    assert Power256(1) == 256 * Power256(0);
  }

  lemma OneByte(b: Byte)
    ensures Value([b]) == b
  {
    assert [b][..0] == [];
  }

  /** Any contents are read back as their value. */
  lemma ReadBack(c: seq<Byte>, size: nat, asnTag: Byte, minValue: nat, maxValue: nat, rest: seq<Byte>)
    requires |c| < LWORD_LIMIT
    ensures ReadUnsigned([asnTag] + DerLength(|c|) + c + rest, size, asnTag, minValue, maxValue)
            == if Value(c) < Power256(size) && minValue <= Value(c) <= maxValue then Number(Value(c), rest) else Unreadable
  {
    hide DerLength, Value, ReadLength, Power256;
    var k := |DerLength(|c|)|;
    var s := [asnTag] + DerLength(|c|) + c + rest;
    assert s[1..] == DerLength(|c|) + (c + rest);
    LengthRoundTrip(|c|, c + rest);
    assert s[1 + k..1 + k + |c|] == c && s[1 + k + |c|..] == rest;
  }

  lemma ContentsValue(w: nat, size: nat, asnTag: Byte)
    requires 1 <= size <= 8 && w < Power256(size)
    ensures |Contents(w, asnTag)| <= 9 && Value(Contents(w, asnTag)) < Power256(size)
    ensures Value(Contents(w, asnTag)) == w <==> asnTag != BOOLEAN || w == 0 || w == 0xff
  {
    SignedCountBound(w, size);
    BigEndianValue(w, SignedCount(w));
    OneByte(0);
    OneByte(0xff);
    PowerOne();
    Power256Mono(1, size);
  }

  /** Decoding undoes encoding for every value in bounds, except that a BOOLEAN keeps only
      whether it is zero. */
  lemma UnsignedRoundTrip(w: nat, size: nat, asnTag: Byte, minValue: nat, maxValue: nat, rest: seq<Byte>)
    requires 1 <= size <= 8 && w < Power256(size) && minValue <= w <= maxValue
    ensures |Contents(w, asnTag)| < LWORD_LIMIT
    ensures ReadUnsigned(Encoded(w, asnTag) + rest, size, asnTag, minValue, maxValue) == Number(w, rest)
            <==> asnTag != BOOLEAN || w == 0 || w == 0xff
  {
    hide Contents, Power256, Value, ReadUnsigned;
    ContentsValue(w, size, asnTag);
    ReadBack(Contents(w, asnTag), size, asnTag, minValue, maxValue, rest);
  }

  /** No shorter contents denote the same value with a clear sign bit. */
  lemma ContentsAreShortest(w: nat, c: seq<Byte>)
    requires c != [] && c[0] < 128 && Value(c) == w
    ensures SignedCount(w) <= |c|
  {
    PositiveValue(c);
    SignedCountAtMost(w, |c|);
  }

  lemma {:induction false} PositiveValue(c: seq<Byte>)
    requires c != [] && c[0] < 128
    ensures 2 * Value(c) < Power256(|c|)
  {
    hide Value, Power256;
    PowerOne();
    if |c| > 1 {
      ValueSplit(c);
      PositiveValue(c[..|c| - 1]);
      HalfPower(|c|);
      HalfPower(|c| - 1);
      EvenPower(Power256(|c| - 2), Value(c[..|c| - 1]), c[|c| - 1]);
    } else {
      OneByte(c[0]);
      assert c == [c[0]];
    }
  }

  lemma EvenPower(p: nat, v: nat, b: Byte)
    requires 2 * v < 256 * p
    ensures 2 * (256 * v + b) < 256 * (256 * p)
  {
  }

  lemma {:induction false} SignedCountAtMost(w: nat, n: nat)
    requires n >= 1 && 2 * w < Power256(n)
    ensures SignedCount(w) <= n
  {
    PowerOne();
    if w >= 128 {
      HalfPower(n - 1);
      SignedCountAtMost(w / 256, n - 1);
    }
  }

  // ---------- The code ----------

  /** The loop that fills the buffer: w, most significant byte first, behind a zero. */
  method FillBuffer(w: nat, size: nat) returns (buf: array<Byte>)
    requires w < Power256(size)
    ensures fresh(buf) && buf[..] == BigEndian(w, size + 1)
  {
    hide BigEndian;
    buf := new Byte[size + 1];
    buf[0] := 0;
    ShrBytesOut(w, size);
    BigEndianEnd(0);
    BigEndianNext(0, 0);
    for i := 0 to size
      invariant buf[..i + 1] == BigEndian(ShrBytes(w, size - i), i + 1)
    {
      BigEndianNext(ShrBytes(w, size - 1 - i), i + 1);
      buf[i + 1] := ByteOf(ShrBytes(w, size - 1 - i));
      assert buf[..i + 1 + 1] == buf[..i + 1] + [buf[i + 1]];
    }
    assert buf[..] == buf[..size + 1];
  }

  /** `DEREncodeUnsigned` for a type of `size` bytes. */
  method DEREncodeUnsigned(out: ByteQueue, w: nat, size: nat, asnTag: Byte) returns (count: nat)
    requires 1 <= size <= 8 && w < Power256(size)
    modifies out
    ensures |Contents(w, asnTag)| < LWORD_LIMIT
    ensures out.contents == old(out.contents) + Encoded(w, asnTag) && count == |Encoded(w, asnTag)|
  {
    hide BigEndian, Power256, DerLength;
    var contents;
    if asnTag == BOOLEAN {
      contents := [if w != 0 then 0xff else 0];
    } else {
      contents := IntegerContents(w, size);
    }
    ContentsValue(w, size, asnTag);
    out.Put(asnTag);
    var lengthBytes := DERLengthEncode(out, |contents|);
    out.PutBytes(contents);
    return 1 + lengthBytes + |contents|;
  }

  /** The branch for everything but BOOLEAN. */
  method IntegerContents(w: nat, size: nat) returns (contents: seq<Byte>)
    requires 1 <= size && w < Power256(size)
    ensures contents == BigEndian(w, SignedCount(w))
  {
    hide BigEndian, Power256;
    var buf := FillBuffer(w, size);
    var bc := size;
    BigEndianTail(w, size + 1, bc);
    TopByte(w, bc);
    while bc > 1 && buf[size + 1 - bc] == 0
      invariant 1 <= bc <= size && w < Power256(bc) && buf[..] == BigEndian(w, size + 1)
      invariant BigEndian(w, bc) == buf[size + 1 - bc..]
      invariant buf[size + 1 - bc] == 0 <==> w < Power256(bc - 1)
      invariant buf[size + 1 - bc] >= 128 <==> 2 * w >= Power256(bc)
    {
      bc := bc - 1;
      BigEndianTail(w, size + 1, bc);
      TopByte(w, bc);
    }
    HalfPower(bc);
    HalfPower(bc + 1);
    if buf[size + 1 - bc] >= 0x80 {
      bc := bc + 1;
      BigEndianTail(w, size + 1, bc);
    }
    SignedCountIs(w, bc);
    assert buf[size + 1 - bc..] == buf[..][size + 1 - bc..];
    return buf[size + 1 - bc..];
  }

  /** `BERDecodeUnsigned`. Zeros in front do not count towards the size. */
  method BERDecodeUnsigned(source: ByteQueue, size: nat, asnTag: Byte, minValue: nat, maxValue: nat) returns (ok: bool, w: nat)
    requires size >= 1
    modifies source
    ensures
      match ReadUnsigned(old(source.contents), size, asnTag, minValue, maxValue)
      case Number(value, rest) => ok && w == value && source.contents == rest
      case Unreadable => !ok
  {
    hide Value, Power256, ReadLength;
    ghost var s := source.contents;
    var b, bc, definite;
    w := 0;
    ok, b := source.Get();
    if !ok || b != asnTag {
      return false, 0;
    }
    ok, bc, definite := BERLengthDecode(source);
    if !ok || !definite {
      return false, 0;
    }
    ghost var k := ReadLength(s[1..]).octets;
    assert source.contents == s[1 + k..];
    var buf := source.GetBytes(bc);
    if bc != |buf| {
      return false, 0;
    }
    assert s[1 + k..] == buf + source.contents;
    assert buf == s[1 + k..1 + k + bc] && source.contents == s[1 + k + bc..];
    ok, w := FoldBytes(buf, size);
    if ok {
      ok := minValue <= w <= maxValue;
    }
  }

  method FoldBytes(buf: seq<Byte>, size: nat) returns (ok: bool, w: nat)
    requires size >= 1
    ensures ok == (Value(buf) < Power256(size))
    ensures ok ==> w == Value(buf)
  {
    hide Value, Power256;
    var ptr := buf;
    while |ptr| > size && ptr[0] == 0
      invariant Value(ptr) == Value(buf)
    {
      LeadingZero(ptr[1..]);
      assert ptr == [0] + ptr[1..];
      ptr := ptr[1..];
    }
    if |ptr| > size {
      LargeValue(ptr);
      Power256Mono(size, |ptr| - 1);
      return false, 0;
    }
    w := 0;
    ValueOfNothing();
    for i := 0 to |ptr|
      invariant w == Value(ptr[..i])
    {
      assert ptr[..i + 1] == ptr[..i] + [ptr[i]];
      ValueNext(ptr[..i], ptr[i]);
      w := w * 256 + ptr[i];
    }
    assert ptr[..|ptr|] == ptr;
    ValueBound(ptr);
    Power256Mono(|ptr|, size);
    return true, w;
  }
}
