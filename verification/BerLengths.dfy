/** Length octets (asn.cpp lines 17-86): sections 8.1.3 and 10.1 of ITU-T X.690. */
module BerLengths {
  import opened Numbers
  import opened Bytes
  import opened ByteQueues

  const LWORD_LIMIT := 0x1_0000_0000_0000_0000

  // ---------- Specification ----------

  /** The least number of bytes that hold n. */
  function ByteCount(n: nat): nat {
    if n == 0 then 0 else 1 + ByteCount(n / 256)
  }

  lemma {:induction false} ByteCountBounds(n: nat)
    ensures n < Power256(ByteCount(n))
    ensures n > 0 ==> ByteCount(n) > 0 && Power256(ByteCount(n) - 1) <= n
  {
    if n > 0 { ByteCountBounds(n / 256); }
  }

  lemma ByteCountIs(n: nat, k: nat)
    requires n < Power256(k) && (k > 0 ==> Power256(k - 1) <= n)
    ensures ByteCount(n) == k
  {
    ByteCountBounds(n);
    if k < ByteCount(n) {
      Power256Mono(k, ByteCount(n) - 1);
    } else if k > ByteCount(n) {
      Power256Mono(ByteCount(n), k - 1);
    }
  }

  lemma LwordBytes(n: nat)
    requires n < LWORD_LIMIT
    ensures ByteCount(n) <= 8
  {
    EightByteLengths();
    ByteCountBounds(n);
    if ByteCount(n) > 8 { Power256Mono(8, ByteCount(n) - 1); }
  }

  /** The definite form with the fewest octets. */
  function DerLength(n: nat): (s: seq<Byte>)
    requires n < LWORD_LIMIT
    ensures s != []
  {
    LwordBytes(n);
    if n <= 0x7f then [n] else [0x80 + ByteCount(n)] + BigEndian(n, ByteCount(n))
  }

  datatype LengthField = Definite(length: nat, octets: nat) | Indefinite | Malformed

  /** What the length octets at the front of s say. */
  function ReadLength(s: seq<Byte>): (f: LengthField)
    ensures f.Definite? ==> 0 < f.octets <= |s| && f.length < LWORD_LIMIT
    ensures f.Indefinite? ==> |s| > 0
  {
    if s == [] then Malformed
    else if s[0] < 0x80 then Definite(s[0], 1)
    else if s[0] == 0x80 then Indefinite
    else
      var k := s[0] - 0x80;
      if 1 + k > |s| then Malformed
      else if Value(s[1..1 + k]) >= LWORD_LIMIT then Malformed
      else Definite(Value(s[1..1 + k]), 1 + k)
  }

  /** Decoding undoes encoding, whatever follows. */
  lemma LengthRoundTrip(n: nat, rest: seq<Byte>)
    requires n < LWORD_LIMIT
    ensures ReadLength(DerLength(n) + rest) == Definite(n, |DerLength(n)|)
  {
    if n > 0x7f {
      var k, s := ByteCount(n), DerLength(n) + rest;
      LwordBytes(n);
      ByteCountBounds(n);
      assert s[1..1 + k] == BigEndian(n, k);
      BigEndianValue(n, k);
    }
  }

  /** No definite form of the same length is shorter than the encoder's. */
  lemma DerLengthIsShortest(s: seq<Byte>)
    requires ReadLength(s).Definite?
    ensures |DerLength(ReadLength(s).length)| <= ReadLength(s).octets
  {
    var f := ReadLength(s);
    if f.length > 0x7f {
      var k := f.octets - 1;
      ValueBound(s[1..1 + k]);
      ByteCountBounds(f.length);
      if ByteCount(f.length) > k { Power256Mono(k, ByteCount(f.length) - 1); }
    }
  }

  /** Only the octets that are read matter. */
  lemma LengthIgnoresRest(s: seq<Byte>, t: seq<Byte>)
    ensures ReadLength(s).Definite? ==> ReadLength(s + t) == ReadLength(s)
    ensures ReadLength(s).Indefinite? ==> ReadLength(s + t).Indefinite?
  {
    if s != [] && s[0] > 0x80 && s[0] - 0x80 < |s| {
      var k := s[0] - 0x80;
      assert (s + t)[1..1 + k] == s[1..1 + k];
    }
  }

  lemma {:induction false} ValuePrefix(k: seq<Byte>, j: nat)
    requires j < |k|
    ensures 256 * Value(k[..j]) <= Value(k)
    decreases |k|
  {
    if j == |k| - 1 {
      assert k[..j] == k[..|k| - 1];
    } else {
      assert k[..|k| - 1][..j] == k[..j];
      ValuePrefix(k[..|k| - 1], j);
    }
  }

  // ---------- The code ----------

  /** `BytePrecision` of misc.h for a word of 8 * size bits: a binary search for the highest
      byte that is not zero. */
  method BytePrecision(value: nat, size: nat) returns (bytes: nat)
    requires size == 1 || size == 2 || size == 4 || size == 8
    requires value < Pow2(8 * size)
    ensures bytes == ByteCount(value)
  {
    hide Pow2, Shr;
    if value == 0 {
      return 0;
    }
    Pow2Zero();
    var l, h := 0, 8 * size;
    while h - l > 8
      invariant 0 <= l < h <= 64 && l % 8 == 0
      invariant h - l == 8 || h - l == 16 || h - l == 32 || h - l == 64
      invariant Pow2(l) <= value < Pow2(h)
      decreases h - l
    {
      var t := (l + h) / 2;
      ShiftTest(value, t);
      if Shr(value, t) != 0 {
        l := t;
      } else {
        h := t;
      }
    }
    Power256IsPow2(h / 8);
    Power256IsPow2(h / 8 - 1);
    ByteCountIs(value, h / 8);
    return h / 8;
  }

  lemma Pow2Zero()
    ensures Pow2(0) == 1
  {
  }

  /** value >> 8 * j. */
  function ShrBytes(value: nat, j: nat): nat {
    if j == 0 then value else ShrBytes(value, j - 1) / 256
  }

  lemma {:induction false} ShrBytesOut(value: nat, j: nat)
    requires value < Power256(j)
    ensures ShrBytes(value, j) == 0
  {
    ShrBytesBound(value, j, j);
  }

  lemma {:induction false} ShrBytesBound(value: nat, i: nat, j: nat)
    requires value < Power256(j) && i <= j
    ensures ShrBytes(value, i) < Power256(j - i)
  {
    if i > 0 { ShrBytesBound(value, i - 1, j); }
  }

  /** `DERLengthEncode`. */
  method DERLengthEncode(bt: ByteQueue, length: nat) returns (i: nat)
    requires length < LWORD_LIMIT
    modifies bt
    ensures bt.contents == old(bt.contents) + DerLength(length)
    ensures i == |DerLength(length)|
  {
    hide Pow2, BigEndian, Power256, ByteCount, ShrBytes;
    i := 0;
    if length <= 0x7f {
      bt.Put(length);
      i := i + 1;
    } else {
      Power256IsPow2(8);
      EightByteLengths();
      LwordBytes(length);
      ByteCountBounds(length);
      var precision := BytePrecision(length, 8);
      bt.Put(precision + 0x80);
      i := i + 1;
      var j := precision;
      ShrBytesOut(length, precision);
      BigEndianEnd(0);
      ShrBytesNone(length);
      while j != 0
        invariant 0 <= j <= precision && i == 1 + precision - j
        invariant bt.contents == old(bt.contents) + ([0x80 + precision] + BigEndian(ShrBytes(length, j), precision - j))
      {
        ShrBytesNext(length, j);
        BigEndianNext(ShrBytes(length, j - 1), precision - j);
        bt.Put(ByteOf(ShrBytes(length, j - 1)));
        i := i + 1;
        j := j - 1;
      }
    }
  }

  lemma ShrBytesNone(value: nat)
    ensures ShrBytes(value, 0) == value
  {
  }

  lemma ShrBytesNext(value: nat, j: nat)
    requires j > 0
    ensures ShrBytes(value, j) == ShrBytes(value, j - 1) / 256
  {
  }

  /** `BERLengthDecode`. Neither `length` nor `definite` is set on failure. */
  method BERLengthDecode(bt: ByteQueue) returns (ok: bool, length: nat, definite: bool)
    modifies bt
    ensures
      match ReadLength(old(bt.contents))
      case Definite(n, k) => ok && definite && length == n && bt.contents == old(bt.contents)[k..]
      case Indefinite => ok && !definite && bt.contents == old(bt.contents)[1..]
      case Malformed => !ok
  {
    hide Value, Power256;
    ghost var s := bt.contents;
    var b;
    length, definite := 0, true;
    ok, b := bt.Get();
    if !ok {
      return;
    }
    if b < 0x80 {
      return true, b, true;
    }
    var lengthBytes := b - 0x80;
    if lengthBytes == 0 {
      return true, 0, false;
    }
    ghost var k := lengthBytes;
    ghost var j := 0;
    ValueOfNothing();
    assert s[1..1 + j] == [];
    while lengthBytes > 0
      invariant lengthBytes == k - j && j <= k && 1 + j <= |s| && length < LWORD_LIMIT
      invariant length == Value(s[1..1 + j]) && bt.contents == s[1 + j..]
      invariant b >= 0
    {
      if length >= 0x100_0000_0000_0000 {
        if 1 + k <= |s| {
          assert s[1..1 + k][..j] == s[1..1 + j];
          ValuePrefix(s[1..1 + k], j);
        }
        return false, length, true;
      }
      ok, b := bt.Get();
      if !ok {
        return;
      }
      ValueNext(s[1..1 + j], b);
      assert s[1..1 + j] + [b] == s[1..1 + (j + 1)];
      length := length * 256 + b;
      lengthBytes := lengthBytes - 1;
      j := j + 1;
    }
    return true, length, true;
  }

  lemma ValueOfNothing()
    ensures Value([]) == 0
  {
  }

  lemma ValueNext(s: seq<Byte>, b: Byte)
    ensures Value(s + [b]) == 256 * Value(s) + b
  {
    assert (s + [b])[..|s|] == s;
  }
}
