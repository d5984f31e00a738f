/** `OID` (asn.cpp lines 219-284): object identifiers, section 8.19 of ITU-T X.690. */
module ObjectIdentifiers {
  import opened Numbers
  import opened Bytes
  import opened ByteQueues
  import opened BerLengths

  const OBJECT_IDENTIFIER: Byte := 0x06
  const WORD32_LIMIT := 0x1_0000_0000

  // ---------- One arc, base 128 ----------

  /** Seven bits an octet, all with the flag that more follow. */
  function Continued(v: nat): seq<Byte> {
    if v == 0 then [] else Continued(v / 128) + [0x80 + v % 128]
  }

  function EncodedArc(v: nat): (s: seq<Byte>)
    ensures s != []
  {
    Continued(v / 128) + [v % 128]
  }

  /** The number that octets denote, seven bits each. */
  function Value128(s: seq<Byte>): nat {
    if s == [] then 0 else 128 * Value128(s[..|s| - 1]) + s[|s| - 1] % 128
  }

  /** The number of octets before the first one without the flag. */
  function Flagged(s: seq<Byte>): (k: nat)
    ensures k <= |s|
  {
    if s == [] || s[0] < 0x80 then 0 else 1 + Flagged(s[1..])
  }

  datatype Arc = Arc(value: nat, octets: nat) | NoArc

  /** The arc at the front of s, if it is complete and fits 32 bits. */
  function ReadArc(s: seq<Byte>): (a: Arc)
    ensures a.Arc? ==> 0 < a.octets <= |s| && a.value < WORD32_LIMIT
  {
    var k := Flagged(s);
    if k < |s| && Value128(s[..k + 1]) < WORD32_LIMIT then Arc(Value128(s[..k + 1]), k + 1) else NoArc
  }

  lemma Value128Next(s: seq<Byte>, b: Byte)
    ensures Value128(s + [b]) == 128 * Value128(s) + b % 128
  {
    assert (s + [b])[..|s|] == s;
  }

  lemma ContinuedNext(v: nat)
    ensures Continued(v) == if v == 0 then [] else Continued(v / 128) + [0x80 + v % 128]
  {
  }

  /** A flag does not change what an octet counts for. */
  lemma FlagOff(v: nat)
    ensures (0x80 + v % 128) % 128 == v % 128 && 128 * (v / 128) + v % 128 == v
  {
  }

  lemma {:induction false} ContinuedValue(v: nat)
    ensures Value128(Continued(v)) == v
    decreases v
  {
    if v > 0 {
      ContinuedValue(v / 128);
      FlagOff(v);
      Value128Next(Continued(v / 128), 0x80 + v % 128);
    }
  }

  lemma {:induction false} ContinuedFlags(v: nat, rest: seq<Byte>)
    ensures Flagged(Continued(v) + rest) == |Continued(v)| + Flagged(rest)
    ensures v > 0 ==> Continued(v)[0] > 0x80
    decreases v
  {
    if v == 0 {
      assert Continued(v) + rest == rest;
    } else {
      var c, last := Continued(v / 128), [0x80 + v % 128];
      ContinuedFlags(v / 128, last + rest);
      assert Continued(v) + rest == c + (last + rest);
      assert (last + rest)[1..] == rest;
    }
  }

  /** Decoding undoes encoding for every 32-bit arc, whatever follows. */
  lemma ArcRoundTrip(v: nat, rest: seq<Byte>)
    requires v < WORD32_LIMIT
    ensures ReadArc(EncodedArc(v) + rest) == Arc(v, |EncodedArc(v)|)
  {
    hide Continued, Value128;
    var c, last := Continued(v / 128), [v % 128];
    var s := EncodedArc(v) + rest;
    ContinuedFlags(v / 128, last + rest);
    ContinuedValue(v / 128);
    assert s == c + (last + rest);
    assert s[..|c| + 1] == EncodedArc(v);
    Value128Next(c, v % 128);
    FlagOff(v);
  }

  /** The encoding is the shortest: X.690 forbids a first octet of 0x80. */
  lemma ArcIsShortest(v: nat, s: seq<Byte>)
    requires s != [] && Value128(s) == v
    ensures EncodedArc(v)[0] != 0x80 && |EncodedArc(v)| <= |s|
  {
    hide Continued;
    ContinuedNext(v / 128);
    ContinuedFlags(v / 128, []);
    ContinuedLength(s[..|s| - 1]);
    DropDigit(Value128(s[..|s| - 1]), s[|s| - 1]);
  }

  lemma DropDigit(v: nat, b: Byte)
    ensures (128 * v + b % 128) / 128 == v
  {
  }

  lemma {:induction false} ContinuedLength(s: seq<Byte>)
    ensures |Continued(Value128(s))| <= |s|
  {
    if s != [] {
      ContinuedLength(s[..|s| - 1]);
      DropDigit(Value128(s[..|s| - 1]), s[|s| - 1]);
    }
  }

  lemma {:induction false} Value128Prefix(s: seq<Byte>, j: nat)
    requires j < |s|
    ensures 128 * Value128(s[..j]) <= Value128(s)
    decreases |s|
  {
    if j == |s| - 1 {
      assert s[..j] == s[..|s| - 1];
    } else {
      assert s[..|s| - 1][..j] == s[..j];
      Value128Prefix(s[..|s| - 1], j);
    }
  }

  lemma ShrSeven(v: nat, n: nat)
    ensures Shr(v, n + 7) == Shr(v, n) / 128
  {
    ShrStep(v, n);
    ShrStep(v, n + 1);
    ShrStep(v, n + 2);
    ShrStep(v, n + 3);
    ShrStep(v, n + 4);
    ShrStep(v, n + 5);
    ShrStep(v, n + 6);
  }

  /** The highest multiple of seven below the length of v, in bits. */
  lemma TopGroup(bits: nat)
    requires bits >= 7
    ensures var i := (bits + 6) / 7 * 7 - 7; i % 7 == 0 && 0 <= i < bits <= i + 7
  {
  }

  lemma OneGroupMore(v: nat, i: nat)
    requires i < BitCount(v)
    ensures Continued(Shr(v, i)) == Continued(Shr(v, i + 7)) + [0x80 + Shr(v, i) % 128]
  {
    hide Shr, Pow2, Continued;
    BitCountBounds(v);
    Pow2Mono(i, BitCount(v) - 1);
    ShiftTest(v, i);
    ShrSeven(v, i);
    ContinuedNext(Shr(v, i));
  }

  /** `EncodeValue`. */
  method EncodeValue(bt: ByteQueue, v: nat)
    requires v < WORD32_LIMIT
    modifies bt
    ensures bt.contents == old(bt.contents) + EncodedArc(v)
  {
    hide Shr, BitCount, Continued;
    var bits := if BitCount(v) > 7 then BitCount(v) else 7;
    var i := (bits + 6) / 7 * 7 - 7;
    TopGroup(bits);
    ShiftOut(v, i + 7);
    ContinuedNext(0);
    while i != 0
      invariant 0 <= i && i % 7 == 0 && (i > 0 ==> i < BitCount(v))
      invariant bt.contents == old(bt.contents) + Continued(Shr(v, i + 7))
      decreases i
    {
      OneGroupMore(v, i);
      bt.Put(0x80 + Shr(v, i) % 128);
      i := i - 7;
    }
    ShrSeven(v, 0);
    ShrNone(v);
    bt.Put(v % 128);
  }

  lemma ShrNone(v: nat)
    ensures Shr(v, 0) == v
  {
  }

  /** `DecodeValue`: never overflows, and counts what it takes. */
  method DecodeValue(bt: ByteQueue) returns (ok: bool, v: nat, i: nat)
    modifies bt
    ensures
      match ReadArc(old(bt.contents))
      case Arc(value, octets) => ok && v == value && i == octets && bt.contents == old(bt.contents)[octets..]
      case NoArc => !ok
  {
    ghost var s := bt.contents;
    var b;
    v, i := 0, 0;
    while true
      invariant i <= |s| && bt.contents == s[i..] && v == Value128(s[..i])
      invariant v < WORD32_LIMIT && Flagged(s) == i + Flagged(s[i..])
      decreases |s| - i
    {
      ok, b := bt.Get();
      if !ok {
        return;
      }
      i := i + 1;
      if v >= 0x200_0000 {
        ghost var k := Flagged(s);
        if k < |s| {
          assert s[..k + 1][..i - 1] == s[..i - 1];
          Value128Prefix(s[..k + 1], i - 1);
        }
        return false, v, i;
      }
      assert s[..i][..i - 1] == s[..i - 1];
      v := v * 128 + b % 128;
      if b < 0x80 {
        return true, v, i;
      }
      assert s[i - 1..][1..] == s[i..];
    }
  }

  // ---------- Whole identifiers ----------

  predicate Words(values: seq<nat>) {
    forall i :: 0 <= i < |values| ==> values[i] < WORD32_LIMIT
  }

  function EncodedArcs(values: seq<nat>): seq<Byte> {
    if values == [] then [] else EncodedArc(values[0]) + EncodedArcs(values[1..])
  }

  /** The contents octets: the first two arcs share one octet. */
  function Body(values: seq<nat>): (s: seq<Byte>)
    requires |values| >= 2
    ensures s != []
  {
    [ByteOf(values[0] * 40 + values[1])] + EncodedArcs(values[2..])
  }

  function Encoded(values: seq<nat>): seq<Byte>
    requires |values| >= 2 && |Body(values)| < LWORD_LIMIT
  {
    [OBJECT_IDENTIFIER] + DerLength(|Body(values)|) + Body(values)
  }

  datatype Identifier = Identifier(values: seq<nat>, rest: seq<Byte>) | NoIdentifier

  /** As many arcs as fill `length` octets exactly. */
  function ReadArcs(s: seq<Byte>, length: nat): Identifier
    decreases length
  {
    if length == 0 then Identifier([], s)
    else
      match ReadArc(s)
      case NoArc => NoIdentifier
      case Arc(v, n) =>
        if n > length then NoIdentifier
        else
          match ReadArcs(s[n..], length - n)
          case NoIdentifier => NoIdentifier
          case Identifier(vs, rest) => Identifier([v] + vs, rest)
  }

  function ReadIdentifier(s: seq<Byte>): Identifier {
    if s == [] || s[0] != OBJECT_IDENTIFIER then NoIdentifier
    else
      match ReadLength(s[1..])
      case Definite(n, k) =>
        if n < 1 || |s| < 2 + k then NoIdentifier
        else
          (match ReadArcs(s[2 + k..], n - 1)
           case NoIdentifier => NoIdentifier
           case Identifier(vs, rest) => Identifier([s[1 + k] / 40, s[1 + k] % 40] + vs, rest))
      case _ => NoIdentifier
  }

  lemma {:induction false} ArcsRoundTrip(values: seq<nat>, rest: seq<Byte>)
    requires Words(values)
    ensures ReadArcs(EncodedArcs(values) + rest, |EncodedArcs(values)|) == Identifier(values, rest)
  {
    hide EncodedArc, ReadArc;
    if values == [] {
      assert EncodedArcs(values) + rest == rest;
    } else {
      var a, more := EncodedArc(values[0]), EncodedArcs(values[1..]);
      assert EncodedArcs(values) + rest == a + (more + rest);
      ArcRoundTrip(values[0], more + rest);
      assert (a + (more + rest))[|a|..] == more + rest;
      ArcsRoundTrip(values[1..], rest);
      assert [values[0]] + values[1..] == values;
    }
  }

  /** Decoding undoes encoding exactly when the second arc is below 40 and the first two fit
      their octet. */
  lemma IdentifierRoundTrip(values: seq<nat>, rest: seq<Byte>)
    requires |values| >= 2 && Words(values) && |Body(values)| < LWORD_LIMIT
    ensures ReadIdentifier(Encoded(values) + rest) == Identifier(values, rest)
            <==> values[1] < 40 && values[0] * 40 + values[1] < 256
  {
    hide DerLength, ReadLength, EncodedArcs, ReadArcs;
    var body, s := Body(values), Encoded(values) + rest;
    var k := |DerLength(|body|)|;
    LengthRoundTrip(|body|, body + rest);
    assert s[1..] == DerLength(|body|) + (body + rest);
    assert s[1 + k] == body[0];
    assert s[2 + k..] == EncodedArcs(values[2..]) + rest;
    ArcsRoundTrip(values[2..], rest);
    var read := [body[0] / 40, body[0] % 40] + values[2..];
    FirstOctet(values[0], values[1]);
    assert values == [values[0], values[1]] + values[2..];
    assert read == values <==> read[0] == values[0] && read[1] == values[1];
  }

  lemma FirstOctet(a: nat, b: nat)
    ensures ByteOf(a * 40 + b) / 40 == a && ByteOf(a * 40 + b) % 40 == b <==> b < 40 && a * 40 + b < 256
  {
  }

  /** The arc 2.100 shares its octet with 4.20. */
  lemma LargeSecondArcIsLost()
    ensures Body([2, 100, 3]) == Body([4, 20, 3]) && [2, 100, 3] != [4, 20, 3]
  {
    assert [2, 100, 3][2..] == [4, 20, 3][2..];
    assert [2, 100, 3][0] != [4, 20, 3][0];
  }

  class OID {
    var m_values: seq<nat>

    constructor (values: seq<nat>)
      ensures m_values == values
    {
      m_values := values;
    }

    method DEREncode(bt: ByteQueue)
      requires |m_values| >= 2 && Words(m_values) && |Body(m_values)| < LWORD_LIMIT
      modifies bt
      ensures bt.contents == old(bt.contents) + Encoded(m_values)
    {
      hide EncodedArc, DerLength;
      var temp := new ByteQueue([]);
      temp.Put(ByteOf(m_values[0] * 40 + m_values[1]));
      for i := 2 to |m_values|
        invariant temp.contents + EncodedArcs(m_values[i..]) == Body(m_values)
        invariant bt.contents == old(bt.contents)
      {
        assert m_values[i..][1..] == m_values[i + 1..];
        EncodeValue(temp, m_values[i]);
      }
      bt.Put(OBJECT_IDENTIFIER);
      var n := DERLengthEncode(bt, |temp.contents|);
      var moved := temp.TransferTo(bt, |temp.contents|);
    }

    method BERDecode(bt: ByteQueue) returns (ok: bool)
      modifies this, bt
      ensures
        match ReadIdentifier(old(bt.contents))
        case Identifier(values, rest) => ok && m_values == values && bt.contents == rest
        case NoIdentifier => !ok
    {
      hide ReadLength, ReadArcs;
      ghost var s := bt.contents;
      var b, length, definite;
      ok, b := bt.Get();
      if !ok || b != OBJECT_IDENTIFIER {
        return false;
      }
      ok, length, definite := BERLengthDecode(bt);
      if !ok || !definite || length < 1 {
        return false;
      }
      ghost var k := ReadLength(s[1..]).octets;
      assert bt.contents == s[1 + k..];
      ok, b := bt.Get();
      if !ok {
        return;
      }
      assert b == s[1 + k] && bt.contents == s[2 + k..];
      m_values := [b / 40, b % 40];
      ok := DecodeArcs(bt, length - 1);
    }

    /** Its loop. */
    method DecodeArcs(bt: ByteQueue, octets: nat) returns (ok: bool)
      modifies this, bt
      ensures
        match ReadArcs(old(bt.contents), octets)
        case Identifier(values, rest) => ok && m_values == old(m_values) + values && bt.contents == rest
        case NoIdentifier => !ok
    {
      hide ReadArc;
      ghost var whole := ReadArcs(bt.contents, octets);
      var length := octets;
      while length > 0
        invariant
          match ReadArcs(bt.contents, length)
          case NoIdentifier => whole.NoIdentifier?
          case Identifier(vs, rest) => whole.Identifier? && rest == whole.rest && m_values + vs == old(m_values) + whole.values
      {
        var v, n;
        ok, v, n := DecodeValue(bt);
        if !ok || n > length {
          return false;
        }
        m_values := m_values + [v];
        length := length - n;
      }
      return true;
    }
  }
}
