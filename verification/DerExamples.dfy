/** `DERReencode` on concrete octets, and on every element of indefinite length without contents:
    what the definitions of `DerReencoding` amount to. */
module DerExamples {
  import opened Numbers
  import opened Bytes
  import opened ByteQueues
  import opened BerLengths
  import opened DerReencoding
  import DerIntegers
  import ObjectIdentifiers

  /** The source and what is put out, as octets. */
  method Run(s: seq<Byte>) returns (ok: bool, output: seq<Byte>, left: seq<Byte>)
    requires 3 * |s| < LWORD_LIMIT
    ensures
      match Parse(s)
      case None => !ok
      case Some((e, rest)) => ok && left == rest && output == Octets(Reencoded(e))
  {
    var source := new ByteQueue(s);
    var dest := new ByteQueue([]);
    ok := DERReencode(source, dest);
    output, left := dest.contents, source.contents;
  }

  lemma ConstructedBit(tag: Byte)
    ensures Constructed(tag) <==> GetBit(tag, 5) == 1
  {
    ShiftsAreDivisions(tag, 5);
    assert Pow2(5) == 32;
  }

  lemma EmptyParts(tag: Byte, rest: seq<Byte>)
    ensures
      var s := [tag, 0x80, 0, 0] + rest;
      Parse(s) == if Constructed(tag) then Some((Open(tag, []), rest)) else None
  {
    var s := [tag, 0x80, 0, 0] + rest;
    assert s[1..][0] == 0x80 && s[2..] == [0, 0] + rest && (s[2..])[2..] == rest;
  }

  lemma EmptyReencoded(tag: Byte)
    requires Constructed(tag)
    ensures WellFormed(Open(tag, [])) && |Octets(Open(tag, []))| == 4
    ensures Octets(Reencoded(Open(tag, []))) == [tag, 0]
  {
    assert AllOctets([]) == [] && AllReencoded([]) == [];
    assert DerLength(0) == [0];
  }

  /** An indefinite length is accepted exactly behind a tag whose bit 6 of section 8.1.2.5, 0x20,
      is set. */
  method EmptyIndefinite(tag: Byte, rest: seq<Byte>) returns (ok: bool, output: seq<Byte>, left: seq<Byte>)
    requires 3 * (4 + |rest|) < LWORD_LIMIT
    ensures ok <==> GetBit(tag, 5) == 1
    ensures ok ==> output == [tag, 0] && left == rest
  {
    hide Parse, Octets, GetBit, Constructed;
    ConstructedBit(tag);
    EmptyParts(tag, rest);
    if Constructed(tag) {
      EmptyReencoded(tag);
    }
    ok, output, left := Run([tag, 0x80, 0, 0] + rest);
  }

  /** A primitive element of a length below 128, as it stands in a list. */
  lemma ShortElement(tag: Byte, length: seq<Byte>, contents: seq<Byte>)
    requires ReadLength(length) == Definite(|contents|, |length|) && |contents| < 128 && tag != 0
    ensures var e := Closed(tag, length, contents);
      && WellFormed(e) && !IsEnd(e) && Octets(e) == [tag] + length + contents
      && (3 * |Octets(e)| < LWORD_LIMIT ==> Octets(Reencoded(e)) == [tag, |contents|] + contents)
  {
  }

  /** An element of indefinite length around one other. */
  lemma AroundOne(tag: Byte, e: Encoding)
    requires Constructed(tag) && WellFormed(e) && !IsEnd(e) && 3 * (|Octets(e)| + 4) < LWORD_LIMIT
    requires |Octets(Reencoded(e))| < 128
    ensures var o := Open(tag, [e]);
      && WellFormed(o) && !IsEnd(o) && Octets(o) == [tag, 0x80] + Octets(e) + [0, 0]
      && Octets(Reencoded(o)) == [tag, |Octets(Reencoded(e))|] + Octets(Reencoded(e))
  {
    hide Octets, WellFormed, Reencoded, AllWellFormed, AllReencoded, DerLength;
    OneElement(e);
    OpenIs(tag, e);
    ReencodedOpen(tag, e);
    ShortDerLength(|Octets(Reencoded(e))|);
    ClosedIs(tag, [|Octets(Reencoded(e))|], Octets(Reencoded(e)));
  }

  lemma ShortDerLength(n: nat)
    requires n < 128
    ensures DerLength(n) == [n]
  {
  }

  lemma ClosedIs(tag: Byte, length: seq<Byte>, contents: seq<Byte>)
    ensures Octets(Closed(tag, length, contents)) == [tag] + length + contents
  {
  }

  lemma OpenIs(tag: Byte, e: Encoding)
    requires AllOctets([e]) == Octets(e) && Constructed(tag) && AllWellFormed([e])
    ensures Octets(Open(tag, [e])) == [tag, 0x80] + Octets(e) + [0, 0]
    ensures WellFormed(Open(tag, [e])) && !IsEnd(Open(tag, [e]))
  {
  }

  lemma OneElement(e: Encoding)
    ensures AllOctets([e]) == Octets(e)
    ensures AllWellFormed([e]) <==> WellFormed(e) && !IsEnd(e)
    ensures WellFormed(e) && !IsEnd(e) && 3 * |Octets(e)| < LWORD_LIMIT ==> AllReencoded([e]) == Octets(Reencoded(e))
  {
    hide Octets, WellFormed, Reencoded;
    assert [e][0] == e && [e][1..] == [];
    assert AllOctets([]) == [] && AllReencoded([]) == [];
  }

  lemma ReencodedOpen(tag: Byte, e: Encoding)
    requires Constructed(tag) && WellFormed(e) && !IsEnd(e) && AllWellFormed([e]) && AllOctets([e]) == Octets(e)
    requires Octets(Open(tag, [e])) == [tag, 0x80] + Octets(e) + [0, 0] && 3 * (|Octets(e)| + 4) < LWORD_LIMIT
    requires AllReencoded([e]) == Octets(Reencoded(e))
    ensures var c := Octets(Reencoded(e));
      |c| < LWORD_LIMIT && Reencoded(Open(tag, [e])) == Closed(tag, DerLength(|c|), c)
  {
    hide Octets;
  }

  /** A context-specific tag: the octets A0 80 04 01 05 00 00, and two more behind them. */
  method ContextSpecific() returns (ok: bool, output: seq<Byte>, left: seq<Byte>)
    ensures ok && output == [0xa0, 3, 4, 1, 5] && left == [7, 8]
  {
    hide Parse, Octets, WellFormed, Reencoded, ReadLength;
    ghost var e := Closed(4, [1], [5]);
    ShortLengths();
    ShortElement(4, [1], [5]);
    AroundOne(0xa0, e);
    assert [4] + [1] + [5] == [4, 1, 5] && [0xa0, 0x80] + [4, 1, 5] + [0, 0] == [0xa0, 0x80, 4, 1, 5, 0, 0];
    ParseComplete(Open(0xa0, [e]), [7, 8]);
    ok, output, left := Run([0xa0, 0x80, 4, 1, 5, 0, 0] + [7, 8]);
  }

  lemma ShortLengths()
    ensures ReadLength([1]) == Definite(1, 1) && ReadLength([0x82, 0, 1]) == Definite(1, 3)
  {
    assert [0x82, 0, 1][1..3] == [0, 1] && [0, 1][..1] == [0] && [0][..0] == [];
    assert Value([0]) == 256 * Value([]) + 0;
    assert Value([0, 1]) == 256 * Value([0]) + 1;
  }

  lemma NestedOctets()
    ensures var x := Open(0x30, [Open(0x30, [Closed(2, [0x82, 0, 1], [5])])]);
      && WellFormed(x) && Octets(x) == [0x30, 0x80, 0x30, 0x80, 2, 0x82, 0, 1, 5, 0, 0, 0, 0]
      && Octets(Reencoded(x)) == [0x30, 5, 0x30, 3, 2, 1, 5]
  {
    hide Octets, WellFormed, Reencoded, ReadLength;
    var e := Closed(2, [0x82, 0, 1], [5]);
    ShortLengths();
    ShortElement(2, [0x82, 0, 1], [5]);
    assert [2] + [0x82, 0, 1] + [5] == [2, 0x82, 0, 1, 5];
    AroundOne(0x30, e);
    assert [0x30, 0x80] + [2, 0x82, 0, 1, 5] + [0, 0] == [0x30, 0x80, 2, 0x82, 0, 1, 5, 0, 0];
    AroundOne(0x30, Open(0x30, [e]));
  }

  /** A sequence in a sequence, both of indefinite length, around an integer whose length takes two
      octets more than it needs. */
  method Nested() returns (ok: bool, output: seq<Byte>, left: seq<Byte>)
    ensures ok && output == [0x30, 5, 0x30, 3, 2, 1, 5] && left == []
  {
    hide Parse, Octets, WellFormed, Reencoded;
    NestedOctets();
    var s := [0x30, 0x80, 0x30, 0x80, 2, 0x82, 0, 1, 5, 0, 0, 0, 0];
    ParseComplete(Open(0x30, [Open(0x30, [Closed(2, [0x82, 0, 1], [5])])]), []);
    assert s + [] == s;
    ok, output, left := Run(s);
  }

  /** A primitive tag: the octets 13 80 00 00. */
  method PrimitiveIndefinite() returns (ok: bool)
    ensures !ok
  {
    ShiftsAreDivisions(0x13, 5);
    assert Pow2(5) == 32;
    var output, left;
    ok, output, left := EmptyIndefinite(0x13, []);
  }

  // ---------- Lengths, integers and object identifiers ----------

  lemma LengthOctets()
    ensures DerLength(0x7f) == [0x7f] && DerLength(0x80) == [0x81, 0x80] && DerLength(0x1234) == [0x82, 0x12, 0x34]
  {
    hide BigEndian;
    TwoOctets(0x12, 0x34);
    BigEndianNext(0x80, 0);
    BigEndianEnd(0);
    assert ByteCount(0x80) == 1 && ByteCount(0x1234) == 2;
  }

  /** Three lengths one after the other, and how many octets each takes. */
  method LengthExamples() returns (s: seq<Byte>, counts: seq<nat>)
    ensures s == [0x7f, 0x81, 0x80, 0x82, 0x12, 0x34] && counts == [1, 2, 3]
  {
    hide DerLength;
    LengthOctets();
    var bt := new ByteQueue([]);
    var a := DERLengthEncode(bt, 0x7f);
    var b := DERLengthEncode(bt, 0x80);
    var c := DERLengthEncode(bt, 0x1234);
    return bt.contents, [a, b, c];
  }

  /** Read back: a long form that is longer than need be, and the indefinite form. */
  method LengthsRead() returns (long: nat, definite: bool)
    ensures long == 0x1234 && !definite
  {
    hide ReadLength;
    LongForm();
    var bt := new ByteQueue([0x83, 0, 0x12, 0x34, 0x80]);
    var ok, first, none;
    ok, long, first := BERLengthDecode(bt);
    ok, none, definite := Second(bt);
  }

  lemma IndefiniteForm()
    ensures ReadLength([0x80]).Indefinite?
  {
  }

  lemma LongForm()
    ensures ReadLength([0x83, 0, 0x12, 0x34, 0x80]) == Definite(0x1234, 4)
  {
    hide Value;
    assert [0x83, 0, 0x12, 0x34, 0x80][1..4] == [0, 0x12, 0x34];
    assert [0, 0x12, 0x34][..2] == [0, 0x12] && [0, 0x12][..1] == [0] && [0][..0] == [];
    ValueSplit([0, 0x12, 0x34]);
    ValueSplit([0, 0x12]);
    ValueSplit([0]);
    ValueOfNothing();
  }

  method Second(bt: ByteQueue) returns (ok: bool, length: nat, definite: bool)
    requires bt.contents == [0x80]
    modifies bt
    ensures !definite
  {
    hide ReadLength;
    IndefiniteForm();
    ok, length, definite := BERLengthDecode(bt);
  }

  /** Section 8.3: 127, 128 and 256 as INTEGER, and true as BOOLEAN. */
  method IntegerExamples() returns (s: seq<Byte>)
    ensures s == [2, 1, 0x7f] + [2, 2, 0, 0x80] + [2, 2, 1, 0] + [1, 1, 0xff]
  {
    hide DerIntegers.Encoded, Power256;
    IntegerOctets();
    var out := new ByteQueue([]);
    Powers256();
    var count := DerIntegers.DEREncodeUnsigned(out, 127, 4, 2);
    count := DerIntegers.DEREncodeUnsigned(out, 128, 4, 2);
    count := DerIntegers.DEREncodeUnsigned(out, 256, 4, 2);
    count := DerIntegers.DEREncodeUnsigned(out, 1, 1, 1);
    return out.contents;
  }

  lemma Powers256()
    ensures Power256(1) == 0x100 && Power256(4) == 0x1_0000_0000
  {
    assert Power256(2) == 256 * Power256(1);
    assert Power256(4) == 0x1_0000 * Power256(2);
  }

  lemma IntegerOctets()
    ensures |DerIntegers.Contents(127, 2)| == 1 && |DerIntegers.Contents(128, 2)| == 2
    ensures |DerIntegers.Contents(256, 2)| == 2 && |DerIntegers.Contents(1, 1)| == 1
    ensures DerIntegers.Encoded(127, 2) == [2, 1, 0x7f] && DerIntegers.Encoded(128, 2) == [2, 2, 0, 0x80]
    ensures DerIntegers.Encoded(256, 2) == [2, 2, 1, 0] && DerIntegers.Encoded(1, 1) == [1, 1, 0xff]
  {
    hide BigEndian;
    BigEndianNext(127, 0);
    BigEndianEnd(0);
    TwoOctets(0, 128);
    TwoOctets(1, 0);
    assert DerIntegers.SignedCount(127) == 1 && DerIntegers.SignedCount(128) == 2 && DerIntegers.SignedCount(256) == 2;
  }

  /** Section 8.19: 1.2.840.113549, whose last arc takes three octets. */
  method IdentifierExample() returns (s: seq<Byte>)
    ensures s == [6, 6, 0x2a, 0x86, 0x48, 0x86, 0xf7, 0x0d]
  {
    hide ObjectIdentifiers.Encoded, ObjectIdentifiers.Body;
    IdentifierOctets();
    var oid := new ObjectIdentifiers.OID([1, 2, 840, 113549]);
    var bt := new ByteQueue([]);
    oid.DEREncode(bt);
    return bt.contents;
  }

  lemma ArcOctets()
    ensures ObjectIdentifiers.EncodedArc(840) == [0x86, 0x48] && ObjectIdentifiers.EncodedArc(113549) == [0x86, 0xf7, 0x0d]
  {
    hide ObjectIdentifiers.Continued;
    ObjectIdentifiers.ContinuedNext(6);
    ObjectIdentifiers.ContinuedNext(0);
    ObjectIdentifiers.ContinuedNext(887);
    assert ObjectIdentifiers.Continued(887) == [0x86] + [0xf7];
  }

  lemma IdentifierOctets()
    ensures |ObjectIdentifiers.Body([1, 2, 840, 113549])| == 6
    ensures ObjectIdentifiers.Encoded([1, 2, 840, 113549]) == [6, 6, 0x2a, 0x86, 0x48, 0x86, 0xf7, 0x0d]
  {
    hide ObjectIdentifiers.EncodedArc;
    ArcOctets();
    var v := [1, 2, 840, 113549];
    assert v[2..] == [840, 113549] && [840, 113549][1..] == [113549] && [113549][1..] == [];
    assert ObjectIdentifiers.EncodedArcs([]) == [];
    assert ObjectIdentifiers.EncodedArcs([113549]) == [0x86, 0xf7, 0x0d];
    assert ObjectIdentifiers.EncodedArcs([840, 113549]) == [0x86, 0x48] + [0x86, 0xf7, 0x0d];
    assert ObjectIdentifiers.Body(v) == [0x2a] + ([0x86, 0x48] + [0x86, 0xf7, 0x0d]);
  }
}
