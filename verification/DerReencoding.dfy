/** `DERReencode` with `BERGeneralDecoder` and `DERGeneralEncoder` (asn.cpp): elements of
    indefinite length (section 8.1.3.6 of ITU-T X.690) become elements of definite length. */
module DerReencoding {
  import opened Bytes
  import opened ByteQueues
  import opened BerLengths

  // ---------- What the code sees of an element ----------

  /** An element as far as `DERReencode` looks into it: of an element of definite length it
      sees the octets only. */
  datatype Encoding =
    | Closed(tag: Byte, length: seq<Byte>, contents: seq<Byte>)
    | Open(tag: Byte, parts: seq<Encoding>)

  datatype Option<T> = None | Some(value: T)

  /** The flag CONSTRUCTED. */
  predicate Constructed(tag: Byte) {
    tag / 32 % 2 == 1
  }

  function Octets(e: Encoding): (s: seq<Byte>)
    ensures |s| > 0 && s[0] == e.tag
  {
    match e
    case Closed(tag, length, contents) => [tag] + length + contents
    case Open(tag, parts) => [tag, 0x80] + AllOctets(parts) + [0, 0]
  }

  function AllOctets(es: seq<Encoding>): seq<Byte> {
    if es == [] then [] else Octets(es[0]) + AllOctets(es[1..])
  }

  /** Section 8.1.5: end-of-contents octets. */
  predicate IsEnd(e: Encoding) {
    e.Closed? && e.tag == 0 && e.length == [0]
  }

  predicate WellFormed(e: Encoding) {
    match e
    case Closed(_, length, contents) => ReadLength(length) == Definite(|contents|, |length|)
    case Open(tag, parts) => Constructed(tag) && AllWellFormed(parts)
  }

  /** The parts of an element of indefinite length. */
  predicate AllWellFormed(es: seq<Encoding>) {
    es == [] || (WellFormed(es[0]) && !IsEnd(es[0]) && AllWellFormed(es[1..]))
  }

  /** The element at the front of s, and what follows it. */
  function Parse(s: seq<Byte>): (r: Option<(Encoding, seq<Byte>)>)
    ensures r.Some? ==> |r.value.1| < |s| && WellFormed(r.value.0) && s == Octets(r.value.0) + r.value.1
    decreases |s|, 0
  {
    if s == [] then None
    else
      match ReadLength(s[1..])
      case Malformed => None
      case Definite(n, k) =>
        if 1 + k + n > |s| then None
        else
          var e := Closed(s[0], s[1..1 + k], s[1 + k..1 + k + n]);
          ClosedOctets(s, n, k);
          Some((e, s[1 + k + n..]))
      case Indefinite =>
        if !Constructed(s[0]) then None
        else
          match ParseParts(s[2..])
          case None => None
          case Some((parts, rest)) =>
            OpenOctets(s, parts, rest);
            Some((Open(s[0], parts), rest))
  }

  lemma ClosedOctets(s: seq<Byte>, n: nat, k: nat)
    requires s != [] && ReadLength(s[1..]) == Definite(n, k) && 1 + k + n <= |s|
    ensures
      var e := Closed(s[0], s[1..1 + k], s[1 + k..1 + k + n]);
      WellFormed(e) && s == Octets(e) + s[1 + k + n..]
  {
    ReadOwnLength(s[1..], n, k);
    assert s[1..][..k] == s[1..1 + k];
    assert s == [s[0]] + s[1..1 + k] + s[1 + k..1 + k + n] + s[1 + k + n..];
  }

  lemma OpenOctets(s: seq<Byte>, parts: seq<Encoding>, rest: seq<Byte>)
    requires s != [] && ReadLength(s[1..]).Indefinite? && s[2..] == AllOctets(parts) + [0, 0] + rest
    ensures s == Octets(Open(s[0], parts)) + rest
  {
    IndefiniteOctet(s[1..]);
    assert s == [s[0], 0x80] + s[2..];
    assert s == [s[0], 0x80] + (AllOctets(parts) + [0, 0] + rest);
  }

  /** The elements up to the end-of-contents octets, and what follows these. */
  function ParseParts(s: seq<Byte>): (r: Option<(seq<Encoding>, seq<Byte>)>)
    ensures r.Some? ==> |r.value.1| < |s| && AllWellFormed(r.value.0) && s == AllOctets(r.value.0) + [0, 0] + r.value.1
    decreases |s|, 1
  {
    if StartsWithEnd(s) then
      assert s == [0, 0] + s[2..];
      Some(([], s[2..]))
    else
      match Parse(s)
      case None => None
      case Some((e, rest)) =>
        match ParseParts(rest)
        case None => None
        case Some((es, after)) =>
          OnePartMore(s, e, es, after);
          Some(([e] + es, after))
  }

  predicate StartsWithEnd(s: seq<Byte>) {
    |s| >= 2 && s[0] == 0 && s[1] == 0
  }

  lemma OnePartMore(s: seq<Byte>, e: Encoding, es: seq<Encoding>, after: seq<Byte>)
    requires !StartsWithEnd(s) && s == Octets(e) + (AllOctets(es) + [0, 0] + after)
    requires WellFormed(e) && AllWellFormed(es)
    ensures AllWellFormed([e] + es) && s == AllOctets([e] + es) + [0, 0] + after
  {
    hide WellFormed;
    var all := [e] + es;
    assert all[0] == e && all[1..] == es;
    EndStarts(e, AllOctets(es) + [0, 0] + after);
  }

  lemma EndStarts(e: Encoding, rest: seq<Byte>)
    ensures IsEnd(e) ==> StartsWithEnd(Octets(e) + rest)
  {
  }

  lemma ReadOwnLength(s: seq<Byte>, n: nat, k: nat)
    requires ReadLength(s) == Definite(n, k)
    ensures ReadLength(s[..k]) == Definite(n, k)
  {
    if s[0] > 0x80 {
      assert s[..k][1..k] == s[1..k];
    }
  }

  lemma IndefiniteOctet(s: seq<Byte>)
    requires ReadLength(s).Indefinite?
    ensures s[0] == 0x80
  {
  }

  // Every well-formed element is accepted, and as itself.

  lemma {:induction false} ParseComplete(e: Encoding, rest: seq<Byte>)
    requires WellFormed(e)
    ensures Parse(Octets(e) + rest) == Some((e, rest))
    decreases e
  {
    match e
    case Closed(_, _, _) => ParseClosed(e, rest);
    case Open(tag, parts) =>
      var s := Octets(e) + rest;
      assert s[1..] == [0x80] + (AllOctets(parts) + [0, 0] + rest);
      assert s[2..] == AllOctets(parts) + [0, 0] + rest;
      ParsePartsComplete(parts, rest);
  }

  lemma ParseClosed(e: Encoding, rest: seq<Byte>)
    requires WellFormed(e) && e.Closed?
    ensures Parse(Octets(e) + rest) == Some((e, rest))
  {
    hide ReadLength, ParseParts, Octets;
    LengthIgnoresRest(e.length, e.contents + rest);
    ClosedSlices(e, rest);
  }

  lemma ClosedSlices(e: Encoding, rest: seq<Byte>)
    requires e.Closed?
    ensures
      var s, k, n := Octets(e) + rest, |e.length|, |e.contents|;
      && |s| == 1 + k + n + |rest| && s[0] == e.tag && s[1..] == e.length + (e.contents + rest)
      && s[1..1 + k] == e.length && s[1 + k..1 + k + n] == e.contents && s[1 + k + n..] == rest
  {
  }

  lemma {:induction false} ParsePartsComplete(es: seq<Encoding>, rest: seq<Byte>)
    requires AllWellFormed(es)
    ensures ParseParts(AllOctets(es) + [0, 0] + rest) == Some((es, rest))
    decreases es
  {
    var s := AllOctets(es) + [0, 0] + rest;
    if es == [] {
      assert s == [0, 0] + rest && s[2..] == rest;
    } else {
      var after := AllOctets(es[1..]) + [0, 0] + rest;
      assert s == Octets(es[0]) + after;
      NoEndStart(es[0], after);
      ParseComplete(es[0], after);
      ParsePartsComplete(es[1..], rest);
      assert [es[0]] + es[1..] == es;
    }
  }

  /** Only end-of-contents octets look like them. */
  lemma NoEndStart(e: Encoding, rest: seq<Byte>)
    requires WellFormed(e) && !IsEnd(e)
    ensures !StartsWithEnd(Octets(e) + rest)
  {
    var s := Octets(e) + rest;
    if e.Closed? {
      assert s[1] == e.length[0];
      if e.length[0] == 0 { assert e.length == [0]; }
    } else {
      assert s[1] == 0x80;
    }
  }

  // ---------- What the code makes of it ----------

  /** Each element that is open becomes closed, with the shortest length. */
  function Reencoded(e: Encoding): (r: Encoding)
    requires WellFormed(e) && 3 * |Octets(e)| < LWORD_LIMIT
    ensures WellFormed(r) && r.Closed? && r.length == DerLength(|r.contents|)
    ensures |Octets(r)| <= 3 * |Octets(e)|
    decreases e
  {
    match e
    case Closed(tag, length, contents) =>
      ShortestLength(e);
      Closed(tag, DerLength(|contents|), contents)
    case Open(tag, parts) =>
      var contents := AllReencoded(parts);
      ShortLength(|contents|);
      Closed(tag, DerLength(|contents|), contents)
  }

  function AllReencoded(es: seq<Encoding>): (s: seq<Byte>)
    requires AllWellFormed(es) && 3 * |AllOctets(es)| < LWORD_LIMIT
    ensures |s| <= 3 * |AllOctets(es)|
    decreases es
  {
    if es == [] then [] else Octets(Reencoded(es[0])) + AllReencoded(es[1..])
  }

  lemma ShortestLength(e: Encoding)
    requires WellFormed(e) && e.Closed?
    ensures |e.contents| < LWORD_LIMIT && |DerLength(|e.contents|)| <= |e.length|
    ensures ReadLength(DerLength(|e.contents|)) == Definite(|e.contents|, |DerLength(|e.contents|)|)
  {
    DerLengthIsShortest(e.length);
    OwnLength(|e.contents|);
  }

  lemma OwnLength(n: nat)
    requires n < LWORD_LIMIT
    ensures ReadLength(DerLength(n)) == Definite(n, |DerLength(n)|)
  {
    LengthRoundTrip(n, []);
    assert DerLength(n) + [] == DerLength(n);
  }

  lemma ShortLength(n: nat)
    requires n < LWORD_LIMIT
    ensures |DerLength(n)| <= 9 && ReadLength(DerLength(n)) == Definite(n, |DerLength(n)|)
  {
    LwordBytes(n);
    OwnLength(n);
  }

  // ---------- The code ----------

  class BERGeneralDecoder {
    const m_inQueue: ByteQueue
    var m_finished: bool
    var m_definiteLength: bool
    var m_length: nat

    constructor (inQueue: ByteQueue)
      ensures m_inQueue == inQueue
    {
      m_inQueue := inQueue;
      m_finished, m_definiteLength, m_length := false, true, 0;
    }

    /** `Init`: the tag and the length. */
    method Init(asnTag: Byte) returns (ok: bool)
      modifies this, m_inQueue
      ensures
        var s := old(m_inQueue.contents);
        if s == [] || s[0] != asnTag then !ok
        else
          match ReadLength(s[1..])
          case Malformed => !ok
          case Definite(n, k) => ok && m_definiteLength && m_length == n && m_inQueue.contents == s[1 + k..]
          case Indefinite => ok == Constructed(asnTag) && !m_definiteLength && m_inQueue.contents == s[2..]
    {
      var b;
      ok, b := m_inQueue.Get();
      if !ok || b != asnTag {
        return false;
      }
      ok, m_length, m_definiteLength := BERLengthDecode(m_inQueue);
      if !ok {
        return;
      }
      if !m_definiteLength && !Constructed(asnTag) {
        return false;
      }
    }

    function EndReached(): bool
      reads this, m_inQueue
    {
      if m_definiteLength then m_length == 0 else StartsWithEnd(m_inQueue.contents)
    }

    /** `TransferTo`, through `TransferTo2` and `ReduceLength`. */
    method TransferTo(target: ByteQueue, transferBytes: nat)
      requires m_definiteLength && target != m_inQueue
      modifies this`m_length, m_inQueue, target
      ensures
        var s := old(m_inQueue.contents);
        var n := if transferBytes > old(m_length) then old(m_length) else transferBytes;
        var moved := if n < |s| then n else |s|;
        && m_length == old(m_length) - moved
        && m_inQueue.contents == s[moved..] && target.contents == old(target.contents) + s[..moved]
    {
      var n := if transferBytes > m_length then m_length else transferBytes;
      var moved := m_inQueue.TransferTo(target, n);
      m_length := m_length - moved;
    }

    method MessageEnd() returns (ok: bool)
      modifies this`m_finished, m_inQueue
      ensures
        var s := old(m_inQueue.contents);
        if m_definiteLength then ok == (m_length == 0) && m_inQueue.contents == s
        else ok == StartsWithEnd(s) && (ok ==> m_inQueue.contents == s[2..])
    {
      m_finished := true;
      if m_definiteLength {
        return m_length == 0;
      }
      var octets := m_inQueue.GetBytes(2);
      return |octets| == 2 && octets[0] == 0 && octets[1] == 0;
    }
  }

  /** An output that is kept back until its length is known. */
  class DERGeneralEncoder {
    const queue: ByteQueue
    const m_outQueue: ByteQueue
    const m_asnTag: Byte

    constructor (outQueue: ByteQueue, asnTag: Byte)
      ensures m_outQueue == outQueue && m_asnTag == asnTag && fresh(queue) && queue.contents == []
    {
      m_outQueue, m_asnTag := outQueue, asnTag;
      queue := new ByteQueue([]);
    }

    method MessageEnd()
      requires queue != m_outQueue && |queue.contents| < LWORD_LIMIT
      modifies queue, m_outQueue
      ensures
        var contents := old(queue.contents);
        m_outQueue.contents == old(m_outQueue.contents) + Octets(Closed(m_asnTag, DerLength(|contents|), contents))
    {
      var length := |queue.contents|;
      m_outQueue.Put(m_asnTag);
      var i := DERLengthEncode(m_outQueue, length);
      var moved := queue.TransferTo(m_outQueue, length);
    }
  }

  /** `DERReencode`: succeeds exactly when the source starts with a well-formed element, takes that
      element and nothing else from the source, and appends its re-encoding. */
  method DERReencode(source: ByteQueue, dest: ByteQueue) returns (ok: bool)
    requires source != dest && 3 * |source.contents| < LWORD_LIMIT
    modifies source, dest
    ensures
      match Parse(old(source.contents))
      case None => !ok
      case Some((e, rest)) => ok && source.contents == rest && dest.contents == old(dest.contents) + Octets(Reencoded(e))
    decreases |source.contents|, 0
  {
    hide Octets, AllOctets, WellFormed, AllWellFormed, ReadLength, DerLength, ParseParts, AllReencoded;
    ghost var s := source.contents;
    var tag := if |source.contents| > 0 then source.contents[0] else 0;
    var decoder := new BERGeneralDecoder(source);
    ok := decoder.Init(tag);
    if !ok {
      return;
    }
    var encoder := new DERGeneralEncoder(dest, tag);
    if decoder.m_definiteLength {
      decoder.TransferTo(encoder.queue, decoder.m_length);
      assert decoder.m_length == 0 ==> encoder.queue.contents == Parse(s).value.0.contents;
    } else {
      ok := ReencodeParts(decoder, encoder.queue);
      if !ok {
        return;
      }
      assert encoder.queue.contents == AllReencoded(ParseParts(s[2..]).value.0);
    }
    ok := decoder.MessageEnd();
    if ok {
      encoder.MessageEnd();
    }
  }

  lemma PartsStep(s: seq<Byte>)
    requires 3 * |s| < LWORD_LIMIT && !StartsWithEnd(s)
    ensures
      match Parse(s)
      case None => ParseParts(s).None?
      case Some((e, rest)) =>
        match ParseParts(rest)
        case None => ParseParts(s).None?
        case Some((es, after)) =>
          ParseParts(s) == Some(([e] + es, after)) && AllReencoded([e] + es) == Octets(Reencoded(e)) + AllReencoded(es)
  {
    hide Octets, WellFormed, Reencoded;
    match Parse(s)
    case None =>
    case Some((e, rest)) =>
      match ParseParts(rest)
      case None =>
      case Some((es, after)) =>
        assert ([e] + es)[1..] == es;
        assert ParseParts(s) == Some(([e] + es, after));
  }

  lemma PartsEnd(s: seq<Byte>)
    requires StartsWithEnd(s)
    ensures ParseParts(s) == Some(([], s[2..])) && s == [0, 0] + s[2..] && AllReencoded([]) == []
  {
  }

  /** Its loop. */
  method ReencodeParts(decoder: BERGeneralDecoder, dest: ByteQueue) returns (ok: bool)
    requires decoder.m_inQueue != dest && 3 * |decoder.m_inQueue.contents| < LWORD_LIMIT && !decoder.m_definiteLength
    modifies decoder.m_inQueue, dest
    ensures
      match ParseParts(old(decoder.m_inQueue.contents))
      case None => !ok
      case Some((es, rest)) =>
        ok && decoder.m_inQueue.contents == [0, 0] + rest && dest.contents == old(dest.contents) + AllReencoded(es)
    decreases |decoder.m_inQueue.contents|, 1
  {
    hide Octets, AllOctets, WellFormed, AllWellFormed, Reencoded, AllReencoded, Parse, ParseParts;
    var source := decoder.m_inQueue;
    ghost var whole := ParseParts(source.contents);
    while !decoder.EndReached()
      invariant 3 * |source.contents| < LWORD_LIMIT && |source.contents| <= |old(source.contents)|
      invariant
        match ParseParts(source.contents)
        case None => whole.None?
        case Some((es, rest)) =>
          && whole.Some? && rest == whole.value.1
          && old(dest.contents) + AllReencoded(whole.value.0) == dest.contents + AllReencoded(es)
      decreases |source.contents|
    {
      PartsStep(source.contents);
      ok := DERReencode(source, dest);
      if !ok {
        return;
      }
    }
    PartsEnd(source.contents);
    return true;
  }
}
