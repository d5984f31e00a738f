/** `BaseN_Decoder` (basecode.cpp) in blocking mode. */
module BaseNDecoding {
  import opened Numbers
  import opened Bytes
  import opened BitStrings
  import opened ByteQueues
  import opened BaseN

  // ---------- Specification ----------

  /** A table entry for each byte: its digit, or something else for bytes to be skipped. */
  predicate Lookup(lookup: seq<int>, w: nat) {
    |lookup| == 256 && forall c :: 0 <= c < 256 ==> IsDigit(lookup[c]) ==> lookup[c] < Pow2(w)
  }

  /** The test `value >= 256`, which an entry of -1 passes as an unsigned number. */
  predicate IsDigit(entry: int) {
    0 <= entry < 256
  }

  function Values(lookup: seq<int>, chars: seq<Byte>): (digits: seq<nat>)
    requires |lookup| == 256
    decreases |chars|
  {
    if chars == [] then []
    else
      var last := lookup[chars[|chars| - 1]];
      Values(lookup, chars[..|chars| - 1]) + if IsDigit(last) then [last] else []
  }

  /** The bits of the digits in groups of eight; an incomplete last group is dropped. */
  function Decoding(lookup: seq<int>, w: nat, chars: seq<Byte>): seq<nat>
    requires |lookup| == 256
  {
    Divide(BitString(Values(lookup, chars), w), 8)
  }

  // ---------- Positions ----------

  /** Bytes in a block. */
  function DecodedSize(w: nat): (n: nat)
    requires 1 <= w <= 7
    ensures 1 <= n <= 7
  {
    if w == 1 || w == 2 || w == 4 then 1 else if w == 6 then 3 else w
  }

  lemma DecodedBits(w: nat)
    requires 1 <= w <= 7
    ensures Width(BlockSize(w), w) == 8 * DecodedSize(w)
  {
    WidthMul(BlockSize(w), w);
  }

  /** Where the characters of a block end among its bytes. */
  lemma DecodedPosition(w: nat, cur: seq<nat>, p: seq<Bit>, digits: seq<nat>)
    requires 1 <= w <= 7 && |p| < 8 && BitString(cur, 8) + p == BitString(digits, w)
    ensures |digits| < BlockSize(w) ==> 8 * |cur| + |p| + w <= 8 * DecodedSize(w)
    ensures 8 * |cur| + |p| <= 8 * DecodedSize(w) ==> if |cur| < DecodedSize(w) then |digits| < BlockSize(w) else p == []
    ensures |cur| == 0 && |p| == 0 <==> |digits| == 0
  {
    assert |BitString(cur, 8) + p| == Width(|cur|, 8) + |p|;
    WidthMul(|cur|, 8);
    DecodedBits(w);
    if |digits| < BlockSize(w) { WidthMono(|digits| + 1, BlockSize(w), w); }
    if |digits| >= BlockSize(w) { WidthMono(BlockSize(w), |digits|, w); }
    if |digits| > 0 { WidthMono(1, |digits|, w); }
  }

  lemma RoomForDigit(w: nat, cur: seq<nat>, p: seq<Bit>, digits: seq<nat>)
    requires 1 <= w <= 7 && |p| < 8 && BitString(cur, 8) + p == BitString(digits, w) && |digits| < BlockSize(w)
    ensures 8 * |cur| + |p| + w <= 8 * DecodedSize(w)
  {
    DecodedPosition(w, cur, p, digits);
  }

  lemma OneDigitMore(digits: seq<nat>, value: nat, w: nat)
    ensures BitString(digits + [value], w) == BitString(digits, w) + BitsOf(value, w)
  {
    BitStringAppend(digits, [value], w);
    BitStringOne(value, w);
  }

  class Decoder {
    const m_lookup: seq<int>
    const m_bitsPerChar: nat
    const m_outputBlockSize: nat
    var m_bytePos: nat
    var m_bitPos: nat
    const m_outBuf: array<Byte>
    const output: ByteQueue  // the attached transformation

    // The characters so far; their digits, those of complete blocks and those since; the bytes
    // sent and not; the bits of an incomplete byte; what the queue held before the message.
    ghost var chars: seq<Byte>
    ghost var whole: seq<nat>
    ghost var tail: seq<nat>
    ghost var sent: seq<nat>
    ghost var cur: seq<nat>
    ghost var p: seq<Bit>
    ghost var start: seq<Byte>

    ghost predicate Set()
    {
      && 1 <= m_bitsPerChar <= 7 && m_outputBlockSize == DecodedSize(m_bitsPerChar) == m_outBuf.Length
      && Lookup(m_lookup, m_bitsPerChar)
    }

    ghost predicate InBlock()
      reads this`m_bytePos, this`m_bitPos, this`cur, this`p, this`tail, m_outBuf
    {
      && Set() && m_bytePos == |cur| <= m_outputBlockSize && m_bitPos == |p| < 8
      && Digits(cur, 8)
      && BitString(cur, 8) + p == BitString(tail, m_bitsPerChar)
      && m_outBuf[..] == Slots(m_outputBlockSize, 8, cur, p)
    }

    ghost predicate Sent()
      reads this`whole, this`sent, this`start, output
    {
      && Set() && Digits(sent, 8)
      && BitString(sent, 8) == BitString(whole, m_bitsPerChar)
      && output.contents == start + sent
    }

    ghost predicate Valid()
      reads this, m_outBuf, output
    {
      && Sent() && Values(m_lookup, chars) == whole + tail
      && |cur| == m_bytePos < m_outputBlockSize && |p| == m_bitPos && |tail| < BlockSize(m_bitsPerChar)
      && if m_bytePos == 0 && m_bitPos == 0 then tail == [] else InBlock()
    }

    constructor (lookup: seq<int>, log2base: nat, output: ByteQueue)
      requires 1 <= log2base <= 7 && Lookup(lookup, log2base)
      ensures Valid() && chars == [] && start == output.contents && fresh(m_outBuf)
      ensures this.output == output && m_lookup == lookup && m_bitsPerChar == log2base
    {
      BitStringEmpty(8);
      BitStringEmpty(log2base);
      ValuesNothing(lookup);
      hide BitString, Values, Lookup, BlockSize, Digits;
      m_lookup, m_bitsPerChar := lookup, log2base;
      m_bytePos, m_bitPos := 0, 0;
      var block := FindDecodedSize(log2base);
      m_outputBlockSize := block;
      m_outBuf := new Byte[block];
      this.output := output;
      chars, whole, tail, sent, cur, p, start := [], [], [], [], [], [], output.contents;
    }

    /** The bits of one digit into the buffer, in one byte or in two. */
    method PutDigit(value: nat)
      requires InBlock() && |tail| < BlockSize(m_bitsPerChar) && value < Pow2(m_bitsPerChar)
      modifies this`m_bytePos, this`m_bitPos, this`cur, this`p, this`tail, m_outBuf
      ensures InBlock() && tail == old(tail) + [value]
      ensures 8 * |cur| + |p| <= 8 * m_outputBlockSize
    {
      hide BitString, Width, Slots, Pow2, BlockSize, DecodedSize, BitsOf, Number, Lookup, Digits;
      ghost var r := BitsOf(value, m_bitsPerChar);
      NumberOfBits(value, m_bitsPerChar);
      RoomForDigit(m_bitsPerChar, cur, p, tail);
      OneDigitMore(tail, value, m_bitsPerChar);
      PlaceDigit(value, r);
      PlacedLength(old(cur), old(p), r, cur, p);
      Advance(m_bitPos + m_bitsPerChar);
      tail := tail + [value];
    }

    method PlaceDigit(value: nat, ghost r: seq<Bit>)
      requires Set() && m_bytePos == |cur| && m_bitPos == |p| < 8 && Digits(cur, 8)
      requires 8 * |cur| + |p| + m_bitsPerChar <= 8 * m_outputBlockSize
      requires m_outBuf[..] == Slots(m_outputBlockSize, 8, cur, p)
      requires |r| == m_bitsPerChar && Number(r) == value
      modifies this`cur, this`p, m_outBuf
      ensures Placed(old(cur), old(p), r)
    {
      hide BitString, Slots, DecodedSize, Number, Lookup, Digits, Placed;
      if m_bitPos + m_bitsPerChar <= 8 {
        InOneByte(value, r);
      } else {
        InTwoBytes(value, r);
      }
    }

    method Advance(newBitPos: nat)
      modifies this`m_bitPos, this`m_bytePos
      ensures m_bitPos < 8 && m_bitPos + 8 * m_bytePos == newBitPos + 8 * old(m_bytePos)
    {
      m_bitPos := newBitPos;
      while m_bitPos >= 8
        invariant m_bitPos >= 0 && m_bitPos + 8 * m_bytePos == newBitPos + 8 * old(m_bytePos)
      {
        m_bitPos := m_bitPos - 8;
        m_bytePos := m_bytePos + 1;
      }
    }

    /** `|=` of the bits q, and possibly more that do not fit, behind the bits p of a byte. */
    method OrBits(k: nat, value: nat, ghost digits: seq<nat>, ghost p: seq<Bit>, ghost q: seq<Bit>, ghost high: nat)
      requires k == |digits| < m_outBuf.Length && |p| + |q| <= 8
      requires m_outBuf[..] == Slots(m_outBuf.Length, 8, digits, p)
      requires value == Shl(high, 8) + Aligned(q, 8 - |p|)
      modifies m_outBuf
      ensures m_outBuf[..] == Slots(m_outBuf.Length, 8, digits, p + q)
    {
      hide Slots, Aligned, OrDigits, Pow2;
      SlotsOr(m_outBuf.Length, 8, digits, p, q);
      OrIgnoresHigh(m_outBuf[k], high, Aligned(q, 8 - |p|), 8);
      m_outBuf[k] := OrByte(m_outBuf[k], value);
    }

    /** `newBitPos <= 8`. */
    method InOneByte(value: nat, ghost r: seq<Bit>)
      requires Set() && m_bytePos == |cur| < m_outputBlockSize && m_bitPos == |p| < 8 && Digits(cur, 8)
      requires m_outBuf[..] == Slots(m_outputBlockSize, 8, cur, p)
      requires |r| == m_bitsPerChar && Number(r) == value && |p| + |r| <= 8
      modifies this`cur, this`p, m_outBuf
      ensures Placed(old(cur), old(p), r)
    {
      hide Slots, BitString, Pow2, Number, DecodedSize, Lookup;
      ShlZero(8);
      OrBits(m_bytePos, ShlNat(value, 8 - (m_bitPos + m_bitsPerChar)), cur, p, r, 0);
      ghost var bits := p + r;
      if |bits| == 8 {
        FillSlot(m_outputBlockSize, cur, bits);
        cur, p := cur + [Aligned(bits, 8)], [];
      } else {
        p := bits;
      }
    }

    /** `newBitPos > 8`. */
    method InTwoBytes(value: nat, ghost r: seq<Bit>)
      requires Set() && m_bytePos == |cur| && |cur| + 1 < m_outputBlockSize && m_bitPos == |p| < 8 && Digits(cur, 8)
      requires m_outBuf[..] == Slots(m_outputBlockSize, 8, cur, p)
      requires |r| == m_bitsPerChar && Number(r) == value && |p| + |r| > 8
      modifies this`cur, this`p, m_outBuf
      ensures Placed(old(cur), old(p), r)
    {
      hide Slots, BitString, Pow2, Number, DecodedSize, Lookup, Aligned, Digits, Shl, Shr, ShlNat, Width;
      var newBitPos := m_bitPos + m_bitsPerChar;
      ghost var (a, c) := (r[..8 - |p|], r[8 - |p|..]);
      assert r == a + c;
      SplitDigit(value, r, newBitPos);
      FillByte(Shr(value, newBitPos - 8), a);
      OrBits(m_bytePos + 1, ShlNat(value, 16 - newBitPos), cur, [], c, Number(a));
      TwoParts(BitString(cur, 8), BitString(old(cur), 8), old(p), a, c, r);
      p := c;
    }

    method FillByte(value: nat, ghost a: seq<Bit>)
      requires Set() && m_bytePos == |cur| < m_outputBlockSize && |p| < 8 && Digits(cur, 8)
      requires m_outBuf[..] == Slots(m_outputBlockSize, 8, cur, p)
      requires |p| + |a| == 8 && value == Aligned(a, 8 - |p|)
      modifies this`cur, this`p, m_outBuf
      ensures Placed(old(cur), old(p), a) && p == [] && |cur| == m_bytePos + 1
    {
      hide Slots, BitString, Pow2, Number, DecodedSize, Lookup, Aligned, Digits;
      ShlZero(8);
      OrBits(m_bytePos, value, cur, p, a, 0);
      FillSlot(m_outputBlockSize, cur, p + a);
      assert BitString(cur, 8) + p + a == BitString(cur, 8) + (p + a) + [];
      cur, p := cur + [Aligned(p + a, 8)], [];
    }

    /** The bits r follow what was in the buffer before. */
    ghost predicate Placed(before: seq<nat>, q: seq<Bit>, r: seq<Bit>)
      reads this`cur, this`p, m_outBuf
    {
      && Set() && |cur| <= m_outputBlockSize && |p| < 8 && Digits(cur, 8)
      && BitString(cur, 8) + p == BitString(before, 8) + q + r
      && m_outBuf[..] == Slots(m_outputBlockSize, 8, cur, p)
    }

    /** A full block is sent. */
    method SendBlock()
      requires InBlock() && Sent() && |cur| == m_outputBlockSize && p == [] && Values(m_lookup, chars) == whole + tail
      modifies this`m_bytePos, this`m_bitPos, this`whole, this`tail, this`sent, this`cur, output
      ensures Valid()
    {
      hide BitString, Pow2, DecodedSize, Values, Lookup;
      assert m_outBuf[..m_outputBlockSize] == cur;
      output.PutBytes(m_outBuf[..m_outputBlockSize]);
      m_bytePos, m_bitPos := 0, 0;
      BitStringAppend(sent, cur, 8);
      BitStringAppend(whole, tail, m_bitsPerChar);
      assert BitString(cur, 8) + p == BitString(cur, 8);
      DecodedAtLeastOne(m_bitsPerChar);
      whole, tail, sent, cur := whole + tail, [], sent + cur, [];
    }

    /** One round of the loop of `Put2`. */
    method Put(c: Byte)
      requires Valid()
      modifies this, m_outBuf, output
      ensures Valid() && chars == old(chars) + [c] && start == old(start)
    {
      hide BitString, Width, Pow2, BlockSize, DecodedSize, Values;
      var value := m_lookup[c];
      ValuesNext(m_lookup, chars, c);
      chars := chars + [c];
      if !IsDigit(value) {
        return;
      }
      if m_bytePos == 0 && m_bitPos == 0 {
        forall i | 0 <= i < m_outputBlockSize {
          m_outBuf[i] := 0;
        }
        AlignedNothing(8);
        BitStringEmpty(m_bitsPerChar);
        BitStringEmpty(8);
      }
      assert InBlock();
      PutDigit(value);
      DecodedPosition(m_bitsPerChar, cur, p, tail);
      assert Values(m_lookup, chars) == whole + tail;
      if m_bytePos == m_outputBlockSize {
        SendBlock();
      }
    }

    /** `Put2`. */
    method Put2(begin: seq<Byte>, messageEnd: bool)
      requires Valid()
      modifies this, m_outBuf, output
      ensures Valid()
      ensures if !messageEnd then chars == old(chars) + begin && start == old(start)
              else chars == [] && start == output.contents
                   && output.contents == old(start) + Decoding(m_lookup, m_bitsPerChar, old(chars) + begin)
    {
      hide Valid, Decoding, Pow2;
      for m_inputPosition := 0 to |begin|
        invariant Valid() && start == old(start) && chars == old(chars) + begin[..m_inputPosition]
      {
        assert begin[..m_inputPosition + 1] == begin[..m_inputPosition] + [begin[m_inputPosition]];
        Put(begin[m_inputPosition]);
      }
      assert begin[..|begin|] == begin;
      if messageEnd {
        EndMessage();
      }
    }

    /** The end of a message: the complete bytes that are left; the bits of an incomplete one are
        dropped. */
    method EndMessage()
      requires Valid()
      modifies this, output
      ensures Valid() && chars == [] && start == output.contents
      ensures output.contents == old(start) + Decoding(m_lookup, m_bitsPerChar, old(chars))
    {
      hide BitString, Divide, Pow2, Values;
      LastBytes();
      assert m_outBuf[..m_bytePos] == cur;
      output.PutBytes(m_outBuf[..m_bytePos]);
      m_bytePos, m_bitPos := 0, 0;
      BitStringEmpty(8);
      BitStringEmpty(m_bitsPerChar);
      ValuesNothing(m_lookup);
      chars, whole, tail, sent, cur, p, start := [], [], [], [], [], [], output.contents;
    }

    lemma LastBytes()
      requires Valid()
      ensures Decoding(m_lookup, m_bitsPerChar, chars) == sent + cur
    {
      hide BitString, Divide, Values, Slots;
      var w := m_bitsPerChar;
      BitStringAppend(whole, tail, w);
      BitStringAppend(sent, cur, 8);
      BitStringEmpty(8);
      BitStringEmpty(w);
      assert BitString(whole + tail, w) == BitString(sent + cur, 8) + p;
      DivideBitString(sent + cur, p, 8);
    }
  }

  lemma ValuesNext(lookup: seq<int>, chars: seq<Byte>, c: Byte)
    requires |lookup| == 256
    ensures Values(lookup, chars + [c]) == Values(lookup, chars) + if IsDigit(lookup[c]) then [lookup[c]] else []
  {
    assert (chars + [c])[..|chars|] == chars;
  }

  lemma ValuesNothing(lookup: seq<int>)
    requires |lookup| == 256
    ensures Values(lookup, []) == []
  {
  }

  lemma DecodedAtLeastOne(w: nat)
    requires 1 <= w <= 7
    ensures DecodedSize(w) >= 1
  {
  }

  lemma TwoParts(now: seq<Bit>, before: seq<Bit>, q: seq<Bit>, a: seq<Bit>, c: seq<Bit>, r: seq<Bit>)
    requires now + [] == before + q + a && r == a + c
    ensures now + c == before + q + r && [] + c == c
  {
    assert now + [] == now;
  }

  lemma PlacedLength(before: seq<nat>, q: seq<Bit>, r: seq<Bit>, cur: seq<nat>, p: seq<Bit>)
    requires BitString(cur, 8) + p == BitString(before, 8) + q + r
    ensures 8 * |cur| + |p| == 8 * |before| + |q| + |r|
  {
    WidthMul(|cur|, 8);
    WidthMul(|before|, 8);
    assert |BitString(cur, 8) + p| == |BitString(before, 8) + q + r|;
  }

  /** Eight bits complete a byte. */
  lemma FillSlot(block: nat, cur: seq<nat>, bits: seq<Bit>)
    requires |cur| < block && |bits| == 8 && Digits(cur, 8)
    ensures Slots(block, 8, cur, bits) == Slots(block, 8, cur + [Aligned(bits, 8)], [])
    ensures BitString(cur + [Aligned(bits, 8)], 8) == BitString(cur, 8) + bits
    ensures Digits(cur + [Aligned(bits, 8)], 8)
  {
    hide Aligned, Slots, Pow2;
    SlotsFill(block, 8, cur, bits);
    BitStringNext(cur, bits);
    AlignedBound(bits, 8);
  }

  /** The two shifts of a digit that lies across two bytes. */
  lemma SplitDigit(value: nat, r: seq<Bit>, end: nat)
    requires Number(r) == value && |r| <= 7 && 8 < end < 8 + |r|
    ensures
      var a, c := r[..|r| - (end - 8)], r[|r| - (end - 8)..];
      && Shr(value, end - 8) == Aligned(a, |a|)
      && ShlNat(value, 16 - end) == Shl(Number(a), 8) + Aligned(c, 8)
  {
    var j := |r| - (end - 8);
    AlignedShr(r, |r|, end - 8);
    AlignedShl(r, 8, j);
    ShlShl(value, 8 - |r|, j);
  }

  /** The loop of `IsolatedInitialize`: the least number of characters whose bits divide into
      bytes. */
  method FindDecodedSize(w: nat) returns (block: nat)
    requires 1 <= w <= 7
    ensures block == DecodedSize(w)
  {
    var i := w;
    ghost var k := 1;
    while i % 8 != 0
      invariant 1 <= k <= BlockSize(w) && i == k * w
      decreases BlockSize(w) - k
    {
      FullAt(w, k);
      i := i + w;
      k := k + 1;
    }
    FullAt(w, k);
    return i / 8;
  }

  lemma FullAt(w: nat, k: nat)
    requires 1 <= w <= 7 && 1 <= k <= BlockSize(w)
    ensures k * w % 8 == 0 <==> k == BlockSize(w)
    ensures BlockSize(w) * w / 8 == DecodedSize(w)
  {
    match w
    case 1 => case 2 => case 3 => case 4 => case 5 => case 6 => case 7 =>
  }
}
