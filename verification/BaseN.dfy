/** `BaseN_Encoder` and `BaseN_Decoder` (basecode.cpp) in blocking mode: bytes as characters of
    1 to 7 bits. What is sent on goes to a queue. */
module BaseN {
  import opened Arithmetic
  import opened Numbers
  import opened Bytes
  import opened BitStrings
  import opened ByteQueues

  // ---------- Specification ----------

  /** The number of characters that stand for a whole number of bytes. */
  function BlockSize(w: nat): (block: nat)
    requires 1 <= w <= 7
    ensures block == 2 || block == 4 || block == 8
  {
    if w == 4 then 2 else if w == 2 || w == 6 then 4 else 8
  }

  function Translate(alphabet: seq<Byte>, digits: seq<nat>): (s: seq<Byte>)
    requires forall i :: 0 <= i < |digits| ==> digits[i] < |alphabet|
    ensures |s| == |digits|
  {
    seq(|digits|, i requires 0 <= i < |digits| => alphabet[digits[i]])
  }

  function Repeat(b: Byte, n: nat): (s: seq<Byte>)
    ensures |s| == n
  {
    seq(n, _ => b)
  }

  /** How many characters complete the last of n/block blocks. */
  function Missing(n: nat, block: nat): nat
    requires block > 0
  {
    (block - n % block) % block
  }

  /** Section 4 of RFC 4648, for any width: the bits in groups of w, zeros completing the last
      group, one character each; padding, if any, completes the last block. */
  function Encoding(alphabet: seq<Byte>, w: nat, padding: int, input: seq<Byte>): seq<Byte>
    requires 1 <= w <= 7 && |alphabet| == Pow2(w) && -1 <= padding < 256
  {
    DivideAllDigits(BitString(input, 8), w);
    var chars := Translate(alphabet, DivideAll(BitString(input, 8), w));
    if padding == -1 then chars else chars + Repeat(padding, Missing(|chars|, BlockSize(w)))
  }

  // ---------- Positions ----------

  lemma {:induction false} WidthMono(m: nat, n: nat, w: nat)
    requires m <= n
    ensures Width(m, w) <= Width(n, w)
  {
    if m < n { WidthMono(m, n - 1, w); }
  }

  lemma {:induction false} WidthMul(n: nat, w: nat)
    ensures Width(n, w) == n * w
  {
    if n > 0 { WidthMul(n - 1, w); }
  }

  /** A block is a whole number of bytes. */
  lemma BlockBits(w: nat)
    requires 1 <= w <= 7
    ensures Width(BlockSize(w), w) % 8 == 0 && Width(BlockSize(w), w) >= 8
  {
    WidthMul(BlockSize(w), w);
  }

  /** While bits of a byte are left, the block is not full. */
  lemma RoomLeft(w: nat, chars: nat, p: nat, bytes: nat)
    requires 1 <= w <= 7 && Width(chars, w) + p < 8 * bytes <= Width(BlockSize(w), w)
    ensures chars < BlockSize(w)
  {
    if chars >= BlockSize(w) { WidthMono(BlockSize(w), chars, w); }
  }

  lemma NextByteFits(w: nat, bytes: nat)
    requires 1 <= w <= 7 && 8 * bytes < Width(BlockSize(w), w)
    ensures 8 * (bytes + 1) <= Width(BlockSize(w), w)
  {
    BlockBits(w);
  }

  /** The buffer: complete characters, the bits of the next one at its top, zeros. */
  function Slots(block: nat, w: nat, cur: seq<nat>, p: seq<Bit>): (s: seq<nat>)
    requires |cur| <= block && |p| <= w
    ensures |s| == block
  {
    if |cur| == block then cur else cur + [Aligned(p, w)] + Zeros(block - |cur| - 1)
  }

  lemma SlotsFill(block: nat, w: nat, cur: seq<nat>, p: seq<Bit>)
    requires |cur| < block && |p| == w
    ensures Slots(block, w, cur, p) == Slots(block, w, cur + [Aligned(p, w)], [])
  {
    AlignedNothing(w);
  }

  class Encoder {
    const m_alphabet: seq<Byte>
    const m_padding: int
    const m_bitsPerChar: nat
    const m_outputBlockSize: nat
    var m_bytePos: nat
    var m_bitPos: nat
    const m_outBuf: array<Byte>
    const output: ByteQueue  // the attached transformation

    // The message so far, `whole` sent and `tail` not; the digits sent and not; the bits of an
    // incomplete digit; what the queue held before the message.
    ghost var whole: seq<Byte>
    ghost var tail: seq<Byte>
    ghost var sent: seq<nat>
    ghost var cur: seq<nat>
    ghost var p: seq<Bit>
    ghost var start: seq<Byte>

    ghost predicate Set()
    {
      && 1 <= m_bitsPerChar <= 7 && m_outputBlockSize == BlockSize(m_bitsPerChar) == m_outBuf.Length
      && |m_alphabet| == Pow2(m_bitsPerChar) && -1 <= m_padding < 256
    }

    /** The block is right, up to n bits of the message. */
    ghost predicate InBlock(bits: seq<Bit>)
      reads this`m_bytePos, this`m_bitPos, this`cur, this`p, m_outBuf
    {
      && Set() && m_bytePos == |cur| <= m_outputBlockSize && m_bitPos == |p| < m_bitsPerChar
      && Digits(cur, m_bitsPerChar)
      && BitString(cur, m_bitsPerChar) + p == bits
      && m_outBuf[..] == Slots(m_outputBlockSize, m_bitsPerChar, cur, p)
    }

    ghost predicate Sent()
      reads this`whole, this`sent, this`start, output
    {
      && Set() && Digits(sent, m_bitsPerChar) && |sent| % m_outputBlockSize == 0
      && BitString(sent, m_bitsPerChar) == BitString(whole, 8)
      && output.contents == start + Translate(m_alphabet, sent)
    }

    ghost predicate Valid()
      reads this, m_outBuf, output
    {
      && Sent() && |cur| == m_bytePos < m_outputBlockSize
      && if m_bytePos == 0 then tail == [] && m_bitPos == 0 && p == [] && cur == []
         else InBlock(BitString(tail, 8))
    }

    ghost function Input(): seq<Byte>
      reads this`whole, this`tail
    {
      whole + tail
    }

    /** `IsolatedInitialize`, for a log2 of the base that it accepts. */
    constructor (alphabet: seq<Byte>, log2base: nat, padding: int, output: ByteQueue)
      requires 1 <= log2base <= 7 && |alphabet| == Pow2(log2base) && -1 <= padding < 256
      ensures Valid() && Input() == [] && start == output.contents && fresh(m_outBuf)
      ensures this.output == output && m_alphabet == alphabet && m_bitsPerChar == log2base && m_padding == padding
    {
      m_alphabet, m_bitsPerChar, m_padding := alphabet, log2base, padding;
      m_bytePos, m_bitPos := 0, 0;
      var block := FindBlockSize(log2base);
      m_outputBlockSize := block;
      m_outBuf := new Byte[block];
      this.output := output;
      whole, tail, sent, cur, p, start := [], [], [], [], [], output.contents;
    }

    /** One byte into the buffer: as many bits at a time as the current character takes. */
    method PutByte(byte: Byte)
      requires InBlock(BitString(tail, 8)) && 8 * |tail| < Width(m_outputBlockSize, m_bitsPerChar)
      modifies this`m_bytePos, this`m_bitPos, this`cur, this`p, this`tail, m_outBuf
      ensures InBlock(BitString(tail, 8)) && tail == old(tail) + [byte]
      ensures 8 * |tail| <= Width(m_outputBlockSize, m_bitsPerChar)
    {
      hide BitString, Width, Aligned, Slots, Digits, Pow2;
      var b: nat, bitsLeftInSource := byte, 8;
      ghost var q := BitsOf(byte, 8);
      ghost var done := BitString(tail, 8);
      NextByteFits(m_bitsPerChar, |tail|);
      ByteBits(byte, tail);
      while bitsLeftInSource > 0
        invariant |q| == bitsLeftInSource <= 8 && b == Aligned(q, 8)
        invariant BitString(tail + [byte], 8) == done + q && InBlock(done) && tail == old(tail)
        decreases bitsLeftInSource
      {
        b, bitsLeftInSource, done, q := PutBits(b, bitsLeftInSource, |tail| + 1, done, q);
      }
      tail := tail + [byte];
    }

    /** One round of the inner loop: bits of the byte until it or the character is used up. */
    method PutBits(b: nat, bitsLeftInSource: nat, ghost bytes: nat, ghost done: seq<Bit>, ghost q: seq<Bit>)
        returns (b': nat, left: nat, ghost done': seq<Bit>, ghost q': seq<Bit>)
      requires InBlock(done) && |q| == bitsLeftInSource && 0 < |q| <= 8 && b == Aligned(q, 8)
      requires |done| + |q| == 8 * bytes <= Width(m_outputBlockSize, m_bitsPerChar)
      modifies this`m_bytePos, this`m_bitPos, this`cur, this`p, m_outBuf
      ensures InBlock(done') && done + q == done' + q'
      ensures left == |q'| < bitsLeftInSource && b' == Aligned(q', 8)
    {
      hide BitString, Width, Aligned, Slots, Digits, Pow2, Shr, Shl, ShlNat;
      var bitsLeftInTarget := m_bitsPerChar - m_bitPos;
      RoomLeft(m_bitsPerChar, |cur|, |p|, bytes);
      OrBits(b, q);
      assert q[..|q|] == q;
      if bitsLeftInSource >= bitsLeftInTarget {
        DropBits(q, bitsLeftInTarget);
        FinishChar(p + q[..bitsLeftInTarget], done);
        done', q' := done + q[..bitsLeftInTarget], q[bitsLeftInTarget..];
        left := bitsLeftInSource - bitsLeftInTarget;
        b' := ShlNat(b, bitsLeftInTarget) % 256;
      } else {
        m_bitPos := m_bitPos + bitsLeftInSource;
        p, done', q' := p + q, done + q, [];
        AlignedNothing(8);
        b', left := 0, 0;
      }
    }

    /** `|=` of what fits into the current character. */
    method OrBits(b: nat, ghost q: seq<Bit>)
      requires Set() && m_bytePos == |cur| < m_outputBlockSize && m_bitPos == |p| < m_bitsPerChar
      requires m_outBuf[..] == Slots(m_outputBlockSize, m_bitsPerChar, cur, p)
      requires |q| <= 8 && b == Aligned(q, 8)
      modifies m_outBuf
      ensures
        var room := m_bitsPerChar - |p|;
        m_outBuf[..] == Slots(m_outputBlockSize, m_bitsPerChar, cur, p + if |q| <= room then q else q[..room])
    {
      hide Aligned, Slots, Shr, Pow2;
      var bitsLeftInTarget := m_bitsPerChar - m_bitPos;
      ghost var r := if |q| <= bitsLeftInTarget then q else q[..bitsLeftInTarget];
      AlignedShr(q, 8, 8 - bitsLeftInTarget);
      SlotsOr(m_outputBlockSize, m_bitsPerChar, cur, p, r);
      m_outBuf[m_bytePos] := OrByte(m_outBuf[m_bytePos], Shr(b, 8 - bitsLeftInTarget));
    }

    method FinishChar(ghost bits: seq<Bit>, ghost done: seq<Bit>)
      requires Set() && m_bytePos == |cur| < m_outputBlockSize && Digits(cur, m_bitsPerChar)
      requires |bits| == m_bitsPerChar && p <= bits
      requires BitString(cur, m_bitsPerChar) + p == done
      requires m_outBuf[..] == Slots(m_outputBlockSize, m_bitsPerChar, cur, bits)
      modifies this`m_bytePos, this`m_bitPos, this`cur, this`p
      ensures InBlock(done + bits[|old(p)|..]) && p == []
    {
      hide Aligned, Slots, Pow2, BitString;
      SlotsFill(m_outputBlockSize, m_bitsPerChar, cur, bits);
      BitStringNext(cur, bits);
      AlignedBound(bits, m_bitsPerChar);
      assert done + bits[|p|..] == BitString(cur, m_bitsPerChar) + bits;
      m_bitPos := 0;
      m_bytePos := m_bytePos + 1;
      cur, p := cur + [Aligned(bits, m_bitsPerChar)], [];
    }

    /** The characters for the first n digits in the buffer. */
    method TranslateBuffer(n: nat)
      requires n <= m_outBuf.Length && forall i :: 0 <= i < n ==> m_outBuf[i] < |m_alphabet|
      modifies m_outBuf
      ensures m_outBuf[..n] == Translate(m_alphabet, old(m_outBuf[..n]))
    {
      for i := 0 to n
        invariant forall j :: 0 <= j < i ==> m_outBuf[j] == m_alphabet[old(m_outBuf[j])]
        invariant forall j :: i <= j < m_outBuf.Length ==> m_outBuf[j] == old(m_outBuf[j])
      {
        m_outBuf[i] := m_alphabet[m_outBuf[i]];
      }
    }

    /** A full block is sent. */
    method SendBlock()
      requires InBlock(BitString(tail, 8)) && Sent() && |cur| == m_outputBlockSize && p == []
      modifies this`m_bytePos, this`m_bitPos, this`whole, this`tail, this`sent, this`cur, m_outBuf, output
      ensures Valid() && m_bytePos == 0 && Input() == old(Input())
    {
      hide BitString, Pow2, Width, BlockSize;
      assert m_outBuf[..m_outputBlockSize] == cur;
      TranslateBuffer(m_outputBlockSize);
      output.PutBytes(m_outBuf[..m_outputBlockSize]);
      m_bytePos, m_bitPos := 0, 0;
      BitStringAppend(sent, cur, m_bitsPerChar);
      BitStringAppend(whole, tail, 8);
      OneBlockMore(|sent|, m_outputBlockSize);
      assert BitString(cur, m_bitsPerChar) + p == BitString(cur, m_bitsPerChar);
      whole, tail, sent, cur := whole + tail, [], sent + cur, [];
    }

    /** One round of the loop of `Put2`. */
    method Put(byte: Byte)
      requires Valid()
      modifies this, m_outBuf, output
      ensures Valid() && Input() == old(Input()) + [byte] && start == old(start)
    {
      hide BitString, Width, Translate, Pow2, Digits;
      if m_bytePos == 0 {
        forall i | 0 <= i < m_outputBlockSize {
          m_outBuf[i] := 0;
        }
        AlignedNothing(m_bitsPerChar);
        BitStringEmpty(m_bitsPerChar);
        BitStringEmpty(8);
      }
      assert InBlock(BitString(tail, 8));
      BlockPosition(m_bitsPerChar, cur, p, tail);
      PutByte(byte);
      BlockPosition(m_bitsPerChar, cur, p, tail);
      if m_bytePos == m_outputBlockSize {
        SendBlock();
      }
    }

    /** The digits of the last block. */
    ghost function LastBlock(): seq<nat>
      requires |p| <= m_bitsPerChar
      reads this`cur, this`p
    {
      cur + if p == [] then [] else [Aligned(p, m_bitsPerChar)]
    }

    /** The end of a message: what is left in the buffer, its last character completed with
        zeros, and padding. */
    method EndMessage()
      requires Valid()
      modifies this, m_outBuf, output
      ensures Valid() && Input() == [] && start == output.contents
      ensures output.contents == old(start) + Encoding(m_alphabet, m_bitsPerChar, m_padding, old(Input()))
    {
      hide BitString, Pow2, Aligned, BlockSize, LastBlock, Slots, Encoding, Translate, Missing;
      LastDigits();
      MissingInBlock(|sent|, |LastBlock()|, m_outputBlockSize);
      EncodingInBlocks(m_alphabet, m_bitsPerChar, m_padding, Input(), sent, LastBlock());
      FinishBlock();
      output.PutBytes(m_outBuf[..m_bytePos]);
      Reset();
    }

    method Reset()
      requires Set()
      modifies this
      ensures Valid() && Input() == [] && start == output.contents
    {
      m_bytePos, m_bitPos := 0, 0;
      BitStringEmpty(m_bitsPerChar);
      BitStringEmpty(8);
      TranslateNothing(m_alphabet);
      whole, tail, sent, cur, p, start := [], [], [], [], [], output.contents;
    }

    method FinishBlock()
      requires Valid() && |LastBlock()| <= m_outputBlockSize && Digits(LastBlock(), m_bitsPerChar)
      requires m_bytePos == 0 ==> LastBlock() == []
      modifies this`m_bytePos, m_outBuf
      ensures
        var k := |LastBlock()|;
        && m_bytePos <= m_outBuf.Length
        && m_outBuf[..m_bytePos] == Translate(m_alphabet, LastBlock())
                                    + if m_padding == -1 || k == 0 then [] else Repeat(m_padding, m_outputBlockSize - k)
    {
      hide BitString, Pow2, Aligned, BlockSize, Translate, Repeat, Sent;
      if m_bitPos > 0 {
        m_bytePos := m_bytePos + 1;
      }
      assert m_outBuf[..m_bytePos] == LastBlock();
      TranslateBuffer(m_bytePos);
      if m_padding != -1 && m_bytePos > 0 {
        Pad();
      }
    }

    method Pad()
      requires m_bytePos <= m_outputBlockSize == m_outBuf.Length && 0 <= m_padding < 256
      modifies this`m_bytePos, m_outBuf
      ensures m_bytePos == m_outputBlockSize
      ensures m_outBuf[..] == old(m_outBuf[..m_bytePos]) + Repeat(m_padding, m_outputBlockSize - old(m_bytePos))
    {
      forall i | m_bytePos <= i < m_outputBlockSize {
        m_outBuf[i] := m_padding;
      }
      m_bytePos := m_outputBlockSize;
    }

    /** All digits of the message. */
    lemma LastDigits()
      requires Valid()
      ensures DivideAll(BitString(Input(), 8), m_bitsPerChar) == sent + LastBlock()
      ensures Digits(sent + LastBlock(), m_bitsPerChar) && Digits(LastBlock(), m_bitsPerChar)
      ensures |LastBlock()| <= m_outputBlockSize && (m_bytePos == 0 ==> LastBlock() == [])
    {
      hide BitString, DivideAll, Aligned;
      var w := m_bitsPerChar;
      BitStringAppend(whole, tail, 8);
      BitStringAppend(sent, cur, w);
      BitStringEmpty(8);
      BitStringEmpty(w);
      assert BitString(Input(), 8) == BitString(sent + cur, w) + p;
      DivideBitString(sent + cur, p, w);
      if p != [] { AlignedBound(p, w); }
    }

    /** `Put2`. */
    method Put2(begin: seq<Byte>, messageEnd: bool)
      requires Valid()
      modifies this, m_outBuf, output
      ensures Valid()
      ensures if !messageEnd then Input() == old(Input()) + begin && start == old(start)
              else Input() == [] && start == output.contents
                   && output.contents == old(start) + Encoding(m_alphabet, m_bitsPerChar, m_padding, old(Input()) + begin)
    {
      hide Valid, Encoding, Pow2;
      for m_inputPosition := 0 to |begin|
        invariant Valid() && start == old(start) && Input() == old(Input()) + begin[..m_inputPosition]
      {
        assert begin[..m_inputPosition + 1] == begin[..m_inputPosition] + [begin[m_inputPosition]];
        Put(begin[m_inputPosition]);
      }
      assert begin[..|begin|] == begin;
      if messageEnd {
        EndMessage();
      }
    }
  }

  /** Whole blocks before do not change what is missing from the last one. */
  lemma MissingInBlock(n: nat, k: nat, block: nat)
    requires block > 0 && n % block == 0 && k <= block
    ensures Missing(n + k, block) == if k == 0 then 0 else block - k
  {
    Fundamental(n, block);
    if k < block {
      DivModUnique(n + k, block, n / block, k);
    } else {
      OneBlockMore(n, block);
    }
    if 0 < k < block {
      DivModUnique(block - k, block, 0, block - k);
    } else {
      DivModUnique(block, block, 1, 0);
    }
  }

  lemma TranslateNothing(alphabet: seq<Byte>)
    ensures Translate(alphabet, []) == []
  {
  }

  lemma TranslateAppend(alphabet: seq<Byte>, a: seq<nat>, b: seq<nat>)
    requires forall i :: 0 <= i < |a + b| ==> (a + b)[i] < |alphabet|
    requires (forall i :: 0 <= i < |a| ==> a[i] < |alphabet|) && forall i :: 0 <= i < |b| ==> b[i] < |alphabet|
    ensures Translate(alphabet, a + b) == Translate(alphabet, a) + Translate(alphabet, b)
  {
  }

  lemma EncodingInBlocks(alphabet: seq<Byte>, w: nat, padding: int, input: seq<Byte>, sent: seq<nat>, last: seq<nat>)
    requires 1 <= w <= 7 && |alphabet| == Pow2(w) && -1 <= padding < 256
    requires DivideAll(BitString(input, 8), w) == sent + last && Digits(sent, w) && Digits(last, w)
    requires |last| <= BlockSize(w)
    requires Missing(|sent| + |last|, BlockSize(w)) == if |last| == 0 then 0 else BlockSize(w) - |last|
    ensures Encoding(alphabet, w, padding, input)
            == Translate(alphabet, sent)
               + (Translate(alphabet, last)
                  + if padding == -1 || |last| == 0 then [] else Repeat(padding, BlockSize(w) - |last|))
  {
    hide BitString, DivideAll, Missing, BlockSize, Translate, Pow2;
    TranslateAppend(alphabet, sent, last);
  }

  lemma BitStringEmpty(w: nat)
    ensures BitString([], w) == [] && Digits([], w)
  {
  }

  lemma OneBlockMore(n: nat, block: nat)
    requires block > 0 && n % block == 0
    ensures (n + block) % block == 0
  {
    Fundamental(n, block);
    MulCommutes(n / block, block);
    assert block * (n / block + 1) == block * (n / block) + block;
    DivModUnique(n + block, block, n / block + 1, 0);
  }

  /** Where the bytes of a block end among its characters. */
  lemma BlockPosition(w: nat, cur: seq<nat>, p: seq<Bit>, tail: seq<Byte>)
    requires 1 <= w <= 7 && |cur| <= BlockSize(w) && |p| < w && BitString(cur, w) + p == BitString(tail, 8)
    ensures |cur| < BlockSize(w) ==> 8 * |tail| < Width(BlockSize(w), w)
    ensures |cur| == BlockSize(w) && 8 * |tail| <= Width(BlockSize(w), w) ==> p == []
    ensures |cur| == 0 <==> |tail| == 0
  {
    assert |BitString(cur, w) + p| == Width(|cur|, w) + |p|;
    WidthMul(|tail|, 8);
    if |cur| < BlockSize(w) { WidthMono(|cur| + 1, BlockSize(w), w); }
    if |cur| > 0 { WidthMono(1, |cur|, w); }
  }

  lemma SlotsOr(block: nat, w: nat, cur: seq<nat>, p: seq<Bit>, r: seq<Bit>)
    requires |cur| < block && |p| + |r| <= w <= 8
    ensures
      var s := Slots(block, w, cur, p);
      0 <= s[|cur|] < 256 && s[|cur| := OrByte(s[|cur|], Aligned(r, w - |p|))] == Slots(block, w, cur, p + r)
  {
    hide Aligned, OrByte;
    OrAligned(p, r, w);
  }

  /** `<<` in a byte. */
  lemma DropBits(q: seq<Bit>, j: nat)
    requires j <= |q| <= 8
    ensures ShlNat(Aligned(q, 8), j) % 256 == Aligned(q[j..], 8)
  {
    hide Aligned;
    AlignedShl(q, 8, j);
    AlignedBound(q[j..], 8);
    ShlMul(Number(q[..j]), 8);
    assert Pow2(8) == 256;
  }

  lemma ByteBits(byte: Byte, tail: seq<Byte>)
    ensures BitString(tail + [byte], 8) == BitString(tail, 8) + BitsOf(byte, 8)
    ensures Aligned(BitsOf(byte, 8), 8) == byte
    ensures |BitString(tail, 8)| == 8 * |tail|
  {
    WidthMul(|tail|, 8);
    BitStringAppend(tail, [byte], 8);
    BitStringOne(byte, 8);
    assert Pow2(8) == 256;
    AlignedOfBits(byte, 8);
  }

  lemma StopsAt(w: nat, i: nat)
    requires 1 <= w <= 7 && i % 8 == 0 && 0 < i <= w * BlockSize(w)
    ensures i % w == 0 <==> i == w * BlockSize(w)
    ensures w * BlockSize(w) / w == BlockSize(w)
  {
    match w
    case 1 => case 2 => case 3 => case 4 => case 5 => case 6 => case 7 =>
  }

  /** The loop of `IsolatedInitialize`: the least number of bytes whose bits divide into
      characters. */
  method FindBlockSize(w: nat) returns (block: nat)
    requires 1 <= w <= 7
    ensures block == BlockSize(w)
  {
    var i := 8;
    StopsAt(w, i);
    while i % w != 0
      invariant i % 8 == 0 && 8 <= i <= w * BlockSize(w)
      invariant i % w == 0 <==> i == w * BlockSize(w)
      decreases w * BlockSize(w) - i
    {
      i := i + 8;
      StopsAt(w, i);
    }
    return i / w;
  }
}
