/** The formats of CCM octet by octet, packet vector 1 of RFC 3610, and a small example. */
module CcmExamples {
  import opened Arithmetic
  import opened Bytes
  import opened BitwiseXor
  import opened BlockCiphers
  import opened CcmSpec
  import opened CcmCipher

  // ---------- The formats ----------

  /** Section 2.3: the flags of A_i are L - 1, followed by the nonce and by i in the other octets. */
  lemma CounterBlockOctets(nonce: seq<Byte>, i: nat)
    requires ValidNonce(nonce) && i < Power256(15 - |nonce|)
    ensures var a := CounterBlock(nonce, i);
      a[0] == 14 - |nonce| && a[1..1 + |nonce|] == nonce && Value(a[1 + |nonce|..]) == i
  {
    hide BigEndian, Power256, Value;
    BigEndianValue(i, 15 - |nonce|);
    assert CounterBlock(nonce, i)[1 + |nonce|..] == BigEndian(i, 15 - |nonce|);
  }

  /** Section 2.2: the flags of B_0 are, from the top, one bit that is clear, whether there is a
      header, (M - 2) / 2 in three bits and L - 1 in three bits; then the nonce and the length. */
  lemma FirstBlockOctets(m: nat, nonce: seq<Byte>, headerLength: nat, messageLength: nat)
    requires ValidNonce(nonce) && ValidDigestSize(m) && messageLength < Power256(15 - |nonce|)
    ensures var b := FirstBlock(m, nonce, headerLength, messageLength);
      && b[0] / 128 == 0 && (b[0] / 64 % 2 == 1 <==> headerLength > 0)
      && b[0] / 8 % 8 == (m - 2) / 2 && b[0] % 8 == 14 - |nonce|
      && b[1..1 + |nonce|] == nonce && Value(b[1 + |nonce|..]) == messageLength
  {
    hide BigEndian, Power256, Value, ByteOf;
    var L := 15 - |nonce|;
    BigEndianValue(messageLength, L);
    Flags(if headerLength > 0 then 1 else 0, (m - 2) / 2, L - 1);
    FirstBlockParts(m, nonce, headerLength, messageLength);
  }

  lemma FirstBlockParts(m: nat, nonce: seq<Byte>, headerLength: nat, messageLength: nat)
    requires ValidNonce(nonce) && ValidDigestSize(m)
    ensures var b := FirstBlock(m, nonce, headerLength, messageLength);
      && b[0] == ByteOf(64 * (if headerLength > 0 then 1 else 0) + 8 * ((m - 2) / 2) + (14 - |nonce|))
      && b[1..1 + |nonce|] == nonce && b[1 + |nonce|..] == BigEndian(messageLength, 15 - |nonce|)
  {
    hide BigEndian, ByteOf;
  }

  lemma Flags(h: nat, k: nat, l: nat)
    requires h < 2 && k < 8 && l < 8
    ensures var f := ByteOf(64 * h + 8 * k + l); f / 128 == 0 && f / 64 % 2 == h && f / 8 % 8 == k && f % 8 == l
  {
    var f := 64 * h + 8 * k + l;
    DivModUnique(f, 256, 0, f);
    DivModUnique(f, 128, 0, f);
    DivModUnique(f, 64, h, 8 * k + l);
    DivModUnique(f, 8, 8 * h + k, l);
    DivModUnique(8 * h + k, 8, h, k);
    DivModUnique(h, 2, 0, h);
  }

  /** Section 2.2: two octets, or four behind FF FE, or eight behind FF FF. */
  lemma HeaderPrefixOctets(n: nat)
    requires 0 < n <= MAX_LWORD
    ensures var p := HeaderPrefix(n);
      if n < 0xff00 then |p| == 2 && Value(p) == n
      else if n < 0x1_0000_0000 then |p| == 6 && p[..2] == [0xff, 0xfe] && Value(p[2..]) == n
      else |p| == 10 && p[..2] == [0xff, 0xff] && Value(p[2..]) == n
  {
    hide BigEndian, Value, Power256;
    Powers256();
    EightByteLengths();
    if n < 0xff00 {
      BigEndianValue(n, 2);
    } else if n < 0x1_0000_0000 {
      BigEndianValue(n, 4);
      assert HeaderPrefix(n)[2..] == BigEndian(n, 4);
    } else {
      BigEndianValue(n, 8);
      assert HeaderPrefix(n)[2..] == BigEndian(n, 8);
    }
  }

  lemma Powers256()
    ensures Power256(1) == 0x100 && Power256(2) == 0x1_0000 && Power256(4) == 0x1_0000_0000
  {
    assert Power256(2) == 256 * Power256(1);
    assert Power256(4) == 0x1_0000 * Power256(2);
  }

  /** No prefix without a header, and those on either side of the limits. */
  lemma HeaderPrefixExamples()
    ensures HeaderPrefix(0) == [] && HeaderPrefix(8) == [0, 8]
    ensures HeaderPrefix(0xfeff) == [0xfe, 0xff] && HeaderPrefix(0xff00) == [0xff, 0xfe, 0, 0, 0xff, 0]
    ensures HeaderPrefix(0xffff_ffff) == [0xff, 0xfe, 0xff, 0xff, 0xff, 0xff]
    ensures HeaderPrefix(0x1_0000_0000) == [0xff, 0xff, 0, 0, 0, 1, 0, 0, 0, 0]
  {
    hide BigEndian;
    TwoOctets(0, 8);
    TwoOctets(0xfe, 0xff);
    FourOctets(0, 0, 0xff, 0);
    FourOctets(0xff, 0xff, 0xff, 0xff);
    FourOctets(0, 0, 0, 1);
    BigEndianNext(0x1_0000_0000, 7);
    BigEndianNext(0x100_0000, 6);
    BigEndianNext(0x1_0000, 5);
    BigEndianNext(0x100, 4);
  }

  /** Nonces of 7 to 13 octets, tags of 4, 6, 8, 10, 12, 14 or 16. */
  lemma Sizes(nonce: seq<Byte>, m: int)
    ensures ValidNonce(nonce) <==> |nonce| in {7, 8, 9, 10, 11, 12, 13}
    ensures ValidDigestSize(m) <==> m in {4, 6, 8, 10, 12, 14, 16}
  {
  }

  /** Padding completes the last block with zeros, and is empty behind whole blocks. */
  lemma PaddingOctets(s: seq<Byte>, i: nat)
    ensures |s| % 16 == 0 ==> Pad(s) == s
    ensures |s| <= i < |Pad(s)| ==> Pad(s)[i] == 0
  {
  }

  // ---------- Packet vector 1 ----------

  const Nonce: seq<Byte> := [0x00, 0x00, 0x00, 0x03, 0x02, 0x01, 0x00, 0xa0, 0xa1, 0xa2, 0xa3, 0xa4, 0xa5]
  const Header: seq<Byte> := [0x00, 0x01, 0x02, 0x03, 0x04, 0x05, 0x06, 0x07]
  const FirstText: seq<Byte> := [0x08, 0x09, 0x0a, 0x0b, 0x0c, 0x0d, 0x0e, 0x0f, 0x10, 0x11, 0x12, 0x13, 0x14, 0x15, 0x16, 0x17]
  const LastText: seq<Byte> := [0x18, 0x19, 0x1a, 0x1b, 0x1c, 0x1d, 0x1e]
  const Ciphertext: seq<Byte> := [0x58, 0x8c, 0x97, 0x9a, 0x61, 0xc6, 0x63, 0xd2, 0xf0, 0x66, 0xd0, 0xc2, 0xc0, 0xf9, 0x89, 0x80] + [0x6d, 0x5f, 0x6b, 0x61, 0xda, 0xc3, 0x84]
  const FullTag: seq<Byte> := [0x17, 0xe8, 0xd1, 0x2c, 0xfd, 0xf9, 0x26, 0xe0]

  /** B_0, the only header block, and A_0, A_1 and A_2. */
  lemma VectorBlocks()
    ensures FirstBlock(8, Nonce, 8, 23) == [0x59, 0x00, 0x00, 0x00, 0x03, 0x02, 0x01, 0x00, 0xa0, 0xa1, 0xa2, 0xa3, 0xa4, 0xa5, 0x00, 0x17]
    ensures Pad(HeaderPrefix(8) + Header) == [0x00, 0x08, 0x00, 0x01, 0x02, 0x03, 0x04, 0x05, 0x06, 0x07, 0x00, 0x00, 0x00, 0x00, 0x00, 0x00]
    ensures CounterBlock(Nonce, 0) == [0x01, 0x00, 0x00, 0x00, 0x03, 0x02, 0x01, 0x00, 0xa0, 0xa1, 0xa2, 0xa3, 0xa4, 0xa5, 0x00, 0x00]
    ensures CounterBlock(Nonce, 1) == [0x01, 0x00, 0x00, 0x00, 0x03, 0x02, 0x01, 0x00, 0xa0, 0xa1, 0xa2, 0xa3, 0xa4, 0xa5, 0x00, 0x01]
    ensures CounterBlock(Nonce, 2) == [0x01, 0x00, 0x00, 0x00, 0x03, 0x02, 0x01, 0x00, 0xa0, 0xa1, 0xa2, 0xa3, 0xa4, 0xa5, 0x00, 0x02]
  {
    hide FirstBlock, CounterBlock, Pad, HeaderPrefix;
    VectorFirstBlock();
    VectorHeaderBlock();
    VectorCounterBlock(0);
    VectorCounterBlock(1);
    VectorCounterBlock(2);
  }

  lemma VectorFirstBlock()
    ensures FirstBlock(8, Nonce, 8, 23) == [0x59, 0x00, 0x00, 0x00, 0x03, 0x02, 0x01, 0x00, 0xa0, 0xa1, 0xa2, 0xa3, 0xa4, 0xa5, 0x00, 0x17]
  {
    hide BigEndian;
    TwoOctets(0, 23);
  }

  lemma VectorHeaderBlock()
    ensures Pad(HeaderPrefix(8) + Header) == [0x00, 0x08, 0x00, 0x01, 0x02, 0x03, 0x04, 0x05, 0x06, 0x07, 0x00, 0x00, 0x00, 0x00, 0x00, 0x00]
  {
    hide BigEndian, HeaderPrefix;
    HeaderPrefixExamples();
    assert [0, 8] + Header + Zeros(6) == [0x00, 0x08, 0x00, 0x01, 0x02, 0x03, 0x04, 0x05, 0x06, 0x07, 0x00, 0x00, 0x00, 0x00, 0x00, 0x00];
  }

  lemma VectorCounterBlock(i: Byte)
    ensures CounterBlock(Nonce, i) == [0x01, 0x00, 0x00, 0x00, 0x03, 0x02, 0x01, 0x00, 0xa0, 0xa1, 0xa2, 0xa3, 0xa4, 0xa5, 0x00, i]
  {
    hide BigEndian;
    TwoOctets(0, i);
  }

  /** AES-128 under the key of the vector, as far as the vector uses it. */
  predicate Vector(e: BlockCipher) {
    && e.blockSize == 16
    && e.ProcessBlock([0x59, 0x00, 0x00, 0x00, 0x03, 0x02, 0x01, 0x00, 0xa0, 0xa1, 0xa2, 0xa3, 0xa4, 0xa5, 0x00, 0x17]) == [0xeb, 0x9d, 0x55, 0x47, 0x73, 0x09, 0x55, 0xab, 0x23, 0x1e, 0x0a, 0x2d, 0xfe, 0x4b, 0x90, 0xd6]
    && e.ProcessBlock([0xeb, 0x95, 0x55, 0x46, 0x71, 0x0a, 0x51, 0xae, 0x25, 0x19, 0x0a, 0x2d, 0xfe, 0x4b, 0x90, 0xd6]) == [0xcd, 0xb6, 0x41, 0x1e, 0x3c, 0xdc, 0x9b, 0x4f, 0x5d, 0x92, 0x58, 0xb6, 0x9e, 0xe7, 0xf0, 0x91]
    && e.ProcessBlock([0xc5, 0xbf, 0x4b, 0x15, 0x30, 0xd1, 0x95, 0x40, 0x4d, 0x83, 0x4a, 0xa5, 0x8a, 0xf2, 0xe6, 0x86]) == [0x9c, 0x38, 0x40, 0x5e, 0xa0, 0x3c, 0x1b, 0xc9, 0x04, 0xb5, 0x8b, 0x40, 0xc7, 0x6c, 0xa2, 0xeb]
    && e.ProcessBlock([0x84, 0x21, 0x5a, 0x45, 0xbc, 0x21, 0x05, 0xc9, 0x04, 0xb5, 0x8b, 0x40, 0xc7, 0x6c, 0xa2, 0xeb]) == [0x2d, 0xc6, 0x97, 0xe4, 0x11, 0xca, 0x83, 0xa8, 0x60, 0xc2, 0xc4, 0x06, 0xcc, 0xaa, 0x54, 0x2f]
    && e.ProcessBlock([0x01, 0x00, 0x00, 0x00, 0x03, 0x02, 0x01, 0x00, 0xa0, 0xa1, 0xa2, 0xa3, 0xa4, 0xa5, 0x00, 0x00]) == [0x3a, 0x2e, 0x46, 0xc8, 0xec, 0x33, 0xa5, 0x48, 0x56, 0x20, 0x54, 0x2c, 0x02, 0x2c, 0xc0, 0x7d]
    && e.ProcessBlock([0x01, 0x00, 0x00, 0x00, 0x03, 0x02, 0x01, 0x00, 0xa0, 0xa1, 0xa2, 0xa3, 0xa4, 0xa5, 0x00, 0x01]) == [0x50, 0x85, 0x9d, 0x91, 0x6d, 0xcb, 0x6d, 0xdd, 0xe0, 0x77, 0xc2, 0xd1, 0xd4, 0xec, 0x9f, 0x97]
    && e.ProcessBlock([0x01, 0x00, 0x00, 0x00, 0x03, 0x02, 0x01, 0x00, 0xa0, 0xa1, 0xa2, 0xa3, 0xa4, 0xa5, 0x00, 0x02]) == [0x75, 0x46, 0x71, 0x7a, 0xc6, 0xde, 0x9a, 0xff, 0x64, 0x0c, 0x9c, 0x06, 0xde, 0x6d, 0x0d, 0x8f]
  }

  lemma XorHeader()
    ensures Xor([0xeb, 0x9d, 0x55, 0x47, 0x73, 0x09, 0x55, 0xab, 0x23, 0x1e, 0x0a, 0x2d, 0xfe, 0x4b, 0x90, 0xd6], [0x00, 0x08, 0x00, 0x01, 0x02, 0x03, 0x04, 0x05, 0x06, 0x07, 0x00, 0x00, 0x00, 0x00, 0x00, 0x00]) == [0xeb, 0x95, 0x55, 0x46, 0x71, 0x0a, 0x51, 0xae, 0x25, 0x19, 0x0a, 0x2d, 0xfe, 0x4b, 0x90, 0xd6]
  {
    hide XorByte;
    XorOctets(0xeb, 0x00); XorOctets(0x9d, 0x08); XorOctets(0x55, 0x00); XorOctets(0x47, 0x01);
    XorOctets(0x73, 0x02); XorOctets(0x09, 0x03); XorOctets(0x55, 0x04); XorOctets(0xab, 0x05);
    XorOctets(0x23, 0x06); XorOctets(0x1e, 0x07); XorOctets(0x0a, 0x00); XorOctets(0x2d, 0x00);
    XorOctets(0xfe, 0x00); XorOctets(0x4b, 0x00); XorOctets(0x90, 0x00); XorOctets(0xd6, 0x00);
  }

  lemma XorFirstText()
    ensures Xor([0xcd, 0xb6, 0x41, 0x1e, 0x3c, 0xdc, 0x9b, 0x4f, 0x5d, 0x92, 0x58, 0xb6, 0x9e, 0xe7, 0xf0, 0x91], FirstText) == [0xc5, 0xbf, 0x4b, 0x15, 0x30, 0xd1, 0x95, 0x40, 0x4d, 0x83, 0x4a, 0xa5, 0x8a, 0xf2, 0xe6, 0x86]
  {
    hide XorByte;
    XorOctets(0xcd, 0x08); XorOctets(0xb6, 0x09); XorOctets(0x41, 0x0a); XorOctets(0x1e, 0x0b);
    XorOctets(0x3c, 0x0c); XorOctets(0xdc, 0x0d); XorOctets(0x9b, 0x0e); XorOctets(0x4f, 0x0f);
    XorOctets(0x5d, 0x10); XorOctets(0x92, 0x11); XorOctets(0x58, 0x12); XorOctets(0xb6, 0x13);
    XorOctets(0x9e, 0x14); XorOctets(0xe7, 0x15); XorOctets(0xf0, 0x16); XorOctets(0x91, 0x17);
  }

  lemma XorLastText()
    ensures Xor([0x9c, 0x38, 0x40, 0x5e, 0xa0, 0x3c, 0x1b, 0xc9, 0x04, 0xb5, 0x8b, 0x40, 0xc7, 0x6c, 0xa2, 0xeb], [0x18, 0x19, 0x1a, 0x1b, 0x1c, 0x1d, 0x1e, 0x00, 0x00, 0x00, 0x00, 0x00, 0x00, 0x00, 0x00, 0x00]) == [0x84, 0x21, 0x5a, 0x45, 0xbc, 0x21, 0x05, 0xc9, 0x04, 0xb5, 0x8b, 0x40, 0xc7, 0x6c, 0xa2, 0xeb]
  {
    hide XorByte;
    XorOctets(0x9c, 0x18); XorOctets(0x38, 0x19); XorOctets(0x40, 0x1a); XorOctets(0x5e, 0x1b);
    XorOctets(0xa0, 0x1c); XorOctets(0x3c, 0x1d); XorOctets(0x1b, 0x1e); XorOctets(0xc9, 0x00);
    XorOctets(0x04, 0x00); XorOctets(0xb5, 0x00); XorOctets(0x8b, 0x00); XorOctets(0x40, 0x00);
    XorOctets(0xc7, 0x00); XorOctets(0x6c, 0x00); XorOctets(0xa2, 0x00); XorOctets(0xeb, 0x00);
  }

  lemma MaskFirstText()
    ensures Xor(FirstText, [0x50, 0x85, 0x9d, 0x91, 0x6d, 0xcb, 0x6d, 0xdd, 0xe0, 0x77, 0xc2, 0xd1, 0xd4, 0xec, 0x9f, 0x97]) == [0x58, 0x8c, 0x97, 0x9a, 0x61, 0xc6, 0x63, 0xd2, 0xf0, 0x66, 0xd0, 0xc2, 0xc0, 0xf9, 0x89, 0x80]
  {
    hide XorByte;
    XorOctets(0x08, 0x50); XorOctets(0x09, 0x85); XorOctets(0x0a, 0x9d); XorOctets(0x0b, 0x91);
    XorOctets(0x0c, 0x6d); XorOctets(0x0d, 0xcb); XorOctets(0x0e, 0x6d); XorOctets(0x0f, 0xdd);
    XorOctets(0x10, 0xe0); XorOctets(0x11, 0x77); XorOctets(0x12, 0xc2); XorOctets(0x13, 0xd1);
    XorOctets(0x14, 0xd4); XorOctets(0x15, 0xec); XorOctets(0x16, 0x9f); XorOctets(0x17, 0x97);
  }

  lemma MaskLastText()
    ensures Xor(LastText, [0x75, 0x46, 0x71, 0x7a, 0xc6, 0xde, 0x9a]) == [0x6d, 0x5f, 0x6b, 0x61, 0xda, 0xc3, 0x84]
  {
    hide XorByte;
    XorOctets(0x18, 0x75); XorOctets(0x19, 0x46); XorOctets(0x1a, 0x71); XorOctets(0x1b, 0x7a);
    XorOctets(0x1c, 0xc6); XorOctets(0x1d, 0xde); XorOctets(0x1e, 0x9a);
  }

  lemma MaskTag()
    ensures Xor([0x2d, 0xc6, 0x97, 0xe4, 0x11, 0xca, 0x83, 0xa8], [0x3a, 0x2e, 0x46, 0xc8, 0xec, 0x33, 0xa5, 0x48]) == FullTag
  {
    hide XorByte;
    XorOctets(0x2d, 0x3a); XorOctets(0xc6, 0x2e); XorOctets(0x97, 0x46); XorOctets(0xe4, 0xc8);
    XorOctets(0x11, 0xec); XorOctets(0xca, 0x33); XorOctets(0x83, 0xa5); XorOctets(0xa8, 0x48);
  }

  lemma KeyStreamBlock(e: BlockCipher, nonce: seq<Byte>, i: nat, n: nat)
    requires e.blockSize == 16 && ValidNonce(nonce) && n <= 16
    ensures KeyStream(e, nonce, 16 * i, n) == e.ProcessBlock(CounterBlock(nonce, i))[..n]
  {
    hide CounterBlock;
    var c := e.ProcessBlock(CounterBlock(nonce, i));
    forall j | 0 <= j < n ensures KeyStream(e, nonce, 16 * i, n)[j] == c[j] {
      CtrModes.BlockIndex(i, j, 16 * i + j);
    }
  }

  // The chaining values, and the two blocks that are padded.

  function X1(): seq<Byte> { [0xeb, 0x9d, 0x55, 0x47, 0x73, 0x09, 0x55, 0xab, 0x23, 0x1e, 0x0a, 0x2d, 0xfe, 0x4b, 0x90, 0xd6] }

  function X2(): seq<Byte> { [0xcd, 0xb6, 0x41, 0x1e, 0x3c, 0xdc, 0x9b, 0x4f, 0x5d, 0x92, 0x58, 0xb6, 0x9e, 0xe7, 0xf0, 0x91] }

  function X3(): seq<Byte> { [0x9c, 0x38, 0x40, 0x5e, 0xa0, 0x3c, 0x1b, 0xc9, 0x04, 0xb5, 0x8b, 0x40, 0xc7, 0x6c, 0xa2, 0xeb] }

  function X4(): seq<Byte> { [0x2d, 0xc6, 0x97, 0xe4, 0x11, 0xca, 0x83, 0xa8, 0x60, 0xc2, 0xc4, 0x06, 0xcc, 0xaa, 0x54, 0x2f] }

  function HeaderBlock(): seq<Byte> { [0x00, 0x08, 0x00, 0x01, 0x02, 0x03, 0x04, 0x05, 0x06, 0x07, 0x00, 0x00, 0x00, 0x00, 0x00, 0x00] }

  function LastBlock(): seq<Byte> { [0x18, 0x19, 0x1a, 0x1b, 0x1c, 0x1d, 0x1e, 0x00, 0x00, 0x00, 0x00, 0x00, 0x00, 0x00, 0x00, 0x00] }

  lemma FirstStep(e: BlockCipher)
    requires Vector(e)
    ensures e.ProcessBlock(FirstBlock(8, Nonce, 8, 23)) == X1() && |X1()| == |X2()| == |X3()| == 16
  {
    hide FirstBlock;
    VectorFirstBlock();
  }

  lemma HeaderStep(e: BlockCipher)
    requires Vector(e)
    ensures Chain(e, X1(), Pad(HeaderPrefix(8) + Header)) == X2()
  {
    hide Chain, Xor, Pad, HeaderPrefix;
    VectorHeaderBlock();
    XorHeader();
    ChainOne(e, X1(), HeaderBlock());
  }

  lemma TextStep(e: BlockCipher)
    requires Vector(e)
    ensures Chain(e, X2(), FirstText) == X3() && |FirstText| == 16
  {
    hide Chain, Xor;
    XorFirstText();
    ChainOne(e, X2(), FirstText);
  }

  lemma LastStep(e: BlockCipher)
    requires Vector(e)
    ensures Chain(e, X3(), LastBlock()) == X4()
  {
    hide Chain, Xor;
    XorLastText();
    ChainOne(e, X3(), LastBlock());
  }

  lemma VectorAuthentication(e: BlockCipher)
    requires Vector(e)
    ensures AuthenticationValue(e, 8, Nonce, Header, FirstText + LastText) == X4()
  {
    hide Vector, X1, X2, X3, X4, LastBlock, Chain, Pad, FirstBlock, HeaderPrefix, AuthenticationValue, BlockCipher.ProcessBlock;
    VectorSizes(e);
    FirstStep(e);
    HeaderStep(e);
    TextStep(e);
    LastStep(e);
    PadText();
    AuthenticationInStages(e, 8, Nonce, Header, FirstText + LastText);
    ChainAppend16(e, X2(), FirstText, LastBlock());
  }

  lemma PadText()
    ensures Pad(FirstText + LastText) == FirstText + LastBlock()
  {
    assert LastText + Zeros(9) == LastBlock();
    assert FirstText + LastText + Zeros(9) == FirstText + (LastText + Zeros(9));
  }

  lemma VectorSizes(e: BlockCipher)
    requires Vector(e)
    ensures e.blockSize == 16 && ValidNonce(Nonce) && |Header| == 8 && |FirstText + LastText| == 23
  {
  }

  lemma TagMask(e: BlockCipher)
    requires Vector(e)
    ensures KeyStream(e, Nonce, 0, 8) == [0x3a, 0x2e, 0x46, 0xc8, 0xec, 0x33, 0xa5, 0x48]
  {
    hide KeyStream, CounterBlock;
    VectorCounterBlock(0);
    KeyStreamBlock(e, Nonce, 0, 8);
    assert [0x3a, 0x2e, 0x46, 0xc8, 0xec, 0x33, 0xa5, 0x48, 0x56, 0x20, 0x54, 0x2c, 0x02, 0x2c, 0xc0, 0x7d][..8] == [0x3a, 0x2e, 0x46, 0xc8, 0xec, 0x33, 0xa5, 0x48];
  }

  lemma VectorTag(e: BlockCipher)
    requires Vector(e)
    ensures Tag(e, 8, Nonce, Header, FirstText + LastText, 8) == FullTag
  {
    hide Vector, Xor, KeyStream, AuthenticationValue, CounterBlock, FirstBlock, Pad;
    VectorSizes(e);
    VectorAuthentication(e);
    TagMask(e);
    MaskTag();
    assert X4()[..8] == [0x2d, 0xc6, 0x97, 0xe4, 0x11, 0xca, 0x83, 0xa8];
  }

  lemma FirstMask(e: BlockCipher)
    requires Vector(e)
    ensures KeyStream(e, Nonce, 16, 16) == [0x50, 0x85, 0x9d, 0x91, 0x6d, 0xcb, 0x6d, 0xdd, 0xe0, 0x77, 0xc2, 0xd1, 0xd4, 0xec, 0x9f, 0x97]
  {
    hide KeyStream, CounterBlock;
    VectorCounterBlock(1);
    KeyStreamBlock(e, Nonce, 1, 16);
    assert [0x50, 0x85, 0x9d, 0x91, 0x6d, 0xcb, 0x6d, 0xdd, 0xe0, 0x77, 0xc2, 0xd1, 0xd4, 0xec, 0x9f, 0x97][..16] == [0x50, 0x85, 0x9d, 0x91, 0x6d, 0xcb, 0x6d, 0xdd, 0xe0, 0x77, 0xc2, 0xd1, 0xd4, 0xec, 0x9f, 0x97];
  }

  lemma VectorLastOutput(e: BlockCipher)
    requires Vector(e)
    ensures e.blockSize == 16 && e.ProcessBlock([0x01, 0x00, 0x00, 0x00, 0x03, 0x02, 0x01, 0x00, 0xa0, 0xa1, 0xa2, 0xa3, 0xa4, 0xa5, 0x00, 0x02]) == [0x75, 0x46, 0x71, 0x7a, 0xc6, 0xde, 0x9a, 0xff, 0x64, 0x0c, 0x9c, 0x06, 0xde, 0x6d, 0x0d, 0x8f]
  {
  }

  lemma LastMask(e: BlockCipher)
    requires Vector(e)
    ensures KeyStream(e, Nonce, 32, 7) == [0x75, 0x46, 0x71, 0x7a, 0xc6, 0xde, 0x9a]
  {
    hide Vector, KeyStream, CounterBlock;
    VectorLastOutput(e);
    VectorCounterBlock(2);
    KeyStreamBlock(e, Nonce, 2, 7);
    assert [0x75, 0x46, 0x71, 0x7a, 0xc6, 0xde, 0x9a, 0xff, 0x64, 0x0c, 0x9c, 0x06, 0xde, 0x6d, 0x0d, 0x8f][..7] == [0x75, 0x46, 0x71, 0x7a, 0xc6, 0xde, 0x9a];
  }

  lemma VectorText(e: BlockCipher)
    requires Vector(e)
    ensures Crypt(e, Nonce, FirstText + LastText) == Ciphertext
  {
    hide Vector, Xor, KeyStream, CounterBlock, FirstBlock, Pad;
    VectorSizes(e);
    XorKeyStreamAppend(e, Nonce, 16, FirstText, LastText);
    FirstMask(e);
    LastMask(e);
    MaskFirstText();
    MaskLastText();
  }

  /** The vector through the modelled object, its header and its message cut anywhere. */
  method PacketVector(cipher: BlockCipher, headers: seq<seq<Byte>>, messages: seq<seq<Byte>>)
      returns (ciphertext: seq<Byte>, tag: seq<Byte>)
    requires Vector(cipher) && Join(headers) == Header && Join(messages) == FirstText + LastText
    ensures ciphertext == Ciphertext && tag == FullTag
  {
    hide Vector, Join, Crypt, Tag, Power256;
    Powers256();
    VectorSizes(cipher);
    VectorTag(cipher);
    VectorText(cipher);
    var ccm := new Ccm(cipher, true);
    var outcome := ccm.SetKey(8);
    outcome, ciphertext, tag := ccm.EncryptAndAuthenticate(8, Nonce, headers, messages);
  }

  // ---------- One byte under the cipher that changes nothing ----------

  const ZeroNonce: seq<Byte> := [0x00, 0x00, 0x00, 0x00, 0x00, 0x00, 0x00, 0x00, 0x00, 0x00, 0x00, 0x00, 0x00]

  function Unchanged(): BlockCipher {
    BlockCipher(16, b => b)
  }

  lemma TinyFirst()
    ensures FirstBlock(4, ZeroNonce, 0, 1) == [0x09, 0x00, 0x00, 0x00, 0x00, 0x00, 0x00, 0x00, 0x00, 0x00, 0x00, 0x00, 0x00, 0x00, 0x00, 0x01]
  {
    hide BigEndian;
    TwoOctets(0, 1);
  }

  lemma TinyCounter(i: Byte)
    ensures CounterBlock(ZeroNonce, i) == [0x01, 0x00, 0x00, 0x00, 0x00, 0x00, 0x00, 0x00, 0x00, 0x00, 0x00, 0x00, 0x00, 0x00, 0x00, i]
  {
    hide BigEndian;
    TwoOctets(0, i);
  }

  lemma TinyPadding()
    ensures Pad([]) == [] && Pad([0]) == Zeros(16) && HeaderPrefix(0) == []
  {
    assert [0] + Zeros(15) == Zeros(16);
  }

  lemma TinyTag()
    ensures Tag(Unchanged(), 4, ZeroNonce, [], [0], 4) == [8, 0, 0, 0]
  {
    hide Xor, KeyStream, AuthenticationValue, CounterBlock, FirstBlock, Pad, Chain, HeaderPrefix;
    var e := Unchanged();
    var b := [0x09, 0x00, 0x00, 0x00, 0x00, 0x00, 0x00, 0x00, 0x00, 0x00, 0x00, 0x00, 0x00, 0x00, 0x00, 0x01];
    TinyFirst();
    TinyCounter(0);
    TinyPadding();
    AuthenticationInStages(e, 4, ZeroNonce, [], [0]);
    var nothing: seq<Byte> := [];
    assert nothing + nothing == nothing;
    ChainShort(e, b, nothing);
    ChainOne(e, b, Zeros(16));
    XorZeros(b);
    KeyStreamBlock(e, ZeroNonce, 0, 4);
    MaskTiny();
    assert b[..4] == [9, 0, 0, 0] && CounterBlock(ZeroNonce, 0)[..4] == [1, 0, 0, 0];
  }

  lemma MaskTiny()
    ensures Xor([9, 0, 0, 0], [1, 0, 0, 0]) == [8, 0, 0, 0]
  {
    hide XorByte;
    XorOctets(0x09, 0x01); XorOctets(0x00, 0x00); XorOctets(0x00, 0x00); XorOctets(0x00, 0x00);
  }

  lemma MaskOne()
    ensures Xor([0], [1]) == [1]
  {
    hide XorByte;
    XorOctets(0x00, 0x01);
  }

  lemma TinyText()
    ensures Crypt(Unchanged(), ZeroNonce, [0]) == [1]
  {
    hide Xor, KeyStream, CounterBlock, FirstBlock, Pad;
    TinyCounter(1);
    KeyStreamBlock(Unchanged(), ZeroNonce, 1, 1);
    MaskOne();
    assert CounterBlock(ZeroNonce, 1)[..1] == [1];
  }

  /** A nonce of 13 zeros, no header and the message 00: the flags of A_1 show in the ciphertext,
      those of B_0 and A_0 in the tag. */
  method TinyExample() returns (ciphertext: seq<Byte>, tag: seq<Byte>)
    ensures ciphertext == [1] && tag == [8, 0, 0, 0]
  {
    hide Crypt, Tag, Power256, Join;
    Powers256();
    TinyTag();
    TinyText();
    TinyPieces();
    var ccm := new Ccm(Unchanged(), true);
    var outcome := ccm.SetKey(4);
    outcome, ciphertext, tag := ccm.EncryptAndAuthenticate(4, ZeroNonce, [], [[0]]);
  }

  lemma TinyPieces()
    ensures Join([]) == [] && Join([[0]]) == [0]
  {
    assert [[0]][..0] == [];
  }
}
