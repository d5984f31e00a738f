/** CCM as RFC 3610 defines it, for the whole message at once. */
module CcmSpec {
  import opened Bytes
  import opened BlockCiphers
  import opened CtrModes

  predicate ValidNonce(nonce: seq<Byte>) {
    7 <= |nonce| <= 13
  }

  predicate ValidDigestSize(m: int) {
    m % 2 == 0 && 4 <= m <= 16
  }

  /** The parameter L: the number of bytes of the length field. */
  function LengthBytes(nonce: seq<Byte>): nat
    requires ValidNonce(nonce)
  {
    15 - |nonce|
  }

  /** Section 2.2: the first block to authenticate. */
  function FirstBlock(m: nat, nonce: seq<Byte>, headerLength: nat, messageLength: nat): (b: seq<Byte>)
    requires ValidNonce(nonce) && ValidDigestSize(m)
    ensures |b| == 16
  {
    var L := LengthBytes(nonce);
    [ByteOf(64 * (if headerLength > 0 then 1 else 0) + 8 * ((m - 2) / 2) + (L - 1))] + nonce + BigEndian(messageLength, L)
  }

  /** Section 2.2: how the length of the header is encoded in front of it. */
  function HeaderPrefix(headerLength: nat): seq<Byte> {
    if headerLength == 0 then []
    else if headerLength < 0xFF00 then BigEndian(headerLength, 2)
    else if headerLength < 0x1_0000_0000 then [0xff, 0xfe] + BigEndian(headerLength, 4)
    else [0xff, 0xff] + BigEndian(headerLength, 8)
  }

  function Pad(s: seq<Byte>): (p: seq<Byte>)
    ensures |p| % 16 == 0 && |p| < |s| + 16 && s <= p
  {
    s + Zeros((16 - |s| % 16) % 16)
  }

  /** Section 2.2: B_0 followed by the padded header and the padded message. */
  function AuthenticatedBlocks(m: nat, nonce: seq<Byte>, header: seq<Byte>, message: seq<Byte>): seq<Byte>
    requires ValidNonce(nonce) && ValidDigestSize(m)
  {
    FirstBlock(m, nonce, |header|, |message|) + Pad(HeaderPrefix(|header|) + header) + Pad(message)
  }

  /** Section 2.2: the CBC-MAC of those blocks, before truncation. */
  function AuthenticationValue(e: BlockCipher, m: nat, nonce: seq<Byte>, header: seq<Byte>, message: seq<Byte>): (t: seq<Byte>)
    requires e.blockSize == 16 && ValidNonce(nonce) && ValidDigestSize(m)
    ensures |t| == 16
  {
    Chain(e, Zeros(16), AuthenticatedBlocks(m, nonce, header, message))
  }

  /** Section 2.3: the counter block A_i. */
  function CounterBlock(nonce: seq<Byte>, i: nat): (a: seq<Byte>)
    requires ValidNonce(nonce)
    ensures |a| == 16
  {
    [ByteOf(LengthBytes(nonce) - 1)] + nonce + BigEndian(i, LengthBytes(nonce))
  }

  /** Section 2.3: n bytes of the concatenation S_0, S_1, ... from byte `position` on. */
  function KeyStream(e: BlockCipher, nonce: seq<Byte>, position: nat, n: nat): (k: seq<Byte>)
    requires e.blockSize == 16 && ValidNonce(nonce)
    ensures |k| == n
  {
    seq(n, i requires 0 <= i < n => e.ProcessBlock(CounterBlock(nonce, (position + i) / 16))[(position + i) % 16])
  }

  /** Section 2.3: the message is masked from S_1 on. Encryption and decryption alike. */
  function Crypt(e: BlockCipher, nonce: seq<Byte>, text: seq<Byte>): (c: seq<Byte>)
    requires e.blockSize == 16 && ValidNonce(nonce)
    ensures |c| == |text|
  {
    Xor(text, KeyStream(e, nonce, 16, |text|))
  }

  /** Section 2.3: the authentication value masked with S_0, cut to `size` bytes. */
  function Tag(e: BlockCipher, m: nat, nonce: seq<Byte>, header: seq<Byte>, message: seq<Byte>, size: nat): (u: seq<Byte>)
    requires e.blockSize == 16 && ValidNonce(nonce) && ValidDigestSize(m) && size <= m
    ensures |u| == size
  {
    Xor(AuthenticationValue(e, m, nonce, header, message)[..size], KeyStream(e, nonce, 0, size))
  }

  lemma KeyStreamAppend(e: BlockCipher, nonce: seq<Byte>, position: nat, n: nat, k: nat)
    requires e.blockSize == 16 && ValidNonce(nonce)
    ensures KeyStream(e, nonce, position, n + k) == KeyStream(e, nonce, position, n) + KeyStream(e, nonce, position + n, k)
  {
  }

  lemma XorKeyStreamAppend(e: BlockCipher, nonce: seq<Byte>, position: nat, a: seq<Byte>, b: seq<Byte>)
    requires e.blockSize == 16 && ValidNonce(nonce)
    ensures Xor(a, KeyStream(e, nonce, position, |a|)) + Xor(b, KeyStream(e, nonce, position + |a|, |b|))
            == Xor(a + b, KeyStream(e, nonce, position, |a + b|))
  {
    hide KeyStream, Xor;
    KeyStreamAppend(e, nonce, position, |a|, |b|);
    XorAppend(a, b, KeyStream(e, nonce, position, |a|), KeyStream(e, nonce, position + |a|, |b|));
  }

  /** Decryption undoes encryption. */
  lemma CryptTwice(e: BlockCipher, nonce: seq<Byte>, text: seq<Byte>)
    requires e.blockSize == 16 && ValidNonce(nonce)
    ensures Crypt(e, nonce, Crypt(e, nonce, text)) == text
  {
    XorTwice(text, KeyStream(e, nonce, 16, |text|));
  }

  // The chaining laws for blocks of 16 bytes.

  lemma ChainAppend16(e: BlockCipher, x: seq<Byte>, a: seq<Byte>, b: seq<Byte>)
    requires e.blockSize == 16 == |x| && |a| % 16 == 0
    ensures Chain(e, x, a + b) == Chain(e, Chain(e, x, a), b)
  {
    ChainAppend(e, x, a, b, |a| / 16);
  }

  lemma ChainWhole16(e: BlockCipher, x: seq<Byte>, a: seq<Byte>, b: seq<Byte>)
    requires e.blockSize == 16 == |x| && |a| % 16 == 0 && |b| < 16
    ensures Chain(e, x, a + b) == Chain(e, x, a)
  {
    ChainWhole(e, x, a, b, |a| / 16);
  }

  /** The authentication value in three stages: B_0, the header, the message. */
  lemma AuthenticationInStages(e: BlockCipher, m: nat, nonce: seq<Byte>, header: seq<Byte>, message: seq<Byte>)
    requires e.blockSize == 16 && ValidNonce(nonce) && ValidDigestSize(m)
    ensures
      var x1 := e.ProcessBlock(FirstBlock(m, nonce, |header|, |message|));
      AuthenticationValue(e, m, nonce, header, message)
      == Chain(e, Chain(e, x1, Pad(HeaderPrefix(|header|) + header)), Pad(message))
  {
    var b := FirstBlock(m, nonce, |header|, |message|);
    var h, t := Pad(HeaderPrefix(|header|) + header), Pad(message);
    assert b + h + t == b + (h + t);
    ChainAppend16(e, Zeros(16), b, h + t);
    ChainOne(e, Zeros(16), b);
    XorZeros(b);
    ChainAppend16(e, e.ProcessBlock(b), h, t);
  }

  lemma CounterNonce(nonce: seq<Byte>, i: nat)
    requires ValidNonce(nonce)
    ensures CounterBlock(nonce, i)[1..1 + |nonce|] == nonce
  {
  }

  // ---------- Counter mode from A_0 on ----------

  lemma {:induction false} AddToZeros(p: seq<Byte>, n: nat, i: nat)
    requires i < Power256(n)
    ensures AddToCounter(p + Zeros(n), i, 0) == p + BigEndian(i, n)
    decreases n
  {
    var s := p + Zeros(n);
    if n == 0 {
      assert s == p;
      AddNothing(p);
    } else {
      assert s[..|s| - 1] == p + Zeros(n - 1) && s[|s| - 1] == 0;
      assert i / 256 < Power256(n - 1) && 0 + i % 256 + 0 < 256;
      AddToZeros(p, n - 1, i / 256);
    }
  }

  /** As long as the length field does not overflow, the block the code enciphers is A_i. */
  lemma CounterIsA(nonce: seq<Byte>, i: nat)
    requires ValidNonce(nonce) && i < Power256(LengthBytes(nonce))
    ensures AddToCounter(CounterBlock(nonce, 0), i, 0) == CounterBlock(nonce, i)
  {
    var p := [ByteOf(LengthBytes(nonce) - 1)] + nonce;
    BigEndianZero(LengthBytes(nonce));
    AddToZeros(p, LengthBytes(nonce), i);
  }

  lemma {:induction false} BigEndianZero(n: nat)
    ensures BigEndian(0, n) == Zeros(n)
  {
    if n > 0 { BigEndianZero(n - 1); }
  }

  /** The key stream of counter mode is that of RFC 3610 for as long as a message may be. */
  lemma CtrStreamIsKeyStream(e: BlockCipher, nonce: seq<Byte>, position: nat, n: nat)
    requires e.blockSize == 16 && ValidNonce(nonce)
    requires position + n < 16 + Power256(LengthBytes(nonce))
    ensures CtrStream(e, CounterBlock(nonce, 0), position, n) == KeyStream(e, nonce, position, n)
  {
    hide AddToCounter, CounterBlock, BigEndian;
    forall i | 0 <= i < n
      ensures CtrStream(e, CounterBlock(nonce, 0), position, n)[i] == KeyStream(e, nonce, position, n)[i]
    {
      CounterInRange(nonce, (position + i) / 16, position + i);
    }
  }

  lemma CounterInRange(nonce: seq<Byte>, i: nat, position: nat)
    requires ValidNonce(nonce) && i == position / 16 && position < 16 + Power256(LengthBytes(nonce))
    ensures AddToCounter(CounterBlock(nonce, 0), i, 0) == CounterBlock(nonce, i)
  {
    var L := LengthBytes(nonce);
    assert Power256(L) == 256 * (256 * Power256(L - 2));
    CounterIsA(nonce, i);
  }

  /** Padding completes the last block with zeros. */
  lemma PaddedChain(e: BlockCipher, base: seq<Byte>, whole: seq<Byte>, tail: seq<Byte>)
    requires e.blockSize == 16 == |base| && |whole| % 16 == 0 && |tail| < 16
    ensures Chain(e, base, Pad(whole + tail)) == if tail == [] then Chain(e, base, whole)
                                                 else e.ProcessBlock(XorFront(Chain(e, base, whole), tail))
  {
    hide Pad, Chain;
    PadSplit(whole, tail);
    if tail != [] {
      var last := tail + Zeros(16 - |tail|);
      ChainAppend16(e, base, whole, last);
      ChainOne(e, Chain(e, base, whole), last);
    }
  }

  lemma PadSplit(whole: seq<Byte>, tail: seq<Byte>)
    requires |whole| % 16 == 0 && |tail| < 16
    ensures Pad(whole + tail) == if tail == [] then whole else whole + (tail + Zeros(16 - |tail|))
  {
    var s := whole + tail;
    assert |s| == |whole| + |tail| && |s| % 16 == |tail|;
    assert |tail| > 0 ==> (16 - |tail|) % 16 == 16 - |tail|;
  }
}
