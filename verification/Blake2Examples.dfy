/** The model of BLAKE2 against the loop of section 3.3 of RFC 7693, octets of the parameter block,
    and what goes into the compression for "abc". */
module Blake2Examples {
  import opened Arithmetic
  import opened Bytes
  import opened HeldBack
  import opened Blake2

  /** A number of bytes that is a whole number of blocks. */
  predicate Whole(n: nat, end: nat)
    requires n > 0
    decreases end
  {
    end == 0 || (end >= n && Whole(n, end - n))
  }

  lemma {:induction false} WholeBlocks(n: nat, end: nat) returns (k: nat)
    requires n > 0 && Whole(n, end)
    ensures end == k * n
    decreases end
  {
    if end == 0 {
      k := 0;
    } else {
      k := WholeBlocks(n, end - n);
      k := k + 1;
      OneLess(k, n);
    }
  }

  /** The chaining value after the whole blocks that end at byte `end`: each block is compressed with
      the number of bytes up to its end as counter, low word first, and both finalization words
      clear. */
  function Chained(b: Function, h: seq<Byte>, stream: seq<Byte>, end: nat): (r: seq<Byte>)
    requires b.Valid() && |h| == |b.iv| && end <= |stream|
    ensures |r| == |b.iv|
    decreases end
  {
    if end < b.blockSize then h
    else
      b.Compress(Chained(b, h, stream, end - b.blockSize), stream[end - b.blockSize..end],
                 end % b.wordModulus, end / b.wordModulus % b.wordModulus, 0, 0)
  }

  lemma AbsorbNext(b: Function, h: seq<Byte>, x: seq<Byte>, y: seq<Byte>)
    requires b.Valid() && |h| == |b.iv| && Whole(b.blockSize, |x|) && |y| == b.blockSize
    ensures b.Absorb(h, 0, x + y) == b.F(b.Absorb(h, 0, x), y, |x| + b.blockSize, false, false)
  {
    hide Function.F, Function.Absorb, Whole;
    var k := WholeBlocks(b.blockSize, |x|);
    AbsorbAppend(b, h, 0, x, y, k);
    AbsorbOne(b, b.Absorb(h, 0, x), |x|, y);
  }

  lemma {:induction false} ChainedIsAbsorbed(b: Function, h: seq<Byte>, stream: seq<Byte>, end: nat)
    requires b.Valid() && |h| == |b.iv| && end <= |stream| && Whole(b.blockSize, end)
    ensures Chained(b, h, stream, end) == b.Absorb(h, 0, stream[..end])
    decreases end
  {
    hide Function.Compress;
    if end > 0 {
      ChainedIsAbsorbed(b, h, stream, end - b.blockSize);
      var x, y := stream[..end - b.blockSize], stream[end - b.blockSize..end];
      assert stream[..end] == x + y;
      AbsorbNext(b, h, x, y);
    }
  }

  /** Section 3.3: all blocks but the last are chained; the last one, of up to a whole block and
      empty only for an empty stream, is filled up with zeros and compressed with the length of
      the stream as counter, the first finalization word all ones, and the second one too for the
      last node of a tree. */
  lemma HashIsLoop(b: Function, h: seq<Byte>, stream: seq<Byte>, lastNode: bool, end: nat)
    requires b.Valid() && |h| == |b.iv| && Whole(b.blockSize, end)
    requires end <= |stream| <= end + b.blockSize && (|stream| == end ==> end == 0)
    ensures
      var last := stream[end..];
      b.Hash(h, 0, stream, lastNode)
      == b.Compress(Chained(b, h, stream, end), last + Zeros(b.blockSize - |last|),
                    |stream| % b.wordModulus, |stream| / b.wordModulus % b.wordModulus,
                    b.wordModulus - 1, if lastNode then b.wordModulus - 1 else 0)
  {
    hide Function.Compress, Function.Absorb, Chained, LastLength, Whole;
    LastIs(b.blockSize, end, |stream|);
    ChainedIsAbsorbed(b, h, stream, end);
  }

  lemma LastIs(n: nat, end: nat, length: nat)
    requires n > 0 && Whole(n, end) && end <= length <= end + n && (length == end ==> end == 0)
    ensures LastLength(n, length) == length - end
  {
    var k := WholeBlocks(n, end);
    LastLengthIs(n, k, length - end);
  }

  // ---------- The parameter block ----------

  /** Section 2.5: digest length, key length, fanout and depth, and zeros up to the salt, which is
      the third quarter of the block; the personalization is the last one. */
  lemma ParameterOctets(b: Function, digestLength: nat, keyLength: nat, salt: seq<Byte>, personalization: seq<Byte>, i: nat)
    requires b.Valid() && |salt| <= |b.iv| / 4 && |personalization| <= |b.iv| / 4 && digestLength < 256 && keyLength < 256
    requires i < |b.iv|
    ensures
      var p := Parameters(b, digestLength, keyLength, salt, personalization);
      var third, fourth := if |b.iv| == 64 then 32 else 16, if |b.iv| == 64 then 48 else 24;
      p[i] == if i == 0 then digestLength else if i == 1 then keyLength else if i == 2 || i == 3 then 1
              else if third <= i < third + |salt| then salt[i - third]
              else if fourth <= i < fourth + |personalization| then personalization[i - fourth]
              else 0
  {
  }

  // ---------- "abc" ----------

  /** For every function and digest size, in every cutting: the initial value with the first four
      bytes changed, the block 61 62 63 00 .., the counter 3, the last block. */
  method HashOfAbc(b: Function, digestSize: nat, pieces: seq<seq<Byte>>) returns (hash: seq<Byte>)
    requires b.Valid() && digestSize <= |b.iv| && Join(pieces) == [0x61, 0x62, 0x63]
    ensures
      var h := [XorByte(b.iv[0], |b.iv|), b.iv[1], XorByte(b.iv[2], 1), XorByte(b.iv[3], 1)] + b.iv[4..];
      hash == b.Compress(h, [0x61, 0x62, 0x63] + Zeros(2 * |b.iv| - 3), 3, 0, b.wordModulus - 1, 0)[..digestSize]
  {
    hide Join, Parameters, Xor, Function.Hash, Function.Compress;
    FirstValue(b, |b.iv|, 0);
    LastOfAbc(b, Xor(b.iv, Parameters(b, |b.iv|, 0, [], [])));
    hash := HashOfPieces(b, digestSize, false, pieces);
  }

  lemma FirstValue(b: Function, digestLength: nat, keyLength: nat)
    requires b.Valid() && digestLength < 256 && keyLength < 256
    ensures Xor(b.iv, Parameters(b, digestLength, keyLength, [], []))
            == [XorByte(b.iv[0], digestLength), XorByte(b.iv[1], keyLength), XorByte(b.iv[2], 1), XorByte(b.iv[3], 1)] + b.iv[4..]
    ensures XorByte(b.iv[1], 0) == b.iv[1]
  {
    hide XorByte;
    forall i | 0 <= i < |b.iv| ensures XorByte(b.iv[i], 0) == b.iv[i] {
      XorNothingByte(b.iv[i]);
    }
  }

  lemma XorNothingByte(a: Byte)
    ensures XorByte(a, 0) == a
  {
    Numbers.XorZeroWord(a);
  }

  lemma LastOfAbc(b: Function, h: seq<Byte>)
    requires b.Valid() && |h| == |b.iv|
    ensures b.Hash(h, 0, [0x61, 0x62, 0x63], false)
            == b.Compress(h, [0x61, 0x62, 0x63] + Zeros(2 * |b.iv| - 3), 3, 0, b.wordModulus - 1, 0)
  {
    hide Function.Hash, Function.Compress;
    HashIsLoop(b, h, [0x61, 0x62, 0x63], false, 0);
    DivModUnique(3, b.wordModulus, 0, 3);
    DivModUnique(0, b.wordModulus, 0, 0);
  }

  /** The words of BLAKE2b and of BLAKE2s. */
  predicate Words(b: Function) {
    b.Valid() && b.wordModulus == if |b.iv| == 64 then 0x1_0000_0000_0000_0000 else 0x1_0000_0000
  }

  /** With a key of one byte, the key fills a block of its own before the message. */
  method MacOfAbc(b: Function, digestSize: nat, pieces: seq<seq<Byte>>) returns (hash: seq<Byte>)
    requires Words(b) && digestSize <= |b.iv| && Join(pieces) == [0x61, 0x62, 0x63]
    ensures
      var n := 2 * |b.iv|;
      var h := [XorByte(b.iv[0], digestSize), XorByte(b.iv[1], 1), XorByte(b.iv[2], 1), XorByte(b.iv[3], 1)] + b.iv[4..];
      var h1 := b.Compress(h, [7] + Zeros(n - 1), n, 0, 0, 0);
      hash == b.Compress(h1, [0x61, 0x62, 0x63] + Zeros(n - 3), n + 3, 0, b.wordModulus - 1, 0)[..digestSize]
  {
    hide Join, Parameters, Xor, Function.Hash, Function.Compress;
    FirstValue(b, digestSize, 1);
    LastOfKeyed(b, Xor(b.iv, Parameters(b, digestSize, 1, [], [])));
    hash := MacOfPieces(b, [7], digestSize, [], [], false, pieces);
  }

  lemma LastOfKeyed(b: Function, h: seq<Byte>)
    requires b.Valid() && |h| == |b.iv| && 2 * |b.iv| + 3 < b.wordModulus
    ensures
      var n := 2 * |b.iv|;
      b.Hash(h, 0, b.KeyBlock([7]) + [0x61, 0x62, 0x63], false)
      == b.Compress(b.Compress(h, [7] + Zeros(n - 1), n, 0, 0, 0), [0x61, 0x62, 0x63] + Zeros(n - 3), n + 3, 0, b.wordModulus - 1, 0)
  {
    hide Function.Hash, Function.Compress;
    var n := 2 * |b.iv|;
    var stream := b.KeyBlock([7]) + [0x61, 0x62, 0x63];
    assert Whole(n, 0) && Whole(n, n);
    HashIsLoop(b, h, stream, false, n);
    DivModUnique(n, b.wordModulus, 0, n);
    DivModUnique(n + 3, b.wordModulus, 0, n + 3);
    DivModUnique(0, b.wordModulus, 0, 0);
    assert stream[0..n] == [7] + Zeros(n - 1) && stream[n..] == [0x61, 0x62, 0x63];
    assert Chained(b, h, stream, 0) == h;
  }
}
