/** A block cipher under a fixed key, and cipher block chaining over whole blocks: the
    part of `BlockTransformation` (cryptlib.cpp) that the authentication modes use. */
module BlockCiphers {
  import opened Arithmetic
  import opened Bytes

  /** Any function from blocks to blocks; a result of another size is ignored. */
  datatype BlockCipher = BlockCipher(blockSize: nat, encrypt: seq<Byte> -> seq<Byte>) {
    function ProcessBlock(b: seq<Byte>): (c: seq<Byte>)
      requires |b| == blockSize
      ensures |c| == blockSize
    {
      var c := encrypt(b);
      if |c| == blockSize then c else b
    }
  }

  /** The chaining value after the whole blocks in data, started from x. */
  function Chain(e: BlockCipher, x: seq<Byte>, data: seq<Byte>): (y: seq<Byte>)
    requires e.blockSize > 0 && |x| == e.blockSize
    ensures |y| == e.blockSize
    decreases |data|
  {
    if |data| < e.blockSize then x
    else Chain(e, e.ProcessBlock(Xor(x, data[..e.blockSize])), data[e.blockSize..])
  }

  /** Chaining over two stretches of whole blocks, one after the other. */
  lemma {:induction false} ChainAppend(e: BlockCipher, x: seq<Byte>, a: seq<Byte>, b: seq<Byte>, k: nat)
    requires e.blockSize > 0 && |x| == e.blockSize && |a| == k * e.blockSize
    ensures Chain(e, x, a + b) == Chain(e, Chain(e, x, a), b)
    decreases k
  {
    var n := e.blockSize;
    if k == 0 {
      assert a + b == b;
    } else {
      assert (k - 1) * n + n == k * n && (k - 1) * n >= 0;
      assert (a + b)[..n] == a[..n] && (a + b)[n..] == a[n..] + b;
      ChainAppend(e, e.ProcessBlock(Xor(x, a[..n])), a[n..], b, k - 1);
    }
  }

  /** An incomplete last block does not count. */
  lemma {:induction false} ChainWhole(e: BlockCipher, x: seq<Byte>, a: seq<Byte>, b: seq<Byte>, k: nat)
    requires e.blockSize > 0 && |x| == e.blockSize && |a| == k * e.blockSize && |b| < e.blockSize
    ensures Chain(e, x, a + b) == Chain(e, x, a)
  {
    ChainAppend(e, x, a, b, k);
  }

  lemma ChainShort(e: BlockCipher, x: seq<Byte>, data: seq<Byte>)
    requires |x| == e.blockSize && |data| < e.blockSize
    ensures Chain(e, x, data) == x
  {
  }

  lemma ChainOne(e: BlockCipher, x: seq<Byte>, b: seq<Byte>)
    requires e.blockSize > 0 && |x| == |b| == e.blockSize
    ensures Chain(e, x, b) == e.ProcessBlock(Xor(x, b))
  {
    assert b[..e.blockSize] == b;
  }

  /** `AdvancedProcessBlocks` with BT_XorInput and BT_DontIncrementInOutPointers: each whole
      block of `data` is xored into the register, which is then enciphered. Returns the
      number of bytes left over. */
  method ChainBlocks(e: BlockCipher, register: seq<Byte>, data: seq<Byte>) returns (register': seq<Byte>, leftOver: nat)
    requires e.blockSize > 0 && |register| == e.blockSize
    ensures register' == Chain(e, register, data)
    ensures leftOver == |data| % e.blockSize
  {
    register' := register;
    leftOver := |data|;
    ghost var k := 0;
    while leftOver >= e.blockSize
      invariant leftOver <= |data| && |register'| == e.blockSize
      invariant |data| == e.blockSize * k + leftOver
      invariant Chain(e, register, data) == Chain(e, register', data[|data| - leftOver..])
    {
      var rest := data[|data| - leftOver..];
      register' := e.ProcessBlock(Xor(register', rest[..e.blockSize]));
      leftOver := leftOver - e.blockSize;
      k := k + 1;
      assert rest[e.blockSize..] == data[|data| - leftOver..];
    }
    DivModUnique(|data|, e.blockSize, k, leftOver);
  }
}
