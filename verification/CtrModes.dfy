/** Counter mode (`CTR_ModePolicy` in modes.cpp under `AdditiveCipherTemplate` in strciphr.cpp)
    for blocks of 16 bytes. */
module CtrModes {
  import opened Bytes
  import opened BlockCiphers

  /** Adds i to a big-endian block, byte by byte with a carry. */
  function AddToCounter(s: seq<Byte>, i: nat, carry: nat): (c: seq<Byte>)
    ensures |c| == |s|
    decreases |s|
  {
    if s == [] then []
    else
      var n := |s| - 1;
      var sum := s[n] + i % 256 + carry;
      AddToCounter(s[..n], i / 256, sum / 256) + [ByteOf(sum)]
  }

  /** The key stream: n bytes from byte `position` on of the enciphered counter blocks. */
  function CtrStream(e: BlockCipher, register: seq<Byte>, position: nat, n: nat): (k: seq<Byte>)
    requires e.blockSize == 16 == |register|
    ensures |k| == n
  {
    seq(n, i requires 0 <= i < n => e.ProcessBlock(AddToCounter(register, (position + i) / 16, 0))[(position + i) % 16])
  }

  lemma {:induction false} AddNothing(s: seq<Byte>)
    ensures AddToCounter(s, 0, 0) == s
    decreases |s|
  {
    if s != [] {
      AddNothing(s[..|s| - 1]);
    }
  }

  // ---------- The counter is a number ----------

  /** The carries amount to an addition modulo the power of 256. */
  lemma {:induction false} AddToBigEndian(v: nat, n: nat, i: nat, carry: nat)
    ensures AddToCounter(BigEndian(v, n), i, carry) == BigEndian(v + i + carry, n)
    decreases n
  {
    if n > 0 {
      var s := BigEndian(v, n);
      var sum := v % 256 + i % 256 + carry;
      assert s[..n - 1] == BigEndian(v / 256, n - 1) && s[n - 1] == ByteOf(v);
      AddToBigEndian(v / 256, n - 1, i / 256, sum / 256);
      assert (v + i + carry) / 256 == v / 256 + i / 256 + sum / 256 && ByteOf(v + i + carry) == ByteOf(sum);
    }
  }

  lemma {:induction false} BigEndianOfValue(s: seq<Byte>)
    ensures BigEndian(Value(s), |s|) == s
    decreases |s|
  {
    if s != [] {
      BigEndianOfValue(s[..|s| - 1]);
    }
  }

  lemma CounterIsNumber(s: seq<Byte>, i: nat)
    ensures AddToCounter(s, i, 0) == BigEndian(Value(s) + i, |s|)
  {
    BigEndianOfValue(s);
    AddToBigEndian(Value(s), |s|, i, 0);
  }

  /** k blocks on, without a carry out of the last byte. */
  lemma CountInLastByte(s: seq<Byte>, j: nat, k: nat)
    requires s != [] && AddToCounter(s, j, 0)[|s| - 1] + k < 256
    ensures
      var c := AddToCounter(s, j, 0);
      AddToCounter(s, j + k, 0) == c[..|s| - 1] + [c[|s| - 1] + k]
  {
    hide AddToCounter, Value;
    CounterIsNumber(s, j);
    CounterIsNumber(s, j + k);
    var v := Value(s) + j;
    assert BigEndian(v, |s|) == BigEndian(v / 256, |s| - 1) + [ByteOf(v)];
    assert (v + k) / 256 == v / 256 && ByteOf(v + k) == ByteOf(v) + k;
  }

  /** k blocks on, where the last byte becomes zero: the bytes before it count one. */
  lemma CarryFromLastByte(s: seq<Byte>, j: nat, k: nat)
    requires s != [] && AddToCounter(s, j, 0)[|s| - 1] + k == 256
    ensures AddToCounter(s, j + k, 0) == AddToCounter(AddToCounter(s, j, 0)[..|s| - 1], 1, 0) + [0]
  {
    hide AddToCounter, Value;
    CounterIsNumber(s, j);
    CounterIsNumber(s, j + k);
    var v := Value(s) + j;
    assert BigEndian(v, |s|) == BigEndian(v / 256, |s| - 1) + [ByteOf(v)];
    assert BigEndian(v, |s|)[..|s| - 1] == BigEndian(v / 256, |s| - 1);
    AddToBigEndian(v / 256, |s| - 1, 1, 0);
    assert (v + k) / 256 == v / 256 + 1 && ByteOf(v + k) == 0;
  }

  // ---------- The key stream in pieces ----------

  lemma StreamAppend(e: BlockCipher, register: seq<Byte>, position: nat, n: nat, k: nat)
    requires e.blockSize == 16 == |register|
    ensures CtrStream(e, register, position, n + k) == CtrStream(e, register, position, n) + CtrStream(e, register, position + n, k)
  {
    hide AddToCounter;
  }

  lemma StreamSplit(e: BlockCipher, register: seq<Byte>, position: nat, k: nat, n: nat)
    requires e.blockSize == 16 == |register| && k <= n
    ensures CtrStream(e, register, position, n)[..k] == CtrStream(e, register, position, k)
    ensures CtrStream(e, register, position, n)[k..] == CtrStream(e, register, position + k, n - k)
  {
    hide AddToCounter;
  }

  lemma XorStreamAppend(e: BlockCipher, register: seq<Byte>, position: nat, a: seq<Byte>, b: seq<Byte>)
    requires e.blockSize == 16 == |register|
    ensures Xor(a, CtrStream(e, register, position, |a|)) + Xor(b, CtrStream(e, register, position + |a|, |b|))
            == Xor(a + b, CtrStream(e, register, position, |a + b|))
  {
    hide AddToCounter, CtrStream, Xor;
    StreamAppend(e, register, position, |a|, |b|);
    XorAppend(a, b, CtrStream(e, register, position, |a|), CtrStream(e, register, position + |a|, |b|));
  }

  lemma BlockIndex(j: nat, i: nat, position: nat)
    requires i < 16 && position == 16 * j + i
    ensures position / 16 == j && position % 16 == i
  {
  }

  lemma StreamBlock(e: BlockCipher, register: seq<Byte>, j: nat)
    requires e.blockSize == 16 == |register|
    ensures CtrStream(e, register, 16 * j, 16) == e.ProcessBlock(AddToCounter(register, j, 0))
  {
    hide AddToCounter;
    var c := e.ProcessBlock(AddToCounter(register, j, 0));
    forall i | 0 <= i < 16 ensures CtrStream(e, register, 16 * j, 16)[i] == c[i] {
      BlockIndex(j, i, 16 * j + i);
    }
  }

  /** With no input, the key stream itself. */
  function Masked(input: seq<Byte>, stream: seq<Byte>): (output: seq<Byte>)
    requires input == [] || |input| == |stream|
    ensures |output| == |stream|
  {
    if input == [] then stream else Xor(input, stream)
  }

  /** The part of the input for some of the blocks; none of none. */
  function Part(input: seq<Byte>, from: nat, to: nat): (p: seq<Byte>)
    requires from <= to && (input == [] || to <= |input|)
    ensures p == [] || |p| == to - from
  {
    if input == [] then [] else input[from..to]
  }

  lemma MaskedAppend(input: seq<Byte>, n: nat, k: nat, x: seq<Byte>, y: seq<Byte>)
    requires |x| == n && |y| == k > 0 && (input == [] || n + k <= |input|)
    ensures Masked(Part(input, 0, n), x) + Masked(Part(input, n, n + k), y) == Masked(Part(input, 0, n + k), x + y)
  {
    if input != [] {
      XorAppend(input[..n], input[n..n + k], x, y);
      assert input[..n + k] == input[..n] + input[n..n + k];
    }
  }

  lemma MaskedInput(input: seq<Byte>, stream: seq<Byte>)
    requires |input| == |stream|
    ensures Masked(input, stream) == Xor(input, stream)
  {
  }

  lemma MaskNothing(input: seq<Byte>, stream: seq<Byte>)
    requires stream == []
    ensures Masked(Part(input, 0, 0), stream) == []
  {
  }

  /** The n blocks after the first k of a stretch. */
  lemma MaskedStretch(e: BlockCipher, register: seq<Byte>, input: seq<Byte>, first: nat, k: nat, n: nat)
    requires e.blockSize == 16 == |register| && n > 0 && (input == [] || 16 * (k + n) <= |input|)
    ensures Masked(Part(input, 0, 16 * k), CtrStream(e, register, 16 * first, 16 * k))
            + Masked(Part(input, 16 * k, 16 * k + 16 * n), CtrStream(e, register, 16 * (first + k), 16 * n))
            == Masked(Part(input, 0, 16 * (k + n)), CtrStream(e, register, 16 * first, 16 * (k + n)))
  {
    hide AddToCounter, CtrStream, Masked, Part;
    var x, y := CtrStream(e, register, 16 * first, 16 * k), CtrStream(e, register, 16 * (first + k), 16 * n);
    StreamAppend(e, register, 16 * first, 16 * k, 16 * n);
    MaskedAppend(input, 16 * k, 16 * n, x, y);
  }

  lemma OneIsCarry(s: seq<Byte>)
    ensures AddToCounter(s, 0, 1) == AddToCounter(s, 1, 0)
  {
  }

  /** The last byte of s is counted on, in front of the bytes done. */
  lemma IncrementStep(s: seq<Byte>, i: nat, done: seq<Byte>)
    requires i < |s|
    ensures AddToCounter(s[..i + 1], 0, 1) + done
            == AddToCounter(s[..i], 0, if s[i] == 255 then 1 else 0) + ([ByteOf(s[i] as int + 1)] + done)
  {
    var t := s[..i + 1];
    assert t[..i] == s[..i] && t[i] == s[i];
  }

  /** `IncrementCounterByOne` in place, which stops at the first byte that does not carry. */
  method IncrementCounterByOne(inout: array<Byte>, size: nat)
    requires size <= inout.Length
    modifies inout
    ensures inout[..size] == AddToCounter(old(inout[..size]), 1, 0) && inout[size..] == old(inout[size..])
  {
    hide AddToCounter;
    var i, carry := size, 1;
    ghost var s := inout[..size];
    OneIsCarry(s);
    assert s[..size] == s && inout[size..size] == [];
    while i > 0 && carry != 0
      invariant 0 <= i <= size && 0 <= carry <= 1
      invariant inout[..i] == s[..i] && inout[size..] == old(inout[size..])
      invariant AddToCounter(s[..i], 0, carry) + inout[i..size] == AddToCounter(s, 1, 0)
    {
      i := i - 1;
      ghost var done := inout[i + 1..size];
      assert inout[..i + 1][i] == s[i];
      IncrementStep(s, i, done);
      inout[i] := ByteOf(inout[i] as int + 1);
      carry := if inout[i] == 0 then 1 else 0;
      assert inout[i..size] == [ByteOf(s[i] as int + 1)] + done;
      assert inout[..i] == s[..i + 1][..i] == s[..i];
    }
    AddNothing(s[..i]);
    assert inout[..size] == s[..i] + inout[i..size];
    if carry != 0 {
      EmptyCounter(s[..i], 0, carry);
    }
  }

  lemma EmptyCounter(s: seq<Byte>, i: nat, carry: nat)
    requires s == []
    ensures AddToCounter(s, i, carry) == []
  {
  }

  lemma SeekStep(s: seq<Byte>, i: nat, count: nat, carry: nat, done: seq<Byte>)
    requires i < |s|
    ensures
      var sum := s[i] as int + ByteOf(count) + carry;
      AddToCounter(s[..i + 1], count, carry) + done == AddToCounter(s[..i], count / 256, sum / 256) + ([ByteOf(sum)] + done)
  {
    var t := s[..i + 1];
    assert t[..i] == s[..i] && t[i] == s[i];
  }

  class CtrMode {
    const e: BlockCipher
    var m_register: seq<Byte>
    const m_counterArray: array<Byte>
    const m_buffer: array<Byte>
    var m_leftOver: nat

    // How many blocks the counter is ahead of the register.
    ghost var blocks: nat

    /** The counter array is the register, counted on. */
    ghost predicate Counting()
      reads this`m_register, this`blocks, m_counterArray
    {
      && e.blockSize == 16 == |m_register| == m_counterArray.Length && m_counterArray != m_buffer && m_buffer.Length >= 16
      && m_counterArray[..] == AddToCounter(m_register, blocks, 0)
    }

    /** What is left over of the last block is at the end of the buffer. */
    ghost predicate Valid()
      reads this, m_counterArray, m_buffer
    {
      && Counting() && m_leftOver < 16 && m_leftOver <= 16 * blocks
      && m_buffer[m_buffer.Length - m_leftOver..] == CtrStream(e, m_register, 16 * blocks - m_leftOver, m_leftOver)
    }

    /** The position in the key stream. */
    ghost function Position(): nat
      requires m_leftOver <= 16 * blocks
      reads this`blocks, this`m_leftOver
    {
      16 * blocks - m_leftOver
    }

    /** After `Resynchronize`. */
    constructor (e: BlockCipher, iv: seq<Byte>, iterationsToBuffer: nat)
      requires e.blockSize == 16 == |iv| && iterationsToBuffer > 0
      ensures Valid() && Position() == 0 && fresh(m_counterArray) && fresh(m_buffer)
      ensures this.e == e && m_register == iv
    {
      AddNothing(iv);
      this.e := e;
      m_register, m_leftOver, blocks := iv, 0, 0;
      m_counterArray := new Byte[16](i requires 0 <= i < 16 => iv[i]);
      m_buffer := new Byte[16 * iterationsToBuffer];
      new;
      assert m_counterArray[..] == iv;
    }

    /** `SeekToIteration`. */
    method SeekToIteration(iterationCount: nat)
      requires |m_register| == m_counterArray.Length
      modifies m_counterArray
      ensures m_counterArray[..] == AddToCounter(m_register, iterationCount, 0)
    {
      hide AddToCounter;
      var i, count, carry := m_counterArray.Length, iterationCount, 0;
      assert m_register[..i] == m_register && m_counterArray[i..] == [];
      while i > 0
        invariant 0 <= i <= m_counterArray.Length && count >= 0 && carry >= 0
        invariant AddToCounter(m_register[..i], count, carry) + m_counterArray[i..] == AddToCounter(m_register, iterationCount, 0)
      {
        i := i - 1;
        ghost var done := m_counterArray[i + 1..];
        SeekStep(m_register, i, count, carry, done);
        var sum := m_register[i] as int + ByteOf(count) + carry;
        m_counterArray[i] := ByteOf(sum);
        carry := sum / 256;
        count := count / 256;
        assert m_counterArray[i..] == [m_counterArray[i]] + done;
      }
      assert m_counterArray[0..] == m_counterArray[..];
      EmptyCounter(m_register[..0], count, carry);
    }

    /** `AdvancedProcessBlocks` with BT_InBlockIsCounter: the last byte of the counter is counted
        on, modulo 256, after each block. */
    method AdvancedProcessBlocks(input: seq<Byte>, n: nat) returns (output: seq<Byte>)
      requires Counting() && m_counterArray[15] as int + n <= 256 && (input == [] || |input| == 16 * n)
      modifies m_counterArray
      ensures output == Masked(input, CtrStream(e, m_register, 16 * blocks, 16 * n))
      ensures m_counterArray[..15] == old(m_counterArray[..15]) && m_counterArray[15] == ByteOf(old(m_counterArray[15]) as int + n)
    {
      hide AddToCounter, CtrStream, Masked, Xor;
      output := [];
      var k := 0;
      ghost var c := m_counterArray[..];
      MaskNothing(input, CtrStream(e, m_register, 16 * blocks, 0));
      while k < n
        invariant 0 <= k <= n && m_counterArray[..15] == c[..15] && m_counterArray[15] == ByteOf(c[15] as int + k)
        invariant output == Masked(Part(input, 0, 16 * k), CtrStream(e, m_register, 16 * blocks, 16 * k))
      {
        CountInLastByte(m_register, blocks, k);
        assert m_counterArray[..] == c[..15] + [c[15] + k];
        StreamBlock(e, m_register, blocks + k);
        MaskedStretch(e, m_register, input, blocks, k, 1);
        output := output + Masked(Part(input, 16 * k, 16 * k + 16), e.ProcessBlock(m_counterArray[..]));
        m_counterArray[15] := ByteOf(m_counterArray[15] as int + 1);
        k := k + 1;
      }
      assert Part(input, 0, 16 * n) == input;
    }

    /** `IncrementCounterBy256`. */
    method IncrementCounterBy256()
      requires m_counterArray.Length == 16
      modifies m_counterArray
      ensures m_counterArray[..15] == AddToCounter(old(m_counterArray[..15]), 1, 0) && m_counterArray[15] == old(m_counterArray[15])
    {
      hide AddToCounter;
      IncrementCounterByOne(m_counterArray, 15);
      assert m_counterArray[15..][0] == old(m_counterArray[15..][0]);
    }

    /** `OperateKeystream`: up to 256 blocks at a time, as many as the last byte can count. */
    method OperateKeystream(input: seq<Byte>, iterationCount: nat) returns (output: seq<Byte>)
      requires Counting() && (input == [] || |input| == 16 * iterationCount)
      modifies m_counterArray, this`blocks
      ensures Counting() && blocks == old(blocks) + iterationCount
      ensures output == Masked(input, CtrStream(e, m_register, 16 * old(blocks), 16 * iterationCount))
    {
      hide AddToCounter, CtrStream, Masked, Xor;
      output := [];
      ghost var first := blocks;
      var done := 0;
      MaskNothing(input, CtrStream(e, m_register, 16 * blocks, 0));
      while done < iterationCount
        invariant 0 <= done <= iterationCount && Counting() && blocks == first + done
        invariant output == Masked(Part(input, 0, 16 * done), CtrStream(e, m_register, 16 * first, 16 * done))
      {
        var lsb: nat := m_counterArray[15];
        var n := if iterationCount - done < 256 - lsb then iterationCount - done else 256 - lsb;
        var next := AdvancedProcessBlocks(Part(input, 16 * done, 16 * done + 16 * n), n);
        MaskedStretch(e, m_register, input, first, done, n);
        output := output + next;
        CountOn(lsb, n);
        done := done + n;
      }
      assert Part(input, 0, 16 * iterationCount) == input;
    }

    /** The counter after n of the blocks. */
    method CountOn(lsb: nat, n: nat)
      requires e.blockSize == 16 == |m_register| == m_counterArray.Length && m_counterArray != m_buffer && m_buffer.Length >= 16
      requires lsb == AddToCounter(m_register, blocks, 0)[15] && n > 0 && lsb + n <= 256
      requires m_counterArray[..15] == AddToCounter(m_register, blocks, 0)[..15]
      modifies m_counterArray, this`blocks
      ensures Counting() && blocks == old(blocks) + n
    {
      hide AddToCounter;
      m_counterArray[15] := ByteOf(lsb + n);
      if m_counterArray[15] == 0 {
        IncrementCounterBy256();
      }
      if lsb + n == 256 {
        CarryFromLastByte(m_register, blocks, n);
      } else {
        CountInLastByte(m_register, blocks, n);
      }
      blocks := blocks + n;
      assert m_counterArray[..] == m_counterArray[..15] + [m_counterArray[15]];
    }

    /** `WriteKeystream` of one block at the end of the buffer. */
    method WriteAtEnd()
      requires Counting()
      modifies m_counterArray, this`blocks, m_buffer
      ensures Counting() && blocks == old(blocks) + 1
      ensures m_buffer[m_buffer.Length - 16..] == CtrStream(e, m_register, 16 * old(blocks), 16)
    {
      hide AddToCounter, CtrStream, Xor;
      var stream := OperateKeystream([], 1);
      var from := m_buffer.Length - 16;
      forall i | 0 <= i < 16 {
        m_buffer[from + i] := stream[i];
      }
      assert m_buffer[from..] == stream;
    }

    /** Some of what is left over at the end of the buffer. */
    method TakeLeftOver(input: seq<Byte>) returns (output: seq<Byte>)
      requires Valid() && |input| <= m_leftOver
      modifies this`m_leftOver
      ensures Valid() && Position() == old(Position()) + |input| && m_leftOver == old(m_leftOver) - |input|
      ensures output == Xor(input, CtrStream(e, m_register, old(Position()), |input|))
    {
      hide AddToCounter, CtrStream, Xor;
      var from := m_buffer.Length - m_leftOver;
      StreamSplit(e, m_register, Position(), |input|, m_leftOver);
      assert m_buffer[from..][..|input|] == m_buffer[from..from + |input|];
      assert m_buffer[from..][|input|..] == m_buffer[from + |input|..];
      output := Xor(input, m_buffer[from..from + |input|]);
      m_leftOver := m_leftOver - |input|;
    }

    /** Whole blocks, without the buffer. */
    method ProcessBlocks(input: seq<Byte>) returns (output: seq<Byte>)
      requires Valid() && m_leftOver == 0 && |input| % 16 == 0
      modifies this`blocks, m_counterArray
      ensures Valid() && Position() == old(Position()) + |input|
      ensures output == Xor(input, CtrStream(e, m_register, old(Position()), |input|))
    {
      hide AddToCounter, CtrStream, Xor, Masked;
      var iterations := |input| / 16;
      assert 16 * iterations == |input|;
      output := OperateKeystream(input, iterations);
      MaskedInput(input, CtrStream(e, m_register, 16 * old(blocks), |input|));
      assert m_buffer[m_buffer.Length - m_leftOver..] == [];
    }

    /** The last, incomplete block. */
    method ProcessEnd(input: seq<Byte>) returns (output: seq<Byte>)
      requires Valid() && m_leftOver == 0 && 0 < |input| < 16
      modifies this`m_leftOver, this`blocks, m_counterArray, m_buffer
      ensures Valid() && Position() == old(Position()) + |input|
      ensures output == Xor(input, CtrStream(e, m_register, old(Position()), |input|))
    {
      hide AddToCounter, CtrStream, Xor;
      StreamSplit(e, m_register, 16 * blocks, |input|, 16);
      WriteAtEnd();
      var from := m_buffer.Length - 16;
      assert m_buffer[from..][..|input|] == m_buffer[from..from + |input|];
      assert m_buffer[from..][|input|..] == m_buffer[from + |input|..];
      output := Xor(input, m_buffer[from..from + |input|]);
      m_leftOver := 16 - |input|;
    }

    /** `ProcessData`. The loop over whole buffers is left out: all whole blocks have been taken
        before it. */
    method ProcessData(input: seq<Byte>) returns (output: seq<Byte>)
      requires Valid()
      modifies this`m_leftOver, this`blocks, m_counterArray, m_buffer
      ensures Valid() && Position() == old(Position()) + |input|
      ensures output == Xor(input, CtrStream(e, m_register, old(Position()), |input|))
    {
      hide AddToCounter, CtrStream, Xor;
      var len := if |input| < m_leftOver then |input| else m_leftOver;
      output := TakeLeftOver(input[..len]);
      var rest := input[len..];
      assert input[..len] + rest == input;
      if rest == [] {
        assert input[..len] == input;
        return;
      }
      ghost var from := old(Position());
      XorStreamAppend(e, m_register, from, input[..len], rest);
      var whole := |rest| / 16 * 16;
      assert rest[..whole] + rest[whole..] == rest;
      XorStreamAppend(e, m_register, from + len, rest[..whole], rest[whole..]);
      if whole > 0 {
        var middle := ProcessBlocks(rest[..whole]);
        output := output + middle;
      }
      if |rest| > whole {
        var end := ProcessEnd(rest[whole..]);
        output := output + end;
      }
    }

    /** `Seek`. */
    method Seek(position: nat)
      requires Valid()
      modifies this`m_leftOver, this`blocks, m_counterArray, m_buffer
      ensures Valid() && Position() == position
    {
      hide AddToCounter, CtrStream, Xor;
      SeekToIteration(position / 16);
      blocks := position / 16;
      if position % 16 > 0 {
        WriteAtEnd();
        StreamSplit(e, m_register, 16 * (position / 16), position % 16, 16);
        m_leftOver := 16 - position % 16;
        assert m_buffer[m_buffer.Length - m_leftOver..] == m_buffer[m_buffer.Length - 16..][position % 16..];
      } else {
        m_leftOver := 0;
        assert m_buffer[m_buffer.Length - m_leftOver..] == [];
      }
    }
  }

  /** A message in pieces, as it passes through the object. */
  method ProcessPieces(mode: CtrMode, pieces: seq<seq<Byte>>) returns (output: seq<Byte>)
    requires mode.Valid()
    modifies mode`m_leftOver, mode`blocks, mode.m_counterArray, mode.m_buffer
    ensures mode.Valid() && mode.Position() == old(mode.Position()) + |Join(pieces)|
    ensures output == Xor(Join(pieces), CtrStream(mode.e, mode.m_register, old(mode.Position()), |Join(pieces)|))
  {
    hide AddToCounter, CtrStream, Xor, Join;
    ghost var from := mode.Position();
    output := [];
    JoinEnds(pieces);
    XorNothing(CtrStream(mode.e, mode.m_register, from, 0));
    for i := 0 to |pieces|
      invariant mode.Valid() && mode.Position() == from + |Join(pieces[..i])|
      invariant output == Xor(Join(pieces[..i]), CtrStream(mode.e, mode.m_register, from, |Join(pieces[..i])|))
    {
      JoinNext(pieces, i);
      XorStreamAppend(mode.e, mode.m_register, from, Join(pieces[..i]), pieces[i]);
      var next := mode.ProcessData(pieces[i]);
      output := output + next;
    }
  }

  /** What is masked in pieces comes back from any position on. */
  method RoundTrip(e: BlockCipher, iv: seq<Byte>, iterationsToBuffer: nat, pieces: seq<seq<Byte>>, from: nat)
      returns (text: seq<Byte>)
    requires e.blockSize == 16 == |iv| && iterationsToBuffer > 0 && from <= |Join(pieces)|
    ensures text == Join(pieces)[from..]
  {
    hide AddToCounter, CtrStream, Xor, Join;
    ghost var message := Join(pieces);
    var mode := new CtrMode(e, iv, iterationsToBuffer);
    var masked := ProcessPieces(mode, pieces);
    mode.Seek(from);
    text := mode.ProcessData(masked[from..]);
    SplitMasked(e, iv, message, from);
    XorTwice(message[from..], CtrStream(e, iv, from, |message| - from));
  }

  lemma SplitMasked(e: BlockCipher, register: seq<Byte>, message: seq<Byte>, from: nat)
    requires e.blockSize == 16 == |register| && from <= |message|
    ensures Xor(message, CtrStream(e, register, 0, |message|))[from..]
            == Xor(message[from..], CtrStream(e, register, from, |message| - from))
  {
    hide AddToCounter, CtrStream, Xor;
    assert message == message[..from] + message[from..];
    XorStreamAppend(e, register, 0, message[..from], message[from..]);
  }
}
