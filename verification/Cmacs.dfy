/** CMAC (cmac.cpp): subkeys by doubling, and a message that arrives in pieces while its last
    block is held back. The specification is sections 6.1 and 6.2 of NIST SP 800-38B. */
module Cmacs {
  import opened Arithmetic
  import opened Numbers
  import opened Bytes
  import opened BlockCiphers
  import opened HeldBack

  // ---------- Section 6.1: subkeys ----------

  /** k << 1, in as many bytes. */
  function ShiftLeft(k: seq<Byte>): (r: seq<Byte>)
    ensures |r| == |k|
  {
    BigEndian(2 * Value(k), |k|)
  }

  predicate SupportedSize(n: nat) {
    n == 8 || n == 16 || n == 32
  }

  /** R_b of the standard for 64 and 128 bits, and the code's own choice for 256. */
  function Reduction(n: nat): (r: seq<Byte>)
    requires SupportedSize(n)
    ensures |r| == n
  {
    Zeros(n - 2) + if n == 8 then [0, 0x1b] else if n == 16 then [0, 0x87] else [4, 0x23]
  }

  function Double(k: seq<Byte>): (r: seq<Byte>)
    requires SupportedSize(|k|)
    ensures |r| == |k|
  {
    if k[0] < 128 then ShiftLeft(k) else Xor(ShiftLeft(k), Reduction(|k|))
  }

  function FirstSubkey(e: BlockCipher): (k: seq<Byte>)
    requires SupportedSize(e.blockSize)
    ensures |k| == e.blockSize
  {
    Double(e.ProcessBlock(Zeros(e.blockSize)))
  }

  function SecondSubkey(e: BlockCipher): (k: seq<Byte>)
    requires SupportedSize(e.blockSize)
    ensures |k| == e.blockSize
  {
    Double(FirstSubkey(e))
  }

  // ---------- Section 6.2: the tag of a whole message ----------

  /** The last block, padded when incomplete, under the subkey that goes with it. */
  function LastBlock(e: BlockCipher, tail: seq<Byte>): (b: seq<Byte>)
    requires SupportedSize(e.blockSize) && |tail| <= e.blockSize
    ensures |b| == e.blockSize
  {
    if |tail| == e.blockSize then Xor(tail, FirstSubkey(e))
    else Xor(tail + [0x80] + Zeros(e.blockSize - |tail| - 1), SecondSubkey(e))
  }

  function Tag(e: BlockCipher, message: seq<Byte>): (t: seq<Byte>)
    requires SupportedSize(e.blockSize)
    ensures |t| == e.blockSize
  {
    var k := |message| - LastLength(e.blockSize, |message|);
    Chain(e, Zeros(e.blockSize), message[..k] + LastBlock(e, message[k..]))
  }

  /** The tag from the chaining value before the last block. */
  lemma TagFromChain(e: BlockCipher, whole: seq<Byte>, tail: seq<Byte>, k: nat)
    requires SupportedSize(e.blockSize) && |whole| == k * e.blockSize
    requires |tail| <= e.blockSize && (tail == [] ==> whole == [])
    ensures Tag(e, whole + tail) == e.ProcessBlock(Xor(Chain(e, Zeros(e.blockSize), whole), LastBlock(e, tail)))
  {
    hide Chain, LastBlock, LastLength;
    var n, zero := e.blockSize, Zeros(e.blockSize);
    if whole != [] { LastLengthIs(n, k, |tail|); } else { LastLengthIs(n, 0, |tail|); }
    assert (whole + tail)[..|whole|] == whole && (whole + tail)[|whole|..] == tail;
    ChainAppend(e, zero, whole, LastBlock(e, tail), k);
    ChainOne(e, Chain(e, zero, whole), LastBlock(e, tail));
  }

  // ---------- MulU ----------

  function TopBit(b: Byte): (c: nat)
    ensures c < 2
  {
    b / 128
  }

  /** A byte shifted left, with a bit coming in. */
  function ShiftedByte(b: Byte, carry: nat): Byte {
    (2 * b + carry) % 256
  }

  /** The bit that comes into byte j of the bytes before `end`, or into the last of them. */
  function CarryInto(k: seq<Byte>, end: nat, j: int, carry: nat): (c: nat)
    requires -1 <= j < end <= |k|
    ensures c < 2 || c == carry
  {
    if j + 1 < end then TopBit(k[j + 1]) else carry
  }

  lemma CarryIs(k: seq<Byte>, end: nat, j: int, carry: nat)
    requires -1 <= j < end <= |k|
    ensures CarryInto(k, end, j, carry) == if j + 1 < end then TopBit(k[j + 1]) else carry
  {
  }

  /** r is k shifted left byte by byte, with `carry` coming in. */
  predicate ShiftedBytes(k: seq<Byte>, r: seq<Byte>, carry: nat) {
    |r| == |k| && forall j :: 0 <= j < |k| ==> r[j] == ShiftedByte(k[j], CarryInto(k, |k|, j, carry))
  }

  lemma ShiftOut(high: nat, low: Byte, carry: nat)
    requires carry < 2
    ensures (2 * (256 * high + low) + carry) / 256 == 2 * high + TopBit(low)
    ensures (2 * (256 * high + low) + carry) % 256 == ShiftedByte(low, carry)
  {
  }

  lemma {:induction false} ShiftedBytesShift(k: seq<Byte>, r: seq<Byte>, carry: nat)
    requires ShiftedBytes(k, r, carry) && carry < 2
    ensures r == BigEndian(2 * Value(k) + carry, |k|)
    decreases |k|
  {
    hide TopBit, ShiftedByte, BigEndian, Value;
    BigEndianEnd(2 * Value(k) + carry);
    if k != [] {
      var n := |k| - 1;
      ValueSplit(k);
      BigEndianNext(2 * Value(k) + carry, n);
      ShiftedBytesShift(k[..n], r[..n], TopBit(k[n]));
      ShiftOut(Value(k[..n]), k[n], carry);
      var v := 2 * Value(k) + carry;
      assert v / 256 == 2 * Value(k[..n]) + TopBit(k[n]);
      assert v % 256 == ShiftedByte(k[n], carry);
      assert r[n] == ByteOf(v);
      assert r == r[..n] + [r[n]];
    }
  }

  /** `MulU` on the `length` bytes of k from `at` on. Fails if the top bit falls out of a block
      for which there is no reduction. */
  method MulU(k: array<Byte>, at: nat, length: nat) returns (ok: bool)
    requires at + length <= k.Length && length > 0 && length % 2 == 0
    modifies k
    ensures k[..at] == old(k[..at]) && k[at + length..] == old(k[at + length..])
    ensures ok == (SupportedSize(length) || old(k[at]) < 128)
    ensures SupportedSize(length) ==> k[at..at + length] == Double(old(k[at..at + length]))
  {
    hide BigEndian, Value, ShiftedBytes, ShiftedByte, Reduction;
    var carry := ShiftInPlace(k, at, length);
    assert k[at..at + length] == k[..][at..at + length];
    assert old(k[at..at + length]) == old(k[..])[at..at + length];
    ShiftedBytesShift(old(k[at..at + length]), k[at..at + length], 0);
    ok := true;
    if carry != 0 {
      ok := Reduce(k, at, length);
    }
  }

  /** The loop: two bytes a round, each with the carry of its right neighbour, taken before
      that one is overwritten. */
  method ShiftInPlace(k: array<Byte>, at: nat, length: nat) returns (carry: nat)
    requires at + length <= k.Length && length > 0 && length % 2 == 0
    modifies k
    ensures k[..][..at] == old(k[..])[..at] && k[..][at + length..] == old(k[..])[at + length..]
    ensures ShiftedBytes(old(k[..])[at..at + length], k[..][at..at + length], 0)
    ensures carry == TopBit(old(k[at]))
  {
    hide ShiftedByte, TopBit, CarryInto, ShiftedBytes;
    ghost var was := k[..];
    carry := 0;
    var i := at + length - 1;
    CarryIs(was, at + length, i, 0);
    ghost var pairs := length / 2;
    while i >= at + 1
      invariant 0 <= pairs <= length / 2 && i == at + 2 * pairs - 1 < at + length
      invariant forall j :: 0 <= j < k.Length && !(i < j < at + length) ==> k[j] == was[j]
      invariant forall j :: i < j < at + length ==> k[j] == ShiftedByte(was[j], CarryInto(was, at + length, j, 0))
      invariant carry == CarryInto(was, at + length, i, 0)
    {
      CarryIs(was, at + length, i - 1, 0);
      CarryIs(was, at + length, i - 2, 0);
      carry := ShiftPair(k, i, carry);
      i := i - 2;
      pairs := pairs - 1;
    }
    CarryIs(was, at + length, at - 1, 0);
    Range(was, k[..], at, at + length);
  }

  method ShiftPair(k: array<Byte>, i: nat, carry: nat) returns (carry': nat)
    requires 1 <= i < k.Length && carry < 2
    modifies k
    ensures k[i] == ShiftedByte(old(k[i]), carry) && k[i - 1] == ShiftedByte(old(k[i - 1]), TopBit(old(k[i])))
    ensures forall j :: 0 <= j < k.Length && j != i && j != i - 1 ==> k[j] == old(k[j])
    ensures carry' == TopBit(old(k[i - 1]))
  {
    hide TopBit, ShiftedByte;
    var carry2 := TopBit(k[i]);
    k[i] := Doubled(k[i], carry);
    carry' := TopBit(k[i - 1]);
    k[i - 1] := Doubled(k[i - 1], carry2);
  }

  lemma Range(was: seq<Byte>, now: seq<Byte>, at: nat, end: nat)
    requires at <= end <= |was| == |now|
    requires forall j :: 0 <= j < |was| && !(at <= j < end) ==> now[j] == was[j]
    requires forall j :: at <= j < end ==> now[j] == ShiftedByte(was[j], CarryInto(was, end, j, 0))
    ensures now[..at] == was[..at] && now[end..] == was[end..] && ShiftedBytes(was[at..end], now[at..end], 0)
  {
    hide ShiftedByte, TopBit;
  }

  /** `b += b + carry` on bytes. */
  function Doubled(b: Byte, carry: nat): (r: Byte)
    ensures r == ShiftedByte(b, carry)
  {
    ByteOf(b as int + b + carry)
  }

  method Reduce(k: array<Byte>, at: nat, length: nat) returns (ok: bool)
    requires at + length <= k.Length
    modifies k
    ensures k[..at] == old(k[..at]) && k[at + length..] == old(k[at + length..])
    ensures ok == SupportedSize(length)
    ensures ok ==> k[at..at + length] == Xor(old(k[at..at + length]), Reduction(length))
  {
    XorZeros(k[at..at + length]);
    ok := true;
    match length {
      case 8 => k[at + 7] := XorByte(k[at + 7], 0x1b);
      case 16 => k[at + 15] := XorByte(k[at + 15], 0x87);
      case 32 =>
        k[at + 30] := XorByte(k[at + 30], 4);
        k[at + 31] := XorByte(k[at + 31], 0x23);
      case _ => ok := false;
    }
  }

  // ---------- The held-back block ----------

  /** What the register stands for: whole blocks chained, the tail xored in. */
  ghost predicate Holds(e: BlockCipher, register: seq<Byte>, whole: seq<Byte>, tail: seq<Byte>, blocks: nat) {
    && e.blockSize > 0 && |tail| <= e.blockSize && |whole| == blocks * e.blockSize
    && register == XorFront(Chain(e, Zeros(e.blockSize), whole), tail)
  }

  lemma XorFrontNothing(a: seq<Byte>)
    ensures XorFront(a, []) == a
  {
    assert [] + Zeros(|a|) == Zeros(|a|);
    XorZeros(a);
  }

  lemma HoldsMore(e: BlockCipher, register: seq<Byte>, whole: seq<Byte>, tail: seq<Byte>, blocks: nat, data: seq<Byte>)
    requires Holds(e, register, whole, tail, blocks) && |tail| + |data| <= e.blockSize
    ensures |register| == e.blockSize
    ensures Holds(e, register[..|tail|] + Xor(register[|tail|..|tail| + |data|], data) + register[|tail| + |data|..],
                  whole, tail + data, blocks)
  {
    hide Chain;
    var c, n, m := Chain(e, Zeros(e.blockSize), whole), |tail|, |tail| + |data|;
    var now := register[..n] + Xor(register[n..m], data) + register[m..];
    forall i | 0 <= i < e.blockSize ensures now[i] == XorFront(c, tail + data)[i] {
      XorZeroWord(c[i]);
    }
  }

  /** Enciphering a full register takes the tail into the chain. */
  lemma HoldsFlushed(e: BlockCipher, register: seq<Byte>, whole: seq<Byte>, tail: seq<Byte>, blocks: nat)
    requires Holds(e, register, whole, tail, blocks) && |tail| == e.blockSize
    ensures |register| == e.blockSize
    ensures Holds(e, e.ProcessBlock(register), whole + tail, [], blocks + 1)
  {
    var zero := Zeros(e.blockSize);
    OneLess(blocks + 1, e.blockSize);
    ChainAppend(e, zero, whole, tail, blocks);
    assert tail + Zeros(0) == tail;
    ChainOne(e, Chain(e, zero, whole), tail);
    XorFrontNothing(e.ProcessBlock(register));
  }

  lemma HoldsBlocks(e: BlockCipher, register: seq<Byte>, whole: seq<Byte>, blocks: nat, data: seq<Byte>, k: nat)
    requires Holds(e, register, whole, [], blocks) && |data| == k * e.blockSize
    ensures |register| == e.blockSize
    ensures Holds(e, Chain(e, register, data), whole + data, [], blocks + k)
  {
    hide Chain, XorFront;
    var zero := Zeros(e.blockSize);
    XorFrontNothing(Chain(e, zero, whole));
    ChainAppend(e, zero, whole, data, blocks);
    XorFrontNothing(Chain(e, register, data));
    Distribute(blocks, k, e.blockSize);
  }

  /** The last step: the register, its tail padded if need be, under the subkey. */
  lemma HoldsTag(e: BlockCipher, register: seq<Byte>, whole: seq<Byte>, tail: seq<Byte>, blocks: nat)
    requires SupportedSize(e.blockSize) && |tail| <= e.blockSize && (tail == [] ==> whole == [])
    requires Holds(e, register, whole, if |tail| == e.blockSize then tail else tail + [0x80], blocks)
    ensures |register| == e.blockSize
    ensures Tag(e, whole + tail)
            == e.ProcessBlock(Xor(register, if |tail| == e.blockSize then FirstSubkey(e) else SecondSubkey(e)))
  {
    hide Chain, Xor, FirstSubkey, SecondSubkey, Tag;
    var c := Chain(e, Zeros(e.blockSize), whole);
    TagFromChain(e, whole, tail, blocks);
    if |tail| == e.blockSize {
      assert tail + Zeros(0) == tail;
      XorAssociative(c, tail, FirstSubkey(e));
    } else {
      XorAssociative(c, tail + [0x80] + Zeros(e.blockSize - |tail| - 1), SecondSubkey(e));
    }
  }

  class Cmac {
    const cipher: BlockCipher
    // The register, then the subkeys for a complete and for an incomplete last block.
    const m_reg: array<Byte>
    var m_counter: nat

    // The message so far: whole blocks already chained, and what is held back.
    ghost var whole: seq<Byte>
    ghost var tail: seq<Byte>
    ghost var blocks: nat

    function Register(): (r: seq<Byte>)
      requires m_reg.Length == 3 * cipher.blockSize
      reads m_reg
      ensures |r| == cipher.blockSize
    {
      m_reg[..cipher.blockSize]
    }

    function Subkeys(): (r: seq<Byte>)
      requires m_reg.Length == 3 * cipher.blockSize
      reads m_reg
      ensures |r| == 2 * cipher.blockSize
    {
      m_reg[cipher.blockSize..]
    }

    ghost predicate Keyed()
      reads m_reg
    {
      && SupportedSize(cipher.blockSize) && m_reg.Length == 3 * cipher.blockSize
      && Subkeys() == FirstSubkey(cipher) + SecondSubkey(cipher)
    }

    ghost predicate Holding()
      reads this, m_reg
    {
      Keyed() && m_counter == |tail| <= cipher.blockSize && Holds(cipher, Register(), whole, tail, blocks)
    }

    ghost predicate Valid()
      reads this, m_reg
    {
      Holding() && (tail == [] ==> whole == [])
    }

    ghost function Message(): seq<Byte>
      reads this
    {
      whole + tail
    }

    constructor (cipher: BlockCipher)
      ensures this.cipher == cipher && fresh(m_reg) && m_reg.Length == 3 * cipher.blockSize
    {
      this.cipher := cipher;
      m_reg := new Byte[3 * cipher.blockSize];
      m_counter, whole, tail, blocks := 0, [], [], 0;
    }

    /** `xorbuf` into the register. */
    method XorRegister(at: nat, s: seq<Byte>)
      requires m_reg.Length == 3 * cipher.blockSize && at + |s| <= cipher.blockSize
      modifies m_reg
      ensures |old(Register())| == cipher.blockSize
      ensures Register() == old(Register())[..at] + Xor(old(Register())[at..at + |s|], s) + old(Register())[at + |s|..]
      ensures Subkeys() == old(Subkeys())
    {
      forall i | at <= i < at + |s| {
        m_reg[i] := XorByte(m_reg[i], s[i - at]);
      }
    }

    /** The next bytes of a block. */
    method Absorb(data: seq<Byte>)
      requires Holding() && |tail| + |data| <= cipher.blockSize
      modifies this`m_counter, this`tail, m_reg
      ensures Holding() && tail == old(tail) + data
    {
      hide Holds, Xor, FirstSubkey, SecondSubkey, Register, Subkeys;
      ghost var (was, n, m) := (Register(), |tail|, |tail| + |data|);
      HoldsMore(cipher, was, whole, tail, blocks, data);
      XorRegister(m_counter, data);
      m_counter := m_counter + |data|;
      tail := tail + data;
    }

    method PutRegister(r: seq<Byte>)
      requires m_reg.Length == 3 * cipher.blockSize && |r| == cipher.blockSize
      modifies m_reg
      ensures Register() == r && Subkeys() == old(Subkeys())
    {
      forall i | 0 <= i < |r| {
        m_reg[i] := r[i];
      }
    }

    /** A full register is enciphered when more of the message is there to follow it. */
    method ProcessRegister()
      requires Holding() && |tail| == cipher.blockSize
      modifies this`m_counter, this`whole, this`tail, this`blocks, m_reg
      ensures Holding() && tail == [] && whole == old(Message())
    {
      hide Holds;
      HoldsFlushed(cipher, Register(), whole, tail, blocks);
      PutRegister(cipher.ProcessBlock(Register()));
      m_counter := 0;
      whole, tail, blocks := whole + tail, [], blocks + 1;
    }

    /** Every whole block but the last. Returns how much is left. */
    method ProcessAllButLast(input: seq<Byte>) returns (leftOver: nat)
      requires Holding() && tail == [] && |input| > cipher.blockSize
      modifies this`whole, this`blocks, m_reg
      ensures 0 < leftOver <= cipher.blockSize
      ensures Holding() && whole == old(whole) + input[..|input| - leftOver]
    {
      hide Holds, Chain;
      var register;
      register, leftOver := ChainBlocks(cipher, Register(), input[..|input| - 1]);
      leftOver := 1 + leftOver;
      ghost var (taken, k) := (|input| - leftOver, (|input| - 1) / cipher.blockSize);
      Fundamental(|input| - 1, cipher.blockSize);
      MulCommutes(k, cipher.blockSize);
      assert input[..|input| - 1] == input[..taken] + input[taken..|input| - 1];
      ChainWhole(cipher, Register(), input[..taken], input[taken..|input| - 1], k);
      HoldsBlocks(cipher, Register(), whole, blocks, input[..taken], k);
      PutRegister(register);
      whole, blocks := whole + input[..taken], blocks + k;
    }

    /** `Update`: a full register is not enciphered until more of the message follows. */
    method Update(input: seq<Byte>)
      requires Valid()
      modifies this, m_reg
      ensures Valid() && Message() == old(Message()) + input
    {
      hide Holds, Keyed, Register;
      if |input| == 0 {
        assert Message() == Message() + input;
        return;
      }
      var rest := input;
      if m_counter > 0 {
        rest := CompleteBlock(input);
      }
      ghost var before := Message();
      if |rest| > cipher.blockSize {
        var leftOver := ProcessAllButLast(rest);
        assert before + rest == before + rest[..|rest| - leftOver] + rest[|rest| - leftOver..];
        rest := rest[|rest| - leftOver..];
      }
      if |rest| > 0 {
        Absorb(rest);
      }
    }

    /** Its first part. What is returned follows an empty register, or is nothing. */
    method CompleteBlock(input: seq<Byte>) returns (rest: seq<Byte>)
      requires Holding() && m_counter > 0 && input != []
      modifies this, m_reg
      ensures Holding() && Message() + rest == old(Message()) + input
      ensures (rest == [] && tail != []) || (rest != [] && tail == [])
    {
      hide Holds, Keyed, Register;
      var n := cipher.blockSize;
      var len := if n - m_counter < |input| then n - m_counter else |input|;
      rest := input;
      if len != 0 {
        Absorb(input[..len]);
        rest := input[len..];
      }
      assert Message() + rest == old(Message()) + input;
      if m_counter == n && |rest| > 0 {
        ProcessRegister();
      }
    }

    method PutSubkey(at: nat, s: seq<Byte>)
      requires at + |s| <= m_reg.Length
      modifies m_reg
      ensures m_reg[..at] == old(m_reg[..at]) && m_reg[at..at + |s|] == s
    {
      forall i | 0 <= i < |s| {
        m_reg[at + i] := s[i];
      }
    }

    /** `UncheckedSetKey` for a cipher already keyed. */
    method UncheckedSetKey() returns (ok: bool)
      requires m_reg.Length == 3 * cipher.blockSize && cipher.blockSize > 0 && cipher.blockSize % 2 == 0
      modifies this, m_reg
      ensures SupportedSize(cipher.blockSize) ==> ok && Valid() && Message() == []
    {
      hide Double, Holds;
      var n := cipher.blockSize;
      m_counter, whole, tail, blocks := 0, [], [], 0;
      PutRegister(Zeros(n));
      PutSubkey(n, cipher.ProcessBlock(Register()));
      ok := MulU(m_reg, n, n);
      if ok {
        assert Register() == m_reg[..n] && Subkeys()[..n] == m_reg[n..n + n];
        ok := PutSecondSubkey();
      }
      HoldsNothing(cipher, Zeros(n));
      assert |Message()| == 0;
    }

    method PutSecondSubkey() returns (ok: bool)
      requires m_reg.Length == 3 * cipher.blockSize && cipher.blockSize > 0 && cipher.blockSize % 2 == 0
      modifies m_reg
      ensures Register() == old(Register())
      ensures SupportedSize(cipher.blockSize) ==>
        ok && |Subkeys()[..cipher.blockSize]| == cipher.blockSize
        && Subkeys() == old(Subkeys()[..cipher.blockSize]) + Double(old(Subkeys()[..cipher.blockSize]))
    {
      hide Double;
      var n := cipher.blockSize;
      ghost var was := m_reg[..];
      PutSubkey(2 * n, m_reg[n..2 * n]);
      assert m_reg[..2 * n] == was[..2 * n];
      ok := MulU(m_reg, 2 * n, n);
      assert m_reg[..2 * n] == was[..2 * n];
      Thirds(was, m_reg[..], n);
      assert m_reg[2 * n..2 * n + n] == m_reg[..][2 * n..];
    }

    /** `TruncatedFinal`. Fails if more is asked for than there is. */
    method TruncatedFinal(size: nat) returns (ok: bool, mac: seq<Byte>)
      requires Valid()
      modifies this, m_reg
      ensures ok == (size <= cipher.blockSize)
      ensures ok ==> mac == Tag(cipher, old(Message()))[..size] && Valid() && Message() == []
      ensures !ok ==> unchanged(this) && unchanged(m_reg)
    {
      hide Holds, Chain, Tag, FirstSubkey, SecondSubkey, Register, Subkeys;
      var n := cipher.blockSize;
      if size > n {
        return false, [];
      }
      var subkey := if m_counter < n then Subkeys()[n..] else Subkeys()[..n];
      if m_counter < n {
        HoldsMore(cipher, Register(), whole, tail, blocks, [0x80]);
        XorRegister(m_counter, [0x80]);
      }
      HoldsTag(cipher, Register(), whole, tail, blocks);
      ChainOne(cipher, Register(), subkey);
      var register, leftOver := ChainBlocks(cipher, Register(), subkey);
      mac := register[..size];
      m_counter := 0;
      PutRegister(Zeros(n));
      HoldsNothing(cipher, Zeros(n));
      whole, tail, blocks := [], [], 0;
      assert |Message()| == 0;
      return true, mac;
    }
  }

  lemma Thirds(was: seq<Byte>, now: seq<Byte>, n: nat)
    requires |was| == |now| == 3 * n && now[..2 * n] == was[..2 * n]
    ensures now[..n] == was[..n] && now[n..] == was[n..2 * n] + now[2 * n..] && was[n..][..n] == was[n..2 * n]
  {
    assert now[..n] == now[..2 * n][..n] && was[..n] == was[..2 * n][..n];
    assert now[n..2 * n] == now[..2 * n][n..] && was[n..2 * n] == was[..2 * n][n..];
    assert now[n..] == now[n..2 * n] + now[2 * n..];
  }

  lemma HoldsNothing(e: BlockCipher, zero: seq<Byte>)
    requires e.blockSize > 0 && zero == Zeros(e.blockSize)
    ensures Holds(e, zero, [], [], 0)
  {
    XorFrontNothing(zero);
  }

  /** However the message is cut, the tag is that of the whole message. */
  method MacOfPieces(cipher: BlockCipher, pieces: seq<seq<Byte>>, size: nat) returns (mac: seq<Byte>)
    requires SupportedSize(cipher.blockSize) && size <= cipher.blockSize
    ensures mac == Tag(cipher, Join(pieces))[..size]
  {
    hide Tag, Join, Holds;
    var cmac := new Cmac(cipher);
    var ok := cmac.UncheckedSetKey();
    JoinEnds(pieces);
    for i := 0 to |pieces|
      invariant cmac.Valid() && cmac.Message() == Join(pieces[..i])
    {
      JoinNext(pieces, i);
      cmac.Update(pieces[i]);
    }
    ok, mac := cmac.TruncatedFinal(size);
  }
}
