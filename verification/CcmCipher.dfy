/** `AuthenticatedSymmetricCipherBase` of authenc.cpp with `CCM_Base` of ccm.cpp as one
    class: the state machine that takes header and message in pieces of any size. */
module CcmCipher {
  import opened Bytes
  import opened BlockCiphers
  import opened CcmSpec
  import opened CtrModes

  datatype State = Start | KeySet | IVSet | AuthUntransformed | AuthTransformed | AuthFooter

  /** How a call ends: normally, or with one of the exceptions of the source. */
  datatype Outcome = Done | BadState | InvalidArgument

  const MAX_LWORD := 0xFFFF_FFFF_FFFF_FFFF

  function Overwritten(a: seq<Byte>, at: nat, s: seq<Byte>): (b: seq<Byte>)
    requires at + |s| <= |a|
    ensures |b| == |a|
  {
    a[..at] + s + a[at + |s|..]
  }

  /** `memcpy` into an array. */
  method CopyInto(a: array<Byte>, at: nat, s: seq<Byte>)
    requires at + |s| <= a.Length
    modifies a
    ensures a[..] == Overwritten(old(a[..]), at, s)
  {
    forall i | 0 <= i < |s| {
      a[at + i] := s[i];
    }
  }

  /** The front of the buffer holds the end of `fed` that is short of a block; `back` is the
      chaining value after the rest. */
  ghost predicate Buffered(e: BlockCipher, base: seq<Byte>, fed: seq<Byte>, front: seq<Byte>, num: nat, back: seq<Byte>)
    requires e.blockSize == 16 == |base| == |front|
  {
    && num < 16 && num <= |fed| && (|fed| - num) % 16 == 0
    && front[..num] == fed[|fed| - num..] && back == Chain(e, base, fed)
  }

  lemma KeepBuffered(e: BlockCipher, base: seq<Byte>, fed: seq<Byte>, front: seq<Byte>, num: nat, back: seq<Byte>,
                     data: seq<Byte>)
    requires e.blockSize == 16 == |base| == |front| && Buffered(e, base, fed, front, num, back) && num + |data| < 16
    ensures Buffered(e, base, fed + data, front[..num] + data + front[num + |data|..], num + |data|, back)
  {
    hide Chain;
    var whole, tail := fed[..|fed| - num], fed[|fed| - num..];
    assert fed == whole + tail && fed + data == whole + (tail + data);
    ChainWhole16(e, base, whole, tail);
    ChainWhole16(e, base, whole, tail + data);
    assert front[..num] + data + front[num + |data|..] == tail + data + front[num + |data|..];
  }

  lemma AtBoundary(e: BlockCipher, base: seq<Byte>, fed: seq<Byte>, front: seq<Byte>, back: seq<Byte>)
    requires e.blockSize == 16 == |base| == |front| && Buffered(e, base, fed, front, 0, back)
    ensures |fed| % 16 == 0 && back == Chain(e, base, fed)
  {
  }

  lemma FromBoundary(e: BlockCipher, base: seq<Byte>, fed: seq<Byte>, input: seq<Byte>, num: nat,
                     front: seq<Byte>, back: seq<Byte>)
    requires e.blockSize == 16 == |base| == |front| && num < 16 && num <= |input| && (|fed + input| - num) % 16 == 0
    requires front[..num] == input[|input| - num..] && back == Chain(e, base, fed + input)
    ensures Buffered(e, base, fed + input, front, num, back)
  {
    hide Chain;
    LastOfSum(fed, input, num);
  }

  /** What is left of b after whole blocks is left of a and b together. */
  lemma LeftOfSum(a: nat, b: nat, sum: nat, left: nat)
    requires a % 16 == 0 && sum == a + b && left == b % 16
    ensures left < 16 && left <= b && (sum - left) % 16 == 0
  {
  }

  lemma LastOfSum(a: seq<Byte>, b: seq<Byte>, n: nat)
    requires n <= |b|
    ensures (a + b)[|a + b| - n..] == b[|b| - n..]
  {
  }

  class Ccm {
    const cipher: BlockCipher
    const isEncryption: bool
    var m_state: State
    var m_digestSize: nat
    var m_L: nat
    // The first half holds data short of a block, the second half the chaining value.
    const m_buffer: array<Byte>
    var m_bufferedDataLength: nat
    var m_totalHeaderLength: nat
    var m_totalMessageLength: nat
    var m_totalFooterLength: nat
    var m_aadLength: nat
    var m_messageLength: nat
    // `m_ctr`: its first counter block and its position in bytes.
    var ctrRegister: seq<Byte>
    var ctrPosition: nat

    // What the caller has supplied since the last Resynchronize.
    ghost var nonce: seq<Byte>
    ghost var lengthsGiven: bool
    ghost var header: seq<Byte>
    ghost var message: seq<Byte>  // the plaintext, in either direction
    ghost var footer: seq<Byte>

    function Front(): (s: seq<Byte>)
      requires m_buffer.Length == 32
      reads m_buffer
      ensures |s| == 16
    {
      m_buffer[..16]
    }

    function Back(): (s: seq<Byte>)
      requires m_buffer.Length == 32
      reads m_buffer
      ensures |s| == 16
    {
      m_buffer[16..]
    }

    /** All of `fed` has been authenticated on top of `base`, but for the buffered bytes. */
    ghost predicate Absorbed(base: seq<Byte>, fed: seq<Byte>)
      requires cipher.blockSize == 16 == |base|
      reads this`m_bufferedDataLength, m_buffer
    {
      m_buffer.Length == 32 && m_bufferedDataLength < 16 && Buffered(cipher, base, fed, Front(), m_bufferedDataLength, Back())
    }

    ghost predicate Keyed()
      reads this`m_digestSize
    {
      cipher.blockSize == 16 && m_buffer.Length == 32 && ValidDigestSize(m_digestSize)
    }

    /** The chaining value after B_0. */
    ghost function HeaderBase(): (x: seq<Byte>)
      requires Keyed() && ValidNonce(nonce)
      reads this`m_digestSize, this`nonce, this`m_aadLength, this`m_messageLength
      ensures |x| == 16
    {
      cipher.ProcessBlock(FirstBlock(m_digestSize, nonce, m_aadLength, m_messageLength))
    }

    /** The chaining value after the padded header. */
    ghost function MessageBase(): (x: seq<Byte>)
      requires Keyed() && ValidNonce(nonce)
      reads this`m_digestSize, this`nonce, this`m_aadLength, this`m_messageLength, this`header
      ensures |x| == 16
    {
      Chain(cipher, HeaderBase(), Pad(HeaderPrefix(m_aadLength) + header))
    }

    /** A nonce is set, and the counter stands where the message so far has brought it. */
    ghost predicate Ready()
      reads this`m_digestSize, this`nonce, this`m_L, this`ctrRegister, this`ctrPosition, this`header, this`message,
            this`m_totalHeaderLength, this`m_totalMessageLength
    {
      && Keyed() && ValidNonce(nonce)
      && m_L == LengthBytes(nonce)
      && ctrRegister == CounterBlock(nonce, 0)
      && ctrPosition == 16 + |message|
      && m_totalHeaderLength == |header| && m_totalMessageLength == |message|
    }

    ghost predicate AwaitingLengths()
      reads this`m_digestSize, this`nonce, this`m_L, this`ctrRegister, this`ctrPosition, this`header, this`message,
            this`m_totalHeaderLength, this`m_totalMessageLength,
            this`m_totalFooterLength, this`m_bufferedDataLength, m_buffer
    {
      && Ready() && header == message == [] && m_totalFooterLength == 0
      && m_bufferedDataLength == 0 && Front() == ctrRegister
    }

    ghost predicate TakingHeader()
      reads this`m_digestSize, this`nonce, this`m_L, this`ctrRegister, this`ctrPosition, this`header, this`message,
            this`m_totalHeaderLength, this`m_totalMessageLength,
            this`m_totalFooterLength, this`m_bufferedDataLength, this`m_aadLength, this`m_messageLength, m_buffer
    {
      && Ready() && message == [] && m_totalFooterLength == 0
      && Absorbed(HeaderBase(), HeaderPrefix(m_aadLength) + header)
    }

    ghost predicate TakingMessage()
      reads this`m_digestSize, this`nonce, this`m_L, this`ctrRegister, this`ctrPosition, this`header, this`message,
            this`m_totalHeaderLength, this`m_totalMessageLength,
            this`m_totalFooterLength, this`m_bufferedDataLength, this`m_aadLength, this`m_messageLength, m_buffer
    {
      && Ready() && |header| == m_aadLength && m_totalFooterLength == 0
      && Absorbed(MessageBase(), message)
    }

    ghost predicate TakingFooter()
      reads this`m_digestSize, this`nonce, this`m_L, this`ctrRegister, this`ctrPosition, this`header, this`message,
            this`m_totalHeaderLength, this`m_totalMessageLength,
            this`footer, this`m_totalFooterLength, this`m_bufferedDataLength, this`m_aadLength, this`m_messageLength, m_buffer
    {
      && Ready() && |footer| == m_totalFooterLength > 0
      && Absorbed(Chain(cipher, MessageBase(), Pad(message)), footer)
    }

    ghost predicate Valid()
      reads this, m_buffer
    {
      && m_buffer.Length == 32
      && match m_state
         case Start => true
         case KeySet => Keyed()
         case IVSet => if lengthsGiven then TakingHeader() else AwaitingLengths()
         case AuthFooter => TakingFooter()
         case _ => TakingMessage() && m_state.AuthUntransformed? == isEncryption
    }

    constructor (cipher: BlockCipher, isEncryption: bool)
      ensures Valid() && m_state.Start? && fresh(m_buffer)
      ensures this.cipher == cipher && this.isEncryption == isEncryption
    {
      this.cipher := cipher;
      this.isEncryption := isEncryption;
      m_state := Start;
      m_digestSize, m_L := 0, 0;
      m_buffer := new Byte[32];
      m_bufferedDataLength := 0;
      m_totalHeaderLength, m_totalMessageLength, m_totalFooterLength := 0, 0, 0;
      m_aadLength, m_messageLength := 0, 0;
      ctrRegister, ctrPosition := [], 0;
      nonce, lengthsGiven, header, message, footer := [], false, [], [], [];
    }

    method PutFront(at: nat, s: seq<Byte>)
      requires m_buffer.Length == 32 && at + |s| <= 16
      modifies m_buffer
      ensures |Front()| == |old(Front())| == 16
      ensures Front() == old(Front())[..at] + s + old(Front())[at + |s|..]
      ensures Back() == old(Back())
    {
      CopyInto(m_buffer, at, s);
    }

    method PutBack(s: seq<Byte>)
      requires m_buffer.Length == 32 && |s| == 16
      modifies m_buffer
      ensures Front() == old(Front()) && Back() == s
    {
      CopyInto(m_buffer, 16, s);
    }

    /** `CCM_Base::AuthenticateBlocks`: whole blocks into the chaining value. */
    method AuthenticateBlocks(data: seq<Byte>) returns (leftOver: nat)
      requires cipher.blockSize == 16 && m_buffer.Length == 32
      modifies m_buffer
      ensures Front() == old(Front())
      ensures |old(Back())| == 16 && Back() == Chain(cipher, old(Back()), data)
      ensures leftOver == |data| % 16
    {
      var register;
      register, leftOver := ChainBlocks(cipher, Back(), data);
      PutBack(register);
    }

    /** `AuthenticateData`: the pieces may be cut anywhere. */
    method AuthenticateData(data: seq<Byte>, ghost base: seq<Byte>, ghost fed: seq<Byte>)
      requires cipher.blockSize == 16 && |base| == 16 && Absorbed(base, fed)
      modifies this`m_bufferedDataLength, m_buffer
      ensures Absorbed(base, fed + data)
    {
      hide Buffered, Chain, Front, Back;
      var num := m_bufferedDataLength;
      if num != 0 && num + |data| < 16 {
        KeepBuffered(cipher, base, fed, Front(), num, Back(), data);
        PutFront(num, data);
        m_bufferedDataLength := num + |data|;
      } else if num != 0 {
        CompleteBlock(data[..16 - num], base, fed);
        AuthenticateFromBoundary(data[16 - num..], base, fed + data[..16 - num]);
        assert fed + data[..16 - num] + data[16 - num..] == fed + data;
      } else {
        AuthenticateFromBoundary(data, base, fed);
      }
    }

    /** Its middle: the bytes that complete the buffered block. */
    method CompleteBlock(data: seq<Byte>, ghost base: seq<Byte>, ghost fed: seq<Byte>)
      requires cipher.blockSize == 16 && |base| == 16 && Absorbed(base, fed)
      requires m_bufferedDataLength + |data| == 16 && data != []
      modifies this`m_bufferedDataLength, m_buffer
      ensures Absorbed(base, fed + data) && m_bufferedDataLength == 0
    {
      hide Chain, Front, Back;
      var num := m_bufferedDataLength;
      ghost var (whole, tail) := (fed[..|fed| - num], fed[|fed| - num..]);
      assert fed == whole + tail;
      ChainWhole16(cipher, base, whole, tail);
      PutFront(num, data);
      assert Front() == tail + data;
      var left := AuthenticateBlocks(Front());
      m_bufferedDataLength := 0;
      assert whole + (tail + data) == fed + data;
      ChainAppend16(cipher, base, whole, tail + data);
    }

    /** The end of `AuthenticateData`, with nothing in the buffer. */
    method AuthenticateFromBoundary(input: seq<Byte>, ghost base: seq<Byte>, ghost fed: seq<Byte>)
      requires cipher.blockSize == 16 && |base| == 16 && Absorbed(base, fed) && m_bufferedDataLength == 0
      modifies this`m_bufferedDataLength, m_buffer
      ensures Absorbed(base, fed + input)
    {
      hide Chain, Front, Back, Buffered;
      var leftOver := |input|;
      AtBoundary(cipher, base, fed, Front(), Back());
      ChainAppend16(cipher, base, fed, input);
      if |input| >= 16 {
        leftOver := AuthenticateBlocks(input);
      } else {
        ChainShort(cipher, Back(), input);
      }
      LeftOfSum(|fed|, |input|, |fed + input|, leftOver);
      PutFront(0, input[|input| - leftOver..]);
      m_bufferedDataLength := leftOver;
      FromBoundary(cipher, base, fed, input, leftOver, Front(), Back());
    }

    /** `SetKey` for a cipher already keyed. */
    method SetKey(digestSize: int) returns (outcome: Outcome)
      requires m_buffer.Length == 32
      modifies this
      ensures outcome == if cipher.blockSize == 16 && ValidDigestSize(digestSize) then Done else InvalidArgument
      ensures outcome.Done? ==> Valid() && m_state.KeySet? && m_digestSize == digestSize
      ensures !outcome.Done? ==> m_state.Start?
    {
      m_bufferedDataLength := 0;
      m_state := Start;
      if cipher.blockSize != 16 {
        return InvalidArgument;
      }
      if digestSize % 2 > 0 || digestSize < 4 || digestSize > 16 {
        return InvalidArgument;
      }
      m_digestSize := digestSize;
      m_L := 8;
      m_state := KeySet;
      return Done;
    }

    /** `Resynchronize`, with `ThrowIfInvalidIVLength` and `CCM_Base::Resync`. */
    method Resynchronize(iv: seq<Byte>) returns (outcome: Outcome)
      requires m_buffer.Length == 32 && (m_state != Start ==> Keyed())
      modifies this, m_buffer
      ensures m_digestSize == old(m_digestSize)
      ensures outcome == if old(m_state).Start? then BadState else if ValidNonce(iv) then Done else InvalidArgument
      ensures outcome.Done? ==> Valid() && m_state.IVSet? && nonce == iv && !lengthsGiven
      ensures outcome.InvalidArgument? ==> Valid() && m_state.KeySet?
      ensures outcome.BadState? ==> m_state.Start?
    {
      hide FirstBlock, CounterBlock, AwaitingLengths, TakingHeader, TakingMessage, TakingFooter, Front, Back;
      if m_state.Start? {
        return BadState;
      }
      Clear(iv);
      if |iv| < 7 || |iv| > 13 {
        return InvalidArgument;
      }
      Resync(iv);
      m_state := IVSet;
      return Done;
    }

    /** Nothing supplied yet. */
    method Clear(iv: seq<Byte>)
      modifies this`m_state, this`m_bufferedDataLength, this`m_totalHeaderLength, this`m_totalMessageLength,
               this`m_totalFooterLength, this`nonce, this`lengthsGiven, this`header, this`message, this`footer
      ensures m_state == KeySet && nonce == iv && !lengthsGiven && header == message == []
      ensures m_bufferedDataLength == m_totalHeaderLength == m_totalMessageLength == m_totalFooterLength == 0
    {
      m_bufferedDataLength := 0;
      m_totalHeaderLength, m_totalMessageLength, m_totalFooterLength := 0, 0, 0;
      m_state := KeySet;
      nonce, lengthsGiven, header, message, footer := iv, false, [], [], [];
    }

    /** `CCM_Base::Resync`: the first counter block, left at the front of the buffer. */
    method Resync(iv: seq<Byte>)
      requires Keyed() && ValidNonce(iv) && nonce == iv && header == message == []
      requires m_bufferedDataLength == m_totalHeaderLength == m_totalMessageLength == m_totalFooterLength == 0
      modifies this`m_L, this`ctrRegister, this`ctrPosition, this`m_aadLength, this`m_messageLength, m_buffer
      ensures AwaitingLengths()
    {
      m_L := 16 - 1 - |iv|;  // at most 8, so the clamp of line 34 does nothing
      PutNonce(iv);
      ctrRegister := Front();
      ctrPosition := 16;
      m_aadLength := 0;
      m_messageLength := 0;
    }

    method PutNonce(iv: seq<Byte>)
      requires m_buffer.Length == 32 && ValidNonce(iv) && m_L == LengthBytes(iv)
      modifies m_buffer
      ensures Front() == CounterBlock(iv, 0)
    {
      hide BigEndian, Front;
      PutFront(0, [ByteOf(m_L - 1)]);
      PutFront(1, iv);
      PutFront(1 + |iv|, Zeros(16 - 1 - |iv|));
      BigEndianZero(m_L);
    }

    function MaxMessageLength(): nat
      reads this`m_L
    {
      if m_L < 8 then Power256(m_L) - 1 else MAX_LWORD
    }

    /** `SpecifyDataLengths` with `CCM_Base::UncheckedSpecifyDataLengths`: B_0 is built over the
        nonce left in the buffer and enciphered, and the header length is put in the buffer. */
    method SpecifyDataLengths(headerLength: nat, messageLength: nat) returns (outcome: Outcome)
      requires Valid() && headerLength <= MAX_LWORD && messageLength <= MAX_LWORD
      requires m_state.IVSet? ==> !lengthsGiven
      modifies this, m_buffer
      ensures m_state == old(m_state) && m_digestSize == old(m_digestSize) && nonce == old(nonce)
      ensures Valid()
      ensures outcome == if messageLength > old(MaxMessageLength()) then InvalidArgument
                         else if old(m_state).IVSet? then Done else BadState
      ensures outcome.Done? ==> lengthsGiven && m_aadLength == headerLength && m_messageLength == messageLength
      ensures outcome.Done? ==> header == message == []
      ensures outcome.Done? ==> messageLength < Power256(LengthBytes(nonce))
    {
      hide Front, HeaderPrefix, Power256, TakingHeader, TakingMessage, TakingFooter;
      if messageLength > MaxMessageLength() {
        return InvalidArgument;
      }
      if m_state != IVSet {
        return BadState;
      }
      EightByteLengths();
      Format(headerLength, messageLength);
      lengthsGiven := true;
      return Done;
    }

    /** `CCM_Base::UncheckedSpecifyDataLengths`, after its check. */
    method Format(headerLength: nat, messageLength: nat)
      requires AwaitingLengths()
      modifies this`m_aadLength, this`m_messageLength, this`m_bufferedDataLength, m_buffer
      ensures TakingHeader() && m_aadLength == headerLength && m_messageLength == messageLength
    {
      hide FirstBlock, CounterBlock, Chain, Front, Back, HeaderPrefix;
      m_aadLength := headerLength;
      m_messageLength := messageLength;
      PutFirstBlock(headerLength, messageLength);
      PutHeaderPrefix(headerLength);
      ChainShort(cipher, HeaderBase(), HeaderPrefix(headerLength));
      assert HeaderPrefix(headerLength) + header == HeaderPrefix(headerLength);
    }

    /** B_0, enciphered, becomes the chaining value. */
    method PutFirstBlock(headerLength: nat, messageLength: nat)
      requires Keyed() && ValidNonce(nonce) && m_L == LengthBytes(nonce) && Front() == CounterBlock(nonce, 0)
      modifies m_buffer
      ensures Back() == cipher.ProcessBlock(FirstBlock(m_digestSize, nonce, headerLength, messageLength))
    {
      hide BigEndian, CounterBlock, FirstBlock, Overwritten;
      var L := m_L;
      ghost var was := m_buffer[..];
      CounterNonce(nonce, 0);
      assert was[1..16 - L] == Front()[1..16 - L];
      CopyInto(m_buffer, 16, [ByteOf(64 * (if headerLength > 0 then 1 else 0) + 8 * ((m_digestSize - 2) / 2) + (L - 1))]);
      CopyInto(m_buffer, 24, BigEndian(messageLength, 8));
      CopyInto(m_buffer, 16 + 1, m_buffer[..][1..16 - L]);
      FirstBlockInPlace(was, m_digestSize, nonce, headerLength, messageLength);
      PutBack(cipher.ProcessBlock(m_buffer[..][16..]));
    }

    method PutHeaderPrefix(headerLength: nat)
      requires m_buffer.Length == 32 && m_bufferedDataLength == 0
      modifies this`m_bufferedDataLength, m_buffer
      ensures Back() == old(Back())
      ensures m_bufferedDataLength == |HeaderPrefix(headerLength)| <= 10 < |Front()|
      ensures Front()[..m_bufferedDataLength] == HeaderPrefix(headerLength)
    {
      hide BigEndian;
      if headerLength > 0 {
        if headerLength < 0xFF00 {
          PutFront(0, BigEndian(headerLength, 2));
          m_bufferedDataLength := 2;
        } else if headerLength < 0x1_0000_0000 {
          m_buffer[0], m_buffer[1] := 0xff, 0xfe;
          PutFront(2, BigEndian(headerLength, 4));
          m_bufferedDataLength := 6;
        } else {
          m_buffer[0], m_buffer[1] := 0xff, 0xff;
          PutFront(2, BigEndian(headerLength, 8));
          m_bufferedDataLength := 10;
        }
      }
    }

    /** What `AuthenticateLastHeaderBlock` and `AuthenticateLastConfidentialBlock` do with an
        incomplete block: zeros complete it. */
    method CloseSection(ghost base: seq<Byte>, ghost fed: seq<Byte>)
      requires cipher.blockSize == 16 && |base| == 16 && Absorbed(base, fed)
      modifies this`m_bufferedDataLength, m_buffer
      ensures m_bufferedDataLength == 0 && Back() == Chain(cipher, base, Pad(fed))
    {
      hide Chain, Front, Back, Pad;
      var num := m_bufferedDataLength;
      ghost var (whole, tail) := (fed[..|fed| - num], fed[|fed| - num..]);
      assert fed == whole + tail;
      ChainWhole16(cipher, base, whole, tail);
      PaddedChain(cipher, base, whole, tail);
      if num > 0 {
        PutBack(cipher.ProcessBlock(XorFront(Back(), Front()[..num])));
        m_bufferedDataLength := 0;
      }
    }

    /** Between sections the buffer is empty. */
    lemma EmptySection(base: seq<Byte>)
      requires cipher.blockSize == 16 == |base| && m_buffer.Length == 32
      requires m_bufferedDataLength == 0 && Back() == base
      ensures Absorbed(base, [])
    {
      ChainShort(cipher, base, []);
    }

    method AuthenticateLastHeaderBlock() returns (outcome: Outcome)
      requires TakingHeader()
      modifies this`m_bufferedDataLength, m_buffer
      ensures outcome == if m_aadLength == |header| then Done else InvalidArgument
      ensures outcome.Done? ==> Absorbed(MessageBase(), [])
    {
      if m_aadLength != m_totalHeaderLength {
        return InvalidArgument;
      }
      CloseSection(HeaderBase(), HeaderPrefix(m_aadLength) + header);
      EmptySection(MessageBase());
      return Done;
    }

    method AuthenticateLastConfidentialBlock() returns (outcome: Outcome)
      requires TakingMessage()
      modifies this`m_bufferedDataLength, m_buffer
      ensures outcome == if m_messageLength == |message| then Done else InvalidArgument
      ensures outcome.Done? ==> m_bufferedDataLength == 0 && Back() == Chain(cipher, MessageBase(), Pad(message))
    {
      if m_messageLength != m_totalMessageLength {
        return InvalidArgument;
      }
      CloseSection(MessageBase(), message);
      return Done;
    }

    /** `Update`: header data before the message, footer data after it. */
    method Update(input: seq<Byte>) returns (outcome: Outcome)
      requires Valid() && (m_state.IVSet? ==> lengthsGiven)
      modifies this, m_buffer
      ensures unchanged(`m_digestSize, `nonce, `lengthsGiven, `message, `m_aadLength, `m_messageLength)
      ensures outcome.Done? ==> Valid()
      ensures input == [] ==> outcome.Done? && unchanged(this) && unchanged(m_buffer)
      ensures input != [] ==>
        match old(m_state)
        case Start => outcome.BadState?
        case KeySet => outcome.BadState?
        case IVSet => outcome.Done? && m_state.IVSet? && header == old(header) + input
        case AuthFooter => outcome.Done? && m_state.AuthFooter? && footer == old(footer) + input
        case _ =>
          if m_messageLength == |message| then outcome.Done? && m_state.AuthFooter? && footer == input
          else outcome.InvalidArgument?
    {
      hide HeaderBase, MessageBase, Ready, Absorbed, Pad, Chain, TakingHeader, TakingMessage, Front, Back;
      if |input| == 0 {
        return Done;
      }
      match m_state {
        case Start => return BadState;
        case KeySet => return BadState;
        case IVSet => UpdateHeader(input);
        case AuthFooter => UpdateFooter(input);
        case _ =>
          outcome := StartFooter(input);
          return;
      }
      return Done;
    }

    /** The first footer data end the message. */
    method StartFooter(input: seq<Byte>) returns (outcome: Outcome)
      requires TakingMessage() && input != []
      modifies this`m_state, this`m_bufferedDataLength, this`m_totalFooterLength, this`footer, m_buffer
      ensures outcome == if m_messageLength == |message| then Done else InvalidArgument
      ensures outcome.Done? ==> m_state.AuthFooter? && TakingFooter() && footer == input
    {
      hide Buffered, HeaderBase, MessageBase, Chain, Pad, Front, Back;
      outcome := AuthenticateLastConfidentialBlock();
      if !outcome.Done? {
        return;
      }
      m_bufferedDataLength := 0;
      m_state := AuthFooter;
      footer := [];
      EmptySection(Chain(cipher, MessageBase(), Pad(message)));
      UpdateFooter(input);
      assert [] + input == input;
    }

    method UpdateHeader(input: seq<Byte>)
      requires TakingHeader()
      modifies this`m_bufferedDataLength, this`m_totalHeaderLength, this`header, m_buffer
      ensures TakingHeader() && header == old(header) + input
    {
      hide Buffered, FirstBlock, CounterBlock, Chain, HeaderPrefix, Front, Back;
      AuthenticateData(input, HeaderBase(), HeaderPrefix(m_aadLength) + header);
      m_totalHeaderLength := m_totalHeaderLength + |input|;
      assert HeaderPrefix(m_aadLength) + header + input == HeaderPrefix(m_aadLength) + (header + input);
      header := header + input;
    }

    method UpdateFooter(input: seq<Byte>)
      requires Ready() && |footer| == m_totalFooterLength && input != []
      requires Absorbed(Chain(cipher, MessageBase(), Pad(message)), footer)
      modifies this`m_bufferedDataLength, this`m_totalFooterLength, this`footer, m_buffer
      ensures TakingFooter() && footer == old(footer) + input
    {
      hide Buffered, HeaderBase, MessageBase, CounterBlock, Chain, Pad, Front, Back;
      AuthenticateData(input, Chain(cipher, MessageBase(), Pad(message)), footer);
      m_totalFooterLength := m_totalFooterLength + |input|;
      footer := footer + input;
    }

    /** `m_ctr.ProcessData`: xor with the enciphered counter blocks. */
    method CtrProcess(input: seq<Byte>) returns (output: seq<Byte>)
      requires Keyed() && ValidNonce(nonce) && ctrRegister == CounterBlock(nonce, 0)
      requires ctrPosition + |input| < 16 + Power256(LengthBytes(nonce))
      modifies this`ctrPosition
      ensures |output| == |input|
      ensures output == Xor(input, KeyStream(cipher, nonce, old(ctrPosition), |input|))
      ensures ctrPosition == old(ctrPosition) + |input|
    {
      CtrStreamIsKeyStream(cipher, nonce, ctrPosition, |input|);
      output := Xor(input, CtrStream(cipher, ctrRegister, ctrPosition, |input|));
      ctrPosition := ctrPosition + |input|;
    }

    /** The state in which a message is taken: authentication is on the plaintext. */
    function Transforming(): State {
      if isEncryption then AuthUntransformed else AuthTransformed
    }

    /** `ProcessData`: enciphers or deciphers the next piece of the message. */
    method ProcessData(input: seq<Byte>) returns (outcome: Outcome, output: seq<Byte>)
      requires Valid() && (m_state.IVSet? ==> lengthsGiven)
      modifies this, m_buffer
      ensures unchanged(`m_digestSize, `nonce, `lengthsGiven, `header, `footer, `m_aadLength, `m_messageLength, `m_L)
      ensures |output| == |input|
      ensures
        outcome ==
        if old(m_state).Start? || old(m_state).KeySet? then BadState
        else if |old(message)| + |input| > MaxMessageLength() then InvalidArgument
        else if old(m_state).AuthFooter? then BadState
        else if old(m_state).IVSet? && |header| != m_aadLength then InvalidArgument
        else Done
      ensures outcome.Done? ==>
        && Valid() && m_state == Transforming()
        && output == Xor(input, KeyStream(cipher, nonce, 16 + |old(message)|, |input|))
        && message == old(message) + if isEncryption then input else output
    {
      hide Buffered, HeaderBase, MessageBase, CounterBlock, Power256, Chain, Pad, Front, Back, KeyStream, Xor;
      output := input;
      var total := m_totalMessageLength + |input|;  // Transform stores it when nothing fails
      if m_state.Start? || m_state.KeySet? {
        m_totalMessageLength := total;
        return BadState, output;
      }
      if total > MaxMessageLength() {
        m_totalMessageLength := total;
        return InvalidArgument, output;
      }
      if m_state.AuthFooter? {
        m_totalMessageLength := total;
        return BadState, output;
      }
      EightByteLengths();
      if m_state.IVSet? {
        outcome := AuthenticateLastHeaderBlock();
        if !outcome.Done? {
          m_totalMessageLength := total;
          return;
        }
        m_state := Transforming();
      }
      output := Transform(input);
      return Done, output;
    }

    /** The last two cases of `ProcessData`: the plaintext is what is authenticated. */
    method Transform(input: seq<Byte>) returns (output: seq<Byte>)
      requires TakingMessage() && |message| + |input| < Power256(LengthBytes(nonce))
      modifies this`m_bufferedDataLength, this`m_totalMessageLength, this`ctrPosition, this`message, m_buffer
      ensures |output| == |input|
      ensures TakingMessage()
      ensures output == Xor(input, KeyStream(cipher, nonce, 16 + |old(message)|, |input|))
      ensures message == old(message) + if isEncryption then input else output
    {
      hide Buffered, HeaderBase, MessageBase, CounterBlock, Power256, Chain, Pad, Front, Back, KeyStream, Xor;
      ghost var base := MessageBase();
      if isEncryption {
        AuthenticateData(input, base, message);
        output := CtrProcess(input);
        message := message + input;
      } else {
        output := CtrProcess(input);
        AuthenticateData(output, base, message);
        message := message + output;
      }
      m_totalMessageLength := m_totalMessageLength + |input|;
    }

    /** Everything the caller promised has been supplied, and nothing after the message. */
    ghost predicate Complete()
      reads this
    {
      !m_state.Start? && !m_state.KeySet? && !m_state.AuthFooter? && |header| == m_aadLength && |message| == m_messageLength
    }

    /** `TruncatedFinal` with `AuthenticateLastFooterBlock`. */
    method TruncatedFinal(macSize: nat) returns (outcome: Outcome, mac: seq<Byte>)
      requires Valid() && (m_state.IVSet? ==> lengthsGiven) && macSize <= m_digestSize
      modifies this, m_buffer
      ensures unchanged(`m_digestSize, `nonce, `header, `message)
      ensures outcome.Done? <==> old(Complete()) && |header| <= MAX_LWORD
      ensures outcome.Done? ==>
        && Valid() && m_state.KeySet?
        && mac == Tag(cipher, m_digestSize, nonce, header, message, macSize)
    {
      hide Buffered, HeaderBase, MessageBase, CounterBlock, Power256, Chain, Pad, Front, Back, HeaderPrefix;
      hide Tag, Xor, KeyStream, AuthenticationValue;
      mac := [];
      if m_totalHeaderLength > MAX_LWORD || m_totalFooterLength > 0 {
        return InvalidArgument, mac;
      }
      if m_state.Start? || m_state.KeySet? {
        return BadState, mac;
      }
      if m_state.IVSet? {
        outcome := AuthenticateLastHeaderBlock();
        if !outcome.Done? {
          return;
        }
      }
      outcome := AuthenticateLastConfidentialBlock();
      if !outcome.Done? {
        return;
      }
      mac := LastFooterBlock(macSize);
      m_state := KeySet;
    }

    /** `AuthenticateLastFooterBlock`: the chaining value masked with S_0. */
    method LastFooterBlock(macSize: nat) returns (mac: seq<Byte>)
      requires Ready() && |header| == m_aadLength && |message| == m_messageLength && macSize <= m_digestSize
      requires Back() == Chain(cipher, MessageBase(), Pad(message))
      modifies this`ctrPosition
      ensures mac == Tag(cipher, m_digestSize, nonce, header, message, macSize)
    {
      hide CounterBlock, Power256, Chain, Pad, HeaderPrefix, FirstBlock, Xor, KeyStream, AuthenticationValue;
      AuthenticationInStages(cipher, m_digestSize, nonce, header, message);
      assert Power256(LengthBytes(nonce)) > 0;
      ctrPosition := 0;
      mac := CtrProcess(Back()[..macSize]);
    }

    /** `TruncatedVerify` (cryptlib.cpp). */
    method TruncatedVerify(digest: seq<Byte>) returns (outcome: Outcome, valid: bool)
      requires Valid() && (m_state.IVSet? ==> lengthsGiven) && ValidDigestSize(m_digestSize)
      modifies this, m_buffer
      ensures unchanged(`m_digestSize, `nonce, `header, `message)
      ensures outcome.Done? <==> |digest| <= m_digestSize && old(Complete()) && |header| <= MAX_LWORD
      ensures outcome.Done? ==>
        && Valid() && m_state.KeySet?
        && valid == (digest == Tag(cipher, m_digestSize, nonce, header, message, |digest|))
    {
      hide Complete, Valid, Tag;
      valid := false;
      if |digest| > m_digestSize {
        return InvalidArgument, valid;
      }
      var mac;
      outcome, mac := TruncatedFinal(|digest|);
      if outcome.Done? {
        valid := mac == digest;
      }
    }

    /** The header, cut into calls of `Update`. */
    method UpdatePieces(pieces: seq<seq<Byte>>)
      requires Valid() && m_state.IVSet? && lengthsGiven
      modifies this, m_buffer
      ensures unchanged(`m_state, `m_digestSize, `nonce, `lengthsGiven, `message, `m_aadLength, `m_messageLength)
      ensures Valid() && header == old(header) + Join(pieces)
    {
      hide Valid, Join;
      JoinEnds(pieces);
      for i := 0 to |pieces|
        invariant unchanged(`m_state, `m_digestSize, `nonce, `lengthsGiven, `message, `m_aadLength, `m_messageLength)
        invariant Valid() && header == old(header) + Join(pieces[..i])
      {
        JoinNext(pieces, i);
        var outcome := Update(pieces[i]);
      }
    }

    lemma ValidIsReady()
      requires Valid() && !m_state.Start? && !m_state.KeySet?
      ensures Ready()
    {
    }

    /** The message, cut into calls of `ProcessData`. */
    method ProcessPieces(pieces: seq<seq<Byte>>) returns (output: seq<Byte>)
      requires Valid() && (m_state.IVSet? || m_state == Transforming()) && lengthsGiven && |header| == m_aadLength
      requires |message| + |Join(pieces)| <= MaxMessageLength()
      modifies this, m_buffer
      ensures unchanged(`m_digestSize, `nonce, `lengthsGiven, `header, `m_aadLength, `m_messageLength)
      ensures Valid() && (m_state.IVSet? || m_state == Transforming())
      ensures |output| == |Join(pieces)|
      ensures output == Xor(Join(pieces), KeyStream(cipher, nonce, 16 + |old(message)|, |output|))
      ensures message == old(message) + if isEncryption then Join(pieces) else output
    {
      hide Valid, Join, Xor, KeyStream;
      JoinEnds(pieces);
      output := [];
      ValidIsReady();
      XorNothing(KeyStream(cipher, nonce, 16 + |message|, 0));
      for i := 0 to |pieces|
        invariant unchanged(`m_digestSize, `nonce, `lengthsGiven, `header, `m_aadLength, `m_messageLength, `m_L)
        invariant Valid() && (m_state.IVSet? || m_state == Transforming())
        invariant |output| == |Join(pieces[..i])|
        invariant output == Xor(Join(pieces[..i]), KeyStream(cipher, nonce, 16 + |old(message)|, |output|))
        invariant message == old(message) + if isEncryption then Join(pieces[..i]) else output
      {
        JoinNext(pieces, i);
        JoinPrefix(pieces, i + 1);
        var outcome, more := ProcessData(pieces[i]);
        XorKeyStreamAppend(cipher, nonce, 16 + |old(message)|, Join(pieces[..i]), pieces[i]);
        output := output + more;
      }
    }

    /** The call sequence that `EncryptAndAuthenticate` and `DecryptAndVerify` share. */
    method Feed(iv: seq<Byte>, headers: seq<seq<Byte>>, texts: seq<seq<Byte>>) returns (outcome: Outcome, output: seq<Byte>)
      requires Keyed() && !m_state.Start? && |Join(headers)| <= MAX_LWORD && |Join(texts)| <= MAX_LWORD
      modifies this, m_buffer
      ensures m_digestSize == old(m_digestSize)
      ensures outcome == if ValidNonce(iv) && |Join(texts)| < Power256(LengthBytes(iv)) then Done else InvalidArgument
      ensures outcome.Done? ==>
        && Valid() && Complete() && nonce == iv && lengthsGiven
        && header == Join(headers)
        && output == Crypt(cipher, iv, Join(texts))
        && message == if isEncryption then Join(texts) else output
    {
      hide Join, Xor, KeyStream, Power256, CounterBlock, TakingHeader, TakingMessage, TakingFooter;
      EightByteLengths();
      output := [];
      outcome := Resynchronize(iv);
      if !outcome.Done? {
        return;
      }
      outcome := SpecifyDataLengths(|Join(headers)|, |Join(texts)|);
      if !outcome.Done? {
        return;
      }
      UpdatePieces(headers);
      ValidIsReady();
      output := ProcessPieces(texts);
    }

    /** `EncryptAndAuthenticate`, with header and message cut into calls anywhere. */
    method EncryptAndAuthenticate(macSize: nat, iv: seq<Byte>, headers: seq<seq<Byte>>, messages: seq<seq<Byte>>)
        returns (outcome: Outcome, ciphertext: seq<Byte>, mac: seq<Byte>)
      requires Keyed() && !m_state.Start? && isEncryption && macSize <= m_digestSize
      requires |Join(headers)| <= MAX_LWORD && |Join(messages)| <= MAX_LWORD
      modifies this, m_buffer
      ensures m_digestSize == old(m_digestSize)
      ensures outcome == if ValidNonce(iv) && |Join(messages)| < Power256(LengthBytes(iv)) then Done else InvalidArgument
      ensures outcome.Done? ==>
        && Valid() && m_state.KeySet?
        && ciphertext == Crypt(cipher, iv, Join(messages))
        && mac == Tag(cipher, m_digestSize, iv, Join(headers), Join(messages), macSize)
    {
      hide Valid, Join, Crypt, Tag, Power256;
      mac := [];
      outcome, ciphertext := Feed(iv, headers, messages);
      if outcome.Done? {
        outcome, mac := TruncatedFinal(macSize);
      }
    }

    /** `DecryptAndVerify`, with header and ciphertext cut into calls anywhere. */
    method DecryptAndVerify(mac: seq<Byte>, iv: seq<Byte>, headers: seq<seq<Byte>>, ciphertexts: seq<seq<Byte>>)
        returns (outcome: Outcome, message: seq<Byte>, valid: bool)
      requires Keyed() && !m_state.Start? && !isEncryption
      requires |Join(headers)| <= MAX_LWORD && |Join(ciphertexts)| <= MAX_LWORD
      modifies this, m_buffer
      ensures m_digestSize == old(m_digestSize)
      ensures outcome.Done? <==> ValidNonce(iv) && |Join(ciphertexts)| < Power256(LengthBytes(iv)) && |mac| <= m_digestSize
      ensures outcome.Done? ==>
        && Valid() && m_state.KeySet?
        && message == Crypt(cipher, iv, Join(ciphertexts))
        && valid == (mac == Tag(cipher, m_digestSize, iv, Join(headers), message, |mac|))
    {
      hide Valid, Join, Crypt, Tag, Power256;
      valid := false;
      outcome, message := Feed(iv, headers, ciphertexts);
      if outcome.Done? {
        outcome, valid := TruncatedVerify(mac);
      }
    }
  }

  /** The three overlapping writes leave B_0 in the second half of the buffer. */
  lemma FirstBlockInPlace(was: seq<Byte>, m: nat, nonce: seq<Byte>, headerLength: nat, messageLength: nat)
    requires ValidNonce(nonce) && ValidDigestSize(m) && |was| == 32 && was[1..1 + |nonce|] == nonce
    ensures
      var flag := ByteOf(64 * (if headerLength > 0 then 1 else 0) + 8 * ((m - 2) / 2) + (LengthBytes(nonce) - 1));
      var b := Overwritten(Overwritten(was, 16, [flag]), 24, BigEndian(messageLength, 8));
      Overwritten(b, 16 + 1, b[1..1 + |nonce|])[16..] == FirstBlock(m, nonce, headerLength, messageLength)
  {
    var flag := ByteOf(64 * (if headerLength > 0 then 1 else 0) + 8 * ((m - 2) / 2) + (LengthBytes(nonce) - 1));
    var L := LengthBytes(nonce);
    var b := Overwritten(Overwritten(was, 16, [flag]), 24, BigEndian(messageLength, 8));
    BigEndianTail(messageLength, 8, L);
    WrittenTwice(was, flag, BigEndian(messageLength, 8), L);
    assert b[1..1 + |nonce|] == nonce;
    assert Overwritten(b, 16 + 1, nonce)[16..] == [flag] + nonce + b[32 - L..];
  }

  lemma WrittenTwice(was: seq<Byte>, flag: Byte, length: seq<Byte>, L: nat)
    requires |was| == 32 && |length| == 8 && 2 <= L <= 8
    ensures
      var b := Overwritten(Overwritten(was, 16, [flag]), 24, length);
      b[..16] == was[..16] && b[16] == flag && b[32 - L..] == length[8 - L..]
  {
  }

  /** The calls that the object `m_ctr` gets in one message, which `CtrProcess` takes together: it
      starts with A_0, is sought past it for the message in pieces, and back for the tag. */
  method CtrCalls(cipher: BlockCipher, iterationsToBuffer: nat, nonce: seq<Byte>, messages: seq<seq<Byte>>, mac: seq<Byte>)
      returns (ciphertext: seq<Byte>, tag: seq<Byte>)
    requires cipher.blockSize == 16 && iterationsToBuffer > 0 && ValidNonce(nonce)
    requires |Join(messages)| < Power256(LengthBytes(nonce)) && |mac| <= 16
    ensures ciphertext == Crypt(cipher, nonce, Join(messages))
    ensures tag == Xor(mac, KeyStream(cipher, nonce, 0, |mac|))
  {
    hide Join, KeyStream, CtrStream, CounterBlock, Power256, AddToCounter, Xor;
    CtrStreamIsKeyStream(cipher, nonce, 16, |Join(messages)|);
    CtrStreamIsKeyStream(cipher, nonce, 0, |mac|);
    var m_ctr := new CtrMode(cipher, CounterBlock(nonce, 0), iterationsToBuffer);
    m_ctr.Seek(16);
    ciphertext := ProcessPieces(m_ctr, messages);
    m_ctr.Seek(0);
    tag := m_ctr.ProcessData(mac);
  }

  /** Decryption undoes encryption, and the tag verifies, for every block cipher, nonce, header
      and message, however the two sides cut the header, the message and the ciphertext. */
  method RoundTrip(cipher: BlockCipher, digestSize: nat, macSize: nat, iv: seq<Byte>,
                   headers: seq<seq<Byte>>, messages: seq<seq<Byte>>, headers': seq<seq<Byte>>, cuts: seq<nat>)
      returns (recovered: seq<Byte>, valid: bool)
    requires cipher.blockSize == 16 && ValidDigestSize(digestSize) && macSize <= digestSize && ValidNonce(iv)
    requires Join(headers') == Join(headers) && |Join(headers)| <= MAX_LWORD
    requires |Join(messages)| < Power256(LengthBytes(iv))
    ensures recovered == Join(messages) && valid
  {
    hide Join, Crypt, Tag, Power256, Cut;
    LongestMessage(iv);
    var sender := new Ccm(cipher, true);
    var receiver := new Ccm(cipher, false);
    var outcome := sender.SetKey(digestSize);
    outcome := receiver.SetKey(digestSize);
    var ciphertext, mac;
    outcome, ciphertext, mac := sender.EncryptAndAuthenticate(macSize, iv, headers, messages);
    outcome, recovered, valid := receiver.DecryptAndVerify(mac, iv, headers', Cut(ciphertext, cuts));
    CryptTwice(cipher, iv, Join(messages));
  }

  lemma LongestMessage(nonce: seq<Byte>)
    requires ValidNonce(nonce)
    ensures Power256(LengthBytes(nonce)) <= MAX_LWORD + 1
  {
    EightByteLengths();
    Power256Mono(LengthBytes(nonce), 8);
  }
}
