/** BLAKE2b and BLAKE2s (blake2.cpp): how a message that arrives in pieces is handed to the
    compression function, which stays abstract. The specification is section 3.3 of RFC 7693. */
module Blake2 {
  import opened Arithmetic
  import opened Numbers
  import opened Bytes
  import opened HeldBack

  /** The parameters of one of the two functions. `compress` takes the chaining value, a block,
      the two counter words and the two finalization words; a result of another size than
      the chaining value's is ignored. */
  datatype Function = Function(
    blockSize: nat,
    wordModulus: nat,
    iv: seq<Byte>,
    compress: (seq<Byte>, seq<Byte>, nat, nat, nat, nat) -> seq<Byte>)
  {
    predicate Valid() {
      (|iv| == 32 || |iv| == 64) && blockSize == 2 * |iv| < wordModulus
    }

    function Compress(h: seq<Byte>, block: seq<Byte>, t0: nat, t1: nat, f0: nat, f1: nat): (r: seq<Byte>)
      requires |h| == |iv| && |block| == blockSize
      ensures |r| == |iv|
    {
      var r := compress(h, block, t0, t1, f0, f1);
      if |r| == |iv| then r else h
    }

    /** The function F of section 3.2: t is the number of bytes so far, in two words. */
    function F(h: seq<Byte>, block: seq<Byte>, t: nat, last: bool, lastNode: bool): (r: seq<Byte>)
      requires Valid() && |h| == |iv| && |block| == blockSize
      ensures |r| == |iv|
    {
      Compress(h, block, t % wordModulus, t / wordModulus % wordModulus,
               if last then wordModulus - 1 else 0, if lastNode then wordModulus - 1 else 0)
    }

    /** The chaining value after the whole blocks of `data`, none of them the last. */
    function Absorb(h: seq<Byte>, t: nat, data: seq<Byte>): (r: seq<Byte>)
      requires Valid() && |h| == |iv|
      ensures |r| == |iv|
      decreases |data|
    {
      if |data| < blockSize then h
      else Absorb(F(h, data[..blockSize], t + blockSize, false, false), t + blockSize, data[blockSize..])
    }

    /** The last block, filled up with zeros. */
    function Padded(tail: seq<Byte>): (b: seq<Byte>)
      requires |tail| <= blockSize
      ensures |b| == blockSize
    {
      tail + Zeros(blockSize - |tail|)
    }

    /** Section 3.3: the hash of a whole stream, from chaining value h and byte count t. */
    function Hash(h: seq<Byte>, t: nat, stream: seq<Byte>, lastNode: bool): (r: seq<Byte>)
      requires Valid() && |h| == |iv|
      ensures |r| == |iv|
    {
      var k := |stream| - LastLength(blockSize, |stream|);
      F(Absorb(h, t, stream[..k]), Padded(stream[k..]), t + |stream|, true, lastNode)
    }

    /** Section 3.3: a key is one block, filled up with zeros, before the message. */
    function KeyBlock(key: seq<Byte>): (b: seq<Byte>)
      requires |key| <= blockSize
    {
      if key == [] then [] else Padded(key)
    }
  }

  lemma {:induction false} AbsorbAppend(b: Function, h: seq<Byte>, t: nat, x: seq<Byte>, y: seq<Byte>, k: nat)
    requires b.Valid() && |h| == |b.iv| && |x| == k * b.blockSize
    ensures b.Absorb(h, t, x + y) == b.Absorb(b.Absorb(h, t, x), t + |x|, y)
    decreases k
  {
    var n := b.blockSize;
    if k == 0 {
      assert x + y == y;
    } else {
      OneLess(k, n);
      assert (x + y)[..n] == x[..n] && (x + y)[n..] == x[n..] + y;
      AbsorbAppend(b, b.F(h, x[..n], t + n, false, false), t + n, x[n..], y, k - 1);
    }
  }

  lemma AbsorbOne(b: Function, h: seq<Byte>, t: nat, x: seq<Byte>)
    requires b.Valid() && |h| == |b.iv| && |x| == b.blockSize
    ensures b.Absorb(h, t, x) == b.F(h, x, t + |x|, false, false)
  {
    assert x[..b.blockSize] == x;
  }

  /** The two counter words hold n. */
  ghost predicate Counts(b: Function, n: nat, t0: nat, t1: nat)
    requires b.Valid()
  {
    t0 == n % b.wordModulus && t1 == n / b.wordModulus % b.wordModulus
  }

  lemma CompressIsF(b: Function, h: seq<Byte>, block: seq<Byte>, n: nat, t0: nat, t1: nat, last: bool, lastNode: bool)
    requires b.Valid() && |h| == |b.iv| && |block| == b.blockSize && Counts(b, n, t0, t1)
    ensures b.F(h, block, n, last, lastNode)
      == b.Compress(h, block, t0, t1, if last then b.wordModulus - 1 else 0, if lastNode then b.wordModulus - 1 else 0)
  {
  }

  /** The carry between the two counter words: `IncrementCounter` counts modulo the square of
      the word modulus. */
  lemma CounterCarry(w: nat, n: nat, t0: nat, t1: nat, count: nat)
    requires count < w && t0 == n % w && t1 == n / w % w
    ensures (t0 + count) % w == (n + count) % w
    ensures (t1 + if (t0 + count) % w < count then 1 else 0) % w == (n + count) / w % w
  {
    var q := n / w;
    Fundamental(n, w);
    if t0 + count < w {
      DivModUnique(n + count, w, q, t0 + count);
      DivModUnique(t0 + count, w, 0, t0 + count);
      RemainderTwice(q, w);
    } else {
      assert w * (q + 1) == w * q + w;
      DivModUnique(n + count, w, q + 1, t0 + count - w);
      DivModUnique(t0 + count, w, 1, t0 + count - w);
      RemainderPlusOne(q, w);
    }
  }

  lemma RemainderTwice(q: nat, w: nat)
    requires w > 0
    ensures q % w % w == q % w
  {
    Fundamental(q, w);
    DivModUnique(q % w, w, 0, q % w);
  }

  lemma RemainderPlusOne(q: nat, w: nat)
    requires w > 0
    ensures (q % w + 1) % w == (q + 1) % w
  {
    var r := q % w;
    Fundamental(q, w);
    if r + 1 < w {
      DivModUnique(q + 1, w, q / w, r + 1);
      DivModUnique(r + 1, w, 0, r + 1);
    } else {
      assert w * (q / w + 1) == w * (q / w) + w;
      DivModUnique(q + 1, w, q / w + 1, 0);
      DivModUnique(r + 1, w, 1, 0);
    }
  }

  /** The parameter block of section 2.5, with the salt and personalization of the source. */
  function Parameters(b: Function, digestLength: nat, keyLength: nat, salt: seq<Byte>, personalization: seq<Byte>): (p: seq<Byte>)
    requires b.Valid() && |salt| <= |b.iv| / 4 && |personalization| <= |b.iv| / 4
    ensures |p| == |b.iv|
  {
    var part := |b.iv| / 4;
    [ByteOf(digestLength), ByteOf(keyLength), 1, 1] + Zeros(2 * part - 4)
    + salt + Zeros(part - |salt|) + personalization + Zeros(part - |personalization|)
  }

  function TwoWords(w: nat, low: nat, high: nat): nat {
    low + w * high
  }

  lemma TwoWordsSplit(w: nat, low: nat, high: nat)
    requires low < w && high < w
    ensures TwoWords(w, low, high) % w == low && TwoWords(w, low, high) / w % w == high
  {
    DivModUnique(low + w * high, w, high, low);
    DivModUnique(high, w, 0, high);
  }

  lemma TwoWordsCount(b: Function, low: nat, high: nat)
    requires b.Valid() && low < b.wordModulus && high < b.wordModulus
    ensures Counts(b, TwoWords(b.wordModulus, low, high), low, high)
  {
    TwoWordsSplit(b.wordModulus, low, high);
  }

  /** h is what absorbing `whole` leaves. */
  ghost predicate Holds(b: Function, first: seq<Byte>, start: nat, h: seq<Byte>, whole: seq<Byte>, blocks: nat)
    requires b.Valid() && |first| == |b.iv|
  {
    |whole| == blocks * b.blockSize && h == b.Absorb(first, start, whole)
  }

  lemma HoldsNothing(b: Function, first: seq<Byte>, start: nat)
    requires b.Valid() && |first| == |b.iv|
    ensures Holds(b, first, start, first, [], 0)
  {
  }

  lemma HoldsBlock(b: Function, first: seq<Byte>, start: nat, h: seq<Byte>, whole: seq<Byte>, blocks: nat, block: seq<Byte>)
    requires b.Valid() && |first| == |b.iv| && Holds(b, first, start, h, whole, blocks) && |block| == b.blockSize
    ensures |h| == |b.iv|
    ensures Holds(b, first, start, b.F(h, block, start + |whole| + b.blockSize, false, false), whole + block, blocks + 1)
  {
    OneLess(blocks + 1, b.blockSize);
    AbsorbAppend(b, first, start, whole, block, blocks);
    AbsorbOne(b, h, start + |whole|, block);
  }

  lemma HoldsHash(b: Function, first: seq<Byte>, start: nat, h: seq<Byte>, whole: seq<Byte>, tail: seq<Byte>,
                  blocks: nat, lastNode: bool)
    requires b.Valid() && |first| == |b.iv| && Holds(b, first, start, h, whole, blocks)
    requires |tail| <= b.blockSize && (tail == [] ==> whole == [])
    ensures |h| == |b.iv|
    ensures b.Hash(first, start, whole + tail, lastNode) == b.F(h, b.Padded(tail), start + |whole| + |tail|, true, lastNode)
  {
    if whole != [] { LastLengthIs(b.blockSize, blocks, |tail|); } else { LastLengthIs(b.blockSize, 0, |tail|); }
    assert (whole + tail)[..|whole|] == whole && (whole + tail)[|whole|..] == tail;
  }

  class Blake2Base {
    const f: Function
    var h: seq<Byte>
    var t0: nat
    var t1: nat
    var f0: nat
    var f1: nat
    const buffer: array<Byte>
    var length: nat
    var m_block: seq<Byte>
    var m_key: seq<Byte>
    var m_digestSize: nat
    var m_treeMode: bool

    // What the state stands for: the chaining value and byte count of the last Restart, and
    // the stream since, key block included.
    ghost var first: seq<Byte>
    ghost var start: nat
    ghost var whole: seq<Byte>
    ghost var tail: seq<Byte>
    ghost var blocks: nat

    ghost predicate Keyed()
      reads this`m_block, this`m_key, this`m_digestSize
    {
      && f.Valid() && buffer.Length == f.blockSize
      && |m_block| == |f.iv| && |m_key| <= f.blockSize && m_digestSize <= |f.iv|
    }

    ghost predicate Holding()
      reads this, buffer
    {
      && Keyed() && |first| == |f.iv| && f0 == f1 == 0
      && Counts(f, start + |whole|, t0, t1)
      && length == |tail| <= f.blockSize && buffer[..length] == tail
      && Holds(f, first, start, h, whole, blocks)
    }

    ghost predicate Valid()
      reads this, buffer
    {
      Holding() && (tail == [] ==> whole == [])
    }

    ghost function Stream(): seq<Byte>
      reads this`whole, this`tail
    {
      whole + tail
    }

    /** The constructor for hashing. It does not pass the digest size on to the parameter block,
        whose digest length stays the default. */
    constructor Hash(f: Function, treeMode: bool, digestSize: nat)
      requires f.Valid() && digestSize <= |f.iv|
      ensures Valid() && fresh(buffer) && this.f == f
      ensures m_key == [] && m_digestSize == digestSize && m_treeMode == treeMode
      ensures m_block == Parameters(f, |f.iv|, 0, [], [])
      ensures first == Xor(f.iv, m_block) && start == 0 && Stream() == []
    {
      this.f := f;
      h, t0, t1, f0, f1, length := f.iv, 0, 0, 0, 0, 0;
      buffer := new Byte[f.blockSize];
      m_block, m_key, m_digestSize, m_treeMode := f.iv, [], digestSize, treeMode;
      first, start, whole, tail, blocks := [], 0, [], [], 0;
      new;
      UncheckedSetKey([], |f.iv|, [], []);
      Restart();
    }

    /** The constructor that takes a key, which may be empty. */
    constructor WithKey(f: Function, key: seq<Byte>, salt: seq<Byte>, personalization: seq<Byte>, treeMode: bool, digestSize: nat)
      requires f.Valid() && |key| <= |f.iv| && digestSize <= |f.iv|
      requires |salt| <= |f.iv| / 4 && |personalization| <= |f.iv| / 4
      ensures Valid() && fresh(buffer) && this.f == f
      ensures m_key == f.KeyBlock(key) && m_digestSize == digestSize && m_treeMode == treeMode
      ensures m_block == Parameters(f, digestSize, |key|, salt, personalization)
      ensures first == Xor(f.iv, m_block) && start == 0 && Stream() == m_key
    {
      this.f := f;
      h, t0, t1, f0, f1, length := f.iv, 0, 0, 0, 0, 0;
      buffer := new Byte[f.blockSize];
      m_block, m_key, m_digestSize, m_treeMode := f.iv, [], digestSize, treeMode;
      first, start, whole, tail, blocks := [], 0, [], [], 0;
      new;
      UncheckedSetKey(key, digestSize, salt, personalization);
      Restart();
    }

    /** The counter is two words; its carry is a comparison. */
    method IncrementCounter(count: nat, ghost n: nat)
      requires f.Valid() && Counts(f, n, t0, t1) && count < f.wordModulus
      modifies this`t0, this`t1
      ensures Counts(f, n + count, t0, t1)
    {
      CounterCarry(f.wordModulus, n, t0, t1, count);
      t0 := (t0 + count) % f.wordModulus;
      t1 := (t1 + if t0 < count then 1 else 0) % f.wordModulus;
    }

    /** One block that is not the last. */
    method CompressBlock(block: seq<Byte>)
      requires Holding() && tail == [] && |block| == f.blockSize
      modifies this`t0, this`t1, this`h, this`whole, this`blocks
      ensures Holding() && whole == old(whole) + block
    {
      hide Holds, Counts;
      HoldsBlock(f, first, start, h, whole, blocks, block);
      IncrementCounter(f.blockSize, start + |whole|);
      CompressIsF(f, h, block, start + |whole| + f.blockSize, t0, t1, false, false);
      h := f.Compress(h, block, t0, t1, f0, f1);
      whole, blocks := whole + block, blocks + 1;
    }

    /** `memcpy` behind what is buffered. */
    method Buffer(data: seq<Byte>)
      requires Holding() && length + |data| <= f.blockSize
      modifies this`length, this`tail, buffer
      ensures Holding() && tail == old(tail) + data
    {
      hide Holds, Counts;
      forall i | length <= i < length + |data| {
        buffer[i] := data[i - length];
      }
      length := length + |data|;
      tail := tail + data;
    }

    /** `Update`: a full buffer is not compressed until more of the message follows. */
    method Update(input: seq<Byte>)
      requires Valid()
      modifies this, buffer
      ensures unchanged(`m_block, `m_key, `m_digestSize, `m_treeMode, `first, `start)
      ensures Valid() && Stream() == old(Stream()) + input
    {
      hide Holds, Counts;
      var rest := input;
      if length + |rest| > f.blockSize {
        var fill := f.blockSize - length;
        assert Stream() + input == Stream() + input[..fill] + input[fill..];
        CompleteBlock(input[..fill]);
        rest := CompressWhole(input[fill..]);
        assert Stream() == whole;
      }
      assert Stream() + rest == old(Stream()) + input;
      Buffer(rest);
    }

    /** The loop that compresses in place. */
    method CompressWhole(input: seq<Byte>) returns (rest: seq<Byte>)
      requires Holding() && tail == [] && input != []
      modifies this`t0, this`t1, this`h, this`whole, this`blocks
      ensures Holding() && rest != [] && |rest| <= f.blockSize && whole + rest == old(whole) + input
    {
      hide Holds, Counts;
      rest := input;
      while |rest| > f.blockSize
        invariant Holding() && rest != [] && whole + rest == old(whole) + input
        decreases |rest|
      {
        CompressBlock(rest[..f.blockSize]);
        rest := rest[f.blockSize..];
      }
    }

    method CompleteBlock(data: seq<Byte>)
      requires Holding() && length + |data| == f.blockSize
      modifies this`length, this`tail, this`t0, this`t1, this`h, this`whole, this`blocks, buffer
      ensures Holding() && tail == [] && whole == old(Stream()) + data
    {
      hide Holds, Counts;
      Buffer(data);
      var block := buffer[..];
      length, tail := 0, [];
      CompressBlock(block);
    }

    /** `Restart()`, from the object's own parameter block. */
    method Restart()
      requires Keyed() && (m_key == [] || |m_key| == f.blockSize)
      modifies this, buffer
      ensures unchanged(`m_block, `m_key, `m_digestSize, `m_treeMode)
      ensures Valid() && first == Xor(f.iv, m_block) && start == 0 && Stream() == m_key
    {
      hide Holds, Xor, Counts;
      RestartFrom(0, 0);
    }

    /** `Restart(block, counter)` for a block of the caller's: its length fields are replaced, the
        key length by that of the key already filled up to a block. */
    method RestartWith(block: seq<Byte>, counter0: nat, counter1: nat)
      requires Keyed() && (m_key == [] || |m_key| == f.blockSize)
      requires |block| == |f.iv| && counter0 < f.wordModulus && counter1 < f.wordModulus
      modifies this, buffer
      ensures unchanged(`m_key, `m_digestSize, `m_treeMode)
      ensures m_block == [ByteOf(m_digestSize), ByteOf(|m_key|)] + block[2..]
      ensures Valid() && first == Xor(f.iv, m_block) && start == TwoWords(f.wordModulus, counter0, counter1) && Stream() == m_key
    {
      hide Holds, Xor, Counts, TwoWords;
      m_block := [ByteOf(m_digestSize), ByteOf(|m_key|)] + block[2..];
      RestartFrom(counter0, counter1);
    }

    /** What both have in common. A key is hashed before anything else. */
    method RestartFrom(counter0: nat, counter1: nat)
      requires Keyed() && (m_key == [] || |m_key| == f.blockSize)
      requires counter0 < f.wordModulus && counter1 < f.wordModulus
      modifies this, buffer
      ensures unchanged(`m_block, `m_key, `m_digestSize, `m_treeMode)
      ensures Valid() && first == Xor(f.iv, m_block) && start == TwoWords(f.wordModulus, counter0, counter1) && Stream() == m_key
    {
      hide Holds, Xor, Counts, TwoWords;
      Reset(counter0, counter1);
      if |m_key| != 0 {
        Update(m_key);
      }
    }

    method Reset(counter0: nat, counter1: nat)
      requires Keyed() && counter0 < f.wordModulus && counter1 < f.wordModulus
      modifies this`t0, this`t1, this`f0, this`f1, this`length, this`h, this`first, this`start, this`whole, this`tail, this`blocks
      ensures Valid() && first == Xor(f.iv, m_block) && start == TwoWords(f.wordModulus, counter0, counter1) && Stream() == []
    {
      hide Holds, Xor, Counts, TwoWords, Function.Hash, Function.F, Function.Padded, Function.Absorb;
      TwoWordsCount(f, counter0, counter1);
      HoldsNothing(f, Xor(f.iv, m_block), TwoWords(f.wordModulus, counter0, counter1));
      SetState(counter0, counter1, Xor(f.iv, m_block));
      first, start, whole, tail, blocks := h, TwoWords(f.wordModulus, counter0, counter1), [], [], 0;
      assert buffer[..length] == tail && start + |whole| == start;
    }

    method SetState(counter0: nat, counter1: nat, value: seq<Byte>)
      modifies this`t0, this`t1, this`f0, this`f1, this`length, this`h
      ensures t0 == counter0 && t1 == counter1 && f0 == f1 == length == 0 && h == value
    {
      t0, t1, f0, f1, length := counter0, counter1, 0, 0, 0;
      h := value;
    }

    /** The last block, filled up, with the finalization words set. */
    method CompressLast()
      requires Valid()
      modifies this`f0, this`f1, this`t0, this`t1, this`h, buffer
      ensures Keyed() && |h| == |f.iv| == |first| && h == f.Hash(first, start, Stream(), m_treeMode)
    {
      hide Holds, Counts, Function.Hash, Function.F, Function.Padded, Function.Absorb;
      HoldsHash(f, first, start, h, whole, tail, blocks, m_treeMode);
      f0 := f.wordModulus - 1;
      if m_treeMode {
        f1 := f.wordModulus - 1;
      }
      IncrementCounter(length, start + |whole|);
      FillUp();
      CompressIsF(f, h, buffer[..], start + |whole| + length, t0, t1, true, m_treeMode);
      h := f.Compress(h, buffer[..], t0, t1, f0, f1);
    }

    /** Zeros behind what is buffered. */
    method FillUp()
      requires buffer.Length == f.blockSize && length == |tail| <= f.blockSize && buffer[..length] == tail
      modifies buffer
      ensures buffer[..] == f.Padded(tail)
    {
      forall i | length <= i < f.blockSize {
        buffer[i] := 0;
      }
    }

    /** `TruncatedFinal`. Fails if more is asked for than there is. */
    method TruncatedFinal(size: nat) returns (ok: bool, hash: seq<Byte>)
      requires Valid() && (m_key == [] || |m_key| == f.blockSize)
      modifies this, buffer
      ensures unchanged(`m_block, `m_key, `m_digestSize, `m_treeMode)
      ensures ok == (size <= m_digestSize)
      ensures ok ==> hash == f.Hash(old(first), old(start), old(Stream()), m_treeMode)[..size]
      ensures ok ==> Valid() && first == Xor(f.iv, m_block) && start == 0 && Stream() == m_key
      ensures !ok ==> unchanged(this) && unchanged(buffer)
    {
      hide Holds, Xor, Counts;
      if size > m_digestSize {
        return false, [];
      }
      CompressLast();
      hash := h[..size];
      Restart();
      return true, hash;
    }

    /** `UncheckedSetKey`: the key is filled up to a block. The digest length of the parameter
        block is an argument of its own; the digest size of the object is left alone. */
    method UncheckedSetKey(key: seq<Byte>, digestLength: nat, salt: seq<Byte>, personalization: seq<Byte>)
      requires f.Valid() && buffer.Length == f.blockSize && m_digestSize <= |f.iv|
      requires |key| <= |f.iv| && |salt| <= |f.iv| / 4 && |personalization| <= |f.iv| / 4
      modifies this`m_key, this`m_block
      ensures Keyed() && m_key == f.KeyBlock(key)
      ensures m_block == Parameters(f, digestLength, |key|, salt, personalization)
      ensures old(Valid()) ==> Valid()
    {
      hide Holds, Counts;
      m_key := if |key| > 0 then key + Zeros(f.blockSize - |key|) else [];
      m_block := Parameters(f, digestLength, |key|, salt, personalization);
    }

    /** `SetKey`: fails for a key that is too long. Nothing is restarted, so the stream and the
        chaining value it started from stay what they were. */
    method SetKey(key: seq<Byte>, digestLength: nat, salt: seq<Byte>, personalization: seq<Byte>) returns (ok: bool)
      requires Valid() && |salt| <= |f.iv| / 4 && |personalization| <= |f.iv| / 4
      modifies this`m_key, this`m_block
      ensures ok == (|key| <= |f.iv|)
      ensures ok ==> m_key == f.KeyBlock(key) && m_block == Parameters(f, digestLength, |key|, salt, personalization)
      ensures !ok ==> unchanged(this)
      ensures Valid() && Stream() == old(Stream())
    {
      hide Holds, Counts, Parameters;
      if |key| > |f.iv| {
        return false;
      }
      UncheckedSetKey(key, digestLength, salt, personalization);
      return true;
    }
  }

  // ---------- Where the parameter block is not that of RFC 7693 ----------

  /** The digest length decides about the block and so about the first chaining value. */
  lemma DigestLengths(f: Function, a: nat, b: nat, keyLength: nat, salt: seq<Byte>, personalization: seq<Byte>)
    requires f.Valid() && a <= |f.iv| && b <= |f.iv| && |salt| <= |f.iv| / 4 && |personalization| <= |f.iv| / 4
    ensures
      var p, q := Parameters(f, a, keyLength, salt, personalization), Parameters(f, b, keyLength, salt, personalization);
      && (p == q <==> a == b)
      && (Xor(f.iv, p) == Xor(f.iv, q) <==> a == b)
  {
    var p, q := Parameters(f, a, keyLength, salt, personalization), Parameters(f, b, keyLength, salt, personalization);
    assert p[0] == a && q[0] == b;
    XorAt(f.iv, p, 0);
    XorAt(f.iv, q, 0);
  }

  /** So does the length of the key. */
  lemma KeyLengths(f: Function, digestLength: nat, a: nat, b: nat, salt: seq<Byte>, personalization: seq<Byte>)
    requires f.Valid() && a <= |f.iv| && b <= |f.iv| && |salt| <= |f.iv| / 4 && |personalization| <= |f.iv| / 4
    ensures
      var p, q := Parameters(f, digestLength, a, salt, personalization), Parameters(f, digestLength, b, salt, personalization);
      && (p == q <==> a == b)
      && (Xor(f.iv, p) == Xor(f.iv, q) <==> a == b)
  {
    var p, q := Parameters(f, digestLength, a, salt, personalization), Parameters(f, digestLength, b, salt, personalization);
    assert p[1] == a && q[1] == b;
    XorAt(f.iv, p, 1);
    XorAt(f.iv, q, 1);
  }

  /** Each byte of the mask can be read off. */
  lemma XorAt(v: seq<Byte>, p: seq<Byte>, i: nat)
    requires |v| == |p| > i
    ensures XorByte(Xor(v, p)[i], v[i]) == p[i]
  {
    XorCommutes(v[i], p[i]);
    XorTwiceWord(p[i], v[i]);
  }

  /** The constructor for hashing starts from the block of RFC 7693 exactly for the full digest. */
  lemma HashStart(f: Function, digestSize: nat)
    requires f.Valid() && digestSize <= |f.iv|
    ensures Xor(f.iv, Parameters(f, |f.iv|, 0, [], [])) == Xor(f.iv, Parameters(f, digestSize, 0, [], []))
            <==> digestSize == |f.iv|
  {
    DigestLengths(f, |f.iv|, digestSize, 0, [], []);
  }

  /** With a compression that keeps its chaining value, the 20 bytes that it gives for the empty
      message are not those of RFC 7693. */
  lemma TwentyByteHashDiffers()
    ensures
      var f := Function(128, 0x1_0000_0000_0000_0000, Zeros(64), (h, block, t0, t1, f0, f1) => h);
      && f.Valid()
      && f.Hash(Xor(f.iv, Parameters(f, 64, 0, [], [])), 0, [], false)[..20]
         != f.Hash(Xor(f.iv, Parameters(f, 20, 0, [], [])), 0, [], false)[..20]
  {
    var f := Function(128, 0x1_0000_0000_0000_0000, Zeros(64), (h, block, t0, t1, f0, f1) => h);
    var x, y := Xor(f.iv, Parameters(f, 64, 0, [], [])), Xor(f.iv, Parameters(f, 20, 0, [], []));
    XorAt(f.iv, Parameters(f, 64, 0, [], []), 0);
    XorAt(f.iv, Parameters(f, 20, 0, [], []), 0);
    assert f.Hash(x, 0, [], false)[..20][0] == x[0];
    assert f.Hash(y, 0, [], false)[..20][0] == y[0];
  }

  /** `Restart(block, counter)` writes the digest size for the digest length and the length of the
      key block for that of the key. So given the object's own block it keeps it exactly without
      a key and with the digest length equal to the digest size. */
  lemma RestartLengths(f: Function, digestSize: nat, digestLength: nat, key: seq<Byte>, salt: seq<Byte>, personalization: seq<Byte>)
    requires f.Valid() && |key| <= |f.iv| && digestSize <= |f.iv|
    requires |salt| <= |f.iv| / 4 && |personalization| <= |f.iv| / 4
    ensures
      var block := Parameters(f, digestLength, |key|, salt, personalization);
      [ByteOf(digestSize), ByteOf(|f.KeyBlock(key)|)] + block[2..] == block <==> key == [] && digestSize == ByteOf(digestLength)
  {
    var block := Parameters(f, digestLength, |key|, salt, personalization);
    var restarted := [ByteOf(digestSize), ByteOf(|f.KeyBlock(key)|)] + block[2..];
    assert block[0] == ByteOf(digestLength) && block[1] == ByteOf(|key|);
    assert restarted[0] == ByteOf(digestSize) && restarted[1] == ByteOf(|f.KeyBlock(key)|);
    assert block == [block[0], block[1]] + block[2..];
  }

  /** An object of the constructor for hashing, restarted with its own block. */
  method RestartHash(f: Function, treeMode: bool, digestSize: nat) returns (kept: bool)
    requires f.Valid() && digestSize <= |f.iv|
    ensures kept <==> digestSize == |f.iv|
  {
    hide Holds, Parameters, Xor, Counts;
    RestartLengths(f, digestSize, |f.iv|, [], [], []);
    var blake := new Blake2Base.Hash(f, treeMode, digestSize);
    var block := blake.m_block;
    blake.RestartWith(block, 0, 0);
    kept := blake.m_block == block;
  }

  /** An object of the constructor that takes a key, restarted with its own block. */
  method RestartKeyed(f: Function, key: seq<Byte>, salt: seq<Byte>, personalization: seq<Byte>, treeMode: bool, digestSize: nat)
      returns (kept: bool)
    requires f.Valid() && |key| <= |f.iv| && digestSize <= |f.iv|
    requires |salt| <= |f.iv| / 4 && |personalization| <= |f.iv| / 4
    ensures kept <==> key == []
  {
    hide Holds, Parameters, Xor, Counts;
    RestartLengths(f, digestSize, digestSize, key, salt, personalization);
    var blake := new Blake2Base.WithKey(f, key, salt, personalization, treeMode, digestSize);
    var block := blake.m_block;
    blake.RestartWith(block, 0, 0);
    kept := blake.m_block == block;
  }

  /** A key of one byte: 64 or 128 is written for 1. */
  lemma RestartOfOneByteKey(f: Function)
    requires f.Valid()
    ensures ByteOf(|f.KeyBlock([7])|) == 2 * |f.iv| != 1 == |[7]|
  {
  }

  /** However the message is cut, the hash is that of RFC 7693 for the key and the digest size. */
  method MacOfPieces(f: Function, key: seq<Byte>, digestSize: nat, salt: seq<Byte>, personalization: seq<Byte>,
                     treeMode: bool, pieces: seq<seq<Byte>>) returns (hash: seq<Byte>)
    requires f.Valid() && |key| <= |f.iv| && digestSize <= |f.iv|
    requires |salt| <= |f.iv| / 4 && |personalization| <= |f.iv| / 4
    ensures
      var h := Xor(f.iv, Parameters(f, digestSize, |key|, salt, personalization));
      hash == f.Hash(h, 0, f.KeyBlock(key) + Join(pieces), treeMode)[..digestSize]
  {
    hide Join, Holds, Parameters, Xor, Counts;
    var blake := new Blake2Base.WithKey(f, key, salt, personalization, treeMode, digestSize);
    hash := FeedPieces(blake, pieces);
  }

  /** However the message is cut, the hash is the beginning of that for the full digest size. */
  method HashOfPieces(f: Function, digestSize: nat, treeMode: bool, pieces: seq<seq<Byte>>) returns (hash: seq<Byte>)
    requires f.Valid() && digestSize <= |f.iv|
    ensures
      var h := Xor(f.iv, Parameters(f, |f.iv|, 0, [], []));
      hash == f.Hash(h, 0, Join(pieces), treeMode)[..digestSize]
  {
    hide Join, Holds, Parameters, Xor, Counts;
    var blake := new Blake2Base.Hash(f, treeMode, digestSize);
    assert [] + Join(pieces) == Join(pieces);
    hash := FeedPieces(blake, pieces);
  }

  /** The pieces, and the whole digest. */
  method FeedPieces(blake: Blake2Base, pieces: seq<seq<Byte>>) returns (hash: seq<Byte>)
    requires blake.Valid() && (blake.m_key == [] || |blake.m_key| == blake.f.blockSize)
    modifies blake, blake.buffer
    ensures hash == blake.f.Hash(old(blake.first), old(blake.start), old(blake.Stream()) + Join(pieces),
                                 old(blake.m_treeMode))[..old(blake.m_digestSize)]
    ensures unchanged(blake`m_block, blake`m_key, blake`m_digestSize, blake`m_treeMode)
    ensures blake.Valid() && blake.first == Xor(blake.f.iv, blake.m_block) && blake.start == 0 && blake.Stream() == blake.m_key
  {
    hide Join, Holds, Parameters, Xor, Counts;
    JoinEnds(pieces);
    ghost var before := blake.Stream();
    assert before == before + Join(pieces[..0]);
    for i := 0 to |pieces|
      invariant blake.Valid() && blake.Stream() == before + Join(pieces[..i])
      invariant blake.m_key == old(blake.m_key) && blake.m_digestSize == old(blake.m_digestSize)
      invariant blake.m_treeMode == old(blake.m_treeMode) && blake.m_block == old(blake.m_block)
      invariant blake.first == old(blake.first) && blake.start == old(blake.start)
    {
      JoinNext(pieces, i);
      blake.Update(pieces[i]);
      assert blake.Stream() == before + Join(pieces[..i + 1]);
    }
    var ok;
    ok, hash := blake.TruncatedFinal(blake.m_digestSize);
  }

  /** A key set on an object counts from the next restart on, which is that of `Restart` or of
      the next final. Until then the object hashes as if the key had not been set. */
  method HashAfterSetKey(blake: Blake2Base, key: seq<Byte>, digestLength: nat, salt: seq<Byte>, personalization: seq<Byte>,
                         restart: bool, pieces: seq<seq<Byte>>, next: seq<seq<Byte>>)
      returns (hash: seq<Byte>, nextHash: seq<Byte>)
    requires blake.Valid() && |key| <= |blake.f.iv|
    requires |salt| <= |blake.f.iv| / 4 && |personalization| <= |blake.f.iv| / 4
    modifies blake, blake.buffer
    ensures
      var f := blake.f;
      var size, tree := old(blake.m_digestSize), old(blake.m_treeMode);
      var h := Xor(f.iv, Parameters(f, digestLength, |key|, salt, personalization));
      && hash == (if restart then f.Hash(h, 0, f.KeyBlock(key) + Join(pieces), tree)
                  else f.Hash(old(blake.first), old(blake.start), old(blake.Stream()) + Join(pieces), tree))[..size]
      && nextHash == f.Hash(h, 0, f.KeyBlock(key) + Join(next), tree)[..size]
  {
    hide Join, Holds, Parameters, Xor, Counts;
    var ok := blake.SetKey(key, digestLength, salt, personalization);
    if restart {
      blake.Restart();
    }
    hash := FeedPieces(blake, pieces);
    nextHash := FeedPieces(blake, next);
  }

  /** For a new object of the constructor for hashing, keyed with `SetKey` and its defaults: the
      chaining value and the stream it goes on with are those of the key exactly if it is empty. */
  lemma LateKey(f: Function, key: seq<Byte>)
    requires f.Valid() && |key| <= |f.iv|
    ensures
      var unkeyed, keyed := Parameters(f, |f.iv|, 0, [], []), Parameters(f, |f.iv|, |key|, [], []);
      && (Xor(f.iv, unkeyed) == Xor(f.iv, keyed) <==> key == [])
      && (f.KeyBlock(key) == [] <==> key == [])
  {
    KeyLengths(f, |f.iv|, 0, |key|, [], []);
  }
}
