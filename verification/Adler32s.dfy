/** Adler-32 (adler32.cpp): sums of section 2.2 of RFC 1950, reduced as rarely as 32 bits allow. */
module Adler32s {
  import opened Bytes

  const BASE := 65521

  type Word32 = x: int | 0 <= x < 0x1_0000_0000

  // ---------- Specification ----------

  /** One and all bytes. */
  function Sum1(data: seq<Byte>): nat {
    if data == [] then 1 else Sum1(data[..|data| - 1]) + data[|data| - 1]
  }

  /** All values of the first sum after each byte. */
  function Sum2(data: seq<Byte>): nat {
    if data == [] then 0 else Sum2(data[..|data| - 1]) + Sum1(data)
  }

  /** The checksum is stored most significant byte first, the second sum in front. */
  function Checksum(data: seq<Byte>): nat {
    Sum2(data) % BASE * 0x1_0000 + Sum1(data) % BASE
  }

  /** s1 and s2 stand for the sums, not necessarily reduced. */
  predicate Stand(s1: int, s2: int, data: seq<Byte>) {
    s1 % BASE == Sum1(data) % BASE && s2 % BASE == Sum2(data) % BASE
  }

  lemma StandNext(s1: int, s2: int, data: seq<Byte>, b: Byte)
    requires Stand(s1, s2, data)
    ensures Stand(s1 + b, s2 + (s1 + b), data + [b])
  {
    assert (data + [b])[..|data|] == data;
    AddBoth(s1, Sum1(data), b, b);
    AddBoth(s2, Sum2(data), s1 + b, Sum1(data) + b);
  }

  lemma AddBoth(x: int, y: int, p: int, q: int)
    requires x % BASE == y % BASE && p % BASE == q % BASE
    ensures (x + p) % BASE == (y + q) % BASE
  {
  }

  lemma EmptySums()
    ensures Sum1([]) == 1 && Sum2([]) == 0
  {
  }

  class Adler32 {
    var m_s1: nat
    var m_s2: nat
    ghost var data: seq<Byte>

    ghost predicate Valid()
      reads this
    {
      m_s1 < BASE && m_s2 < BASE && Stand(m_s1, m_s2, data)
    }

    constructor ()
      ensures Valid() && data == []
    {
      m_s1, m_s2, data := 1, 0, [];
    }

    /** `Update`. No sum ever leaves 32 bits. */
    method Update(input: seq<Byte>)
      requires Valid()
      modifies this
      ensures Valid() && data == old(data) + input
    {
      hide Stand;
      var s1: Word32, s2: Word32, rest := m_s1, m_s2, input;
      if |rest| % 8 != 0 {
        s1, s2, rest := UpdatePart(s1, s2, rest, data);
      }
      ghost var done := data + input[..|input| - |rest|];
      assert rest == input ==> done == data;
      s1, s2 := UpdateBlocks(s1, s2, rest, done);
      assert done + rest == data + input;
      m_s1, m_s2 := s1, s2;
      data := data + input;
    }

    /** `TruncatedFinal`. Fails if more is asked for than there is. */
    method TruncatedFinal(size: nat) returns (ok: bool, hash: seq<Byte>)
      requires Valid()
      modifies this
      ensures ok == (size <= 4)
      ensures ok ==> hash == BigEndian(Checksum(old(data)), 4)[..size] && Valid() && data == []
      ensures !ok ==> unchanged(this)
    {
      if size > 4 {
        return false, [];
      }
      hide Sum1, Sum2, BigEndian, ByteOf, Checksum;
      ChecksumBytes(m_s1, m_s2, data);
      EmptySums();
      var all := [ByteOf(m_s2 / 256), ByteOf(m_s2), ByteOf(m_s1 / 256), ByteOf(m_s1)];
      hash := all[..size];
      m_s1, m_s2, data := 1, 0, [];
      return true, hash;
    }
  }

  lemma BigEndianPush(v: nat, b: Byte, n: nat)
    ensures BigEndian(256 * v + b, n + 1) == BigEndian(v, n) + [b]
  {
    assert (256 * v + b) / 256 == v && (256 * v + b) % 256 == b;
  }

  lemma TwoBytes(s: nat)
    requires s < BASE
    ensures s == 256 * ByteOf(s / 256) + ByteOf(s)
  {
  }

  lemma FourBytes(a: Byte, b: Byte, c: Byte, d: Byte, v: nat)
    requires v == 256 * (256 * (256 * a + b) + c) + d
    ensures BigEndian(v, 4) == [a, b, c, d]
  {
    hide BigEndian;
    var v1: nat := a;
    var v2: nat := 256 * v1 + b;
    var v3: nat := 256 * v2 + c;
    BigEndianPush(0, a, 0);
    BigEndianPush(v1, b, 1);
    BigEndianPush(v2, c, 2);
    BigEndianPush(v3, d, 3);
    assert BigEndian(v1, 1) == [a];
    assert BigEndian(v2, 2) == [a, b];
    assert BigEndian(v3, 3) == [a, b, c];
  }

  lemma ReducedSums(s1: nat, s2: nat, data: seq<Byte>)
    requires s1 < BASE && s2 < BASE && Stand(s1, s2, data)
    ensures Checksum(data) == 0x1_0000 * s2 + s1
  {
    hide Sum1, Sum2;
    assert s1 % BASE == s1 && s2 % BASE == s2;
  }

  lemma ChecksumBytes(s1: nat, s2: nat, data: seq<Byte>)
    requires s1 < BASE && s2 < BASE && Stand(s1, s2, data)
    ensures BigEndian(Checksum(data), 4) == [ByteOf(s2 / 256), ByteOf(s2), ByteOf(s1 / 256), ByteOf(s1)]
  {
    hide BigEndian, ByteOf, Checksum, Stand;
    ReducedSums(s1, s2, data);
    TwoBytes(s1);
    TwoBytes(s2);
    FourBytes(ByteOf(s2 / 256), ByteOf(s2), ByteOf(s1 / 256), ByteOf(s1), Checksum(data));
  }

  /** The bytes before the last multiple of eight: fewer than eight, so one subtraction reduces
      the first sum. */
  method UpdatePart(s1: Word32, s2: Word32, input: seq<Byte>, ghost data: seq<Byte>)
      returns (s1': Word32, s2': Word32, rest: seq<Byte>)
    requires s1 < BASE && s2 < BASE && Stand(s1, s2, data) && |input| % 8 != 0
    ensures |rest| % 8 == 0 && |rest| <= |input| && rest == input[|input| - |rest|..]
    ensures s1' < BASE && s2' < BASE && Stand(s1', s2', data + input[..|input| - |rest|])
  {
    hide Stand;
    s1', s2', rest := s1, s2, input;
    ghost var k := 0;
    assert data + input[..k] == data;
    PartLength(|input|);
    while true
      invariant k < |input| % 8 && k <= |input| && rest == input[k..]
      invariant s1' < BASE + 256 * k && s2' < BASE + k * (BASE + 256 * 8)
      invariant Stand(s1', s2', data + input[..k])
      decreases |rest|
    {
      StandNext(s1', s2', data + input[..k], rest[0]);
      assert data + input[..k] + [rest[0]] == data + input[..k + 1];
      s1' := s1' + rest[0];
      s2' := s2' + s1';
      rest := rest[1..];
      k := k + 1;
      PartLeft(|input|, k);
      if |rest| % 8 == 0 {
        break;
      }
    }
    s1', s2' := Reduce(s1', s2', 0, data + input[..|input| - |rest|]);
  }

  lemma PartLength(length: nat)
    ensures length % 8 <= length && length % 8 < 8
  {
  }

  lemma PartLeft(length: nat, k: nat)
    requires k <= length % 8
    ensures (length - k) % 8 == length % 8 - k
  {
  }

  /** The main loop. The second sum is reduced only where a multiple of 0x8000 bytes is left. */
  method UpdateBlocks(s1: Word32, s2: Word32, input: seq<Byte>, ghost data: seq<Byte>) returns (s1': Word32, s2': Word32)
    requires s1 < BASE && s2 < BASE && Stand(s1, s2, data) && |input| % 8 == 0
    ensures s1' < BASE && s2' < BASE && Stand(s1', s2', data + input)
  {
    s1', s2' := s1, s2;
    var rest := input;
    ghost var k := 0;  // bytes since the last reduction
    assert data + input[..0] == data;
    while |rest| > 0
      invariant |rest| <= |input| && rest == input[|input| - |rest|..]
      invariant Since(|rest|, k) && s1' < BASE && s2' < BASE + k * (BASE + 8 * 255)
      invariant Stand(s1', s2', data + input[..|input| - |rest|])
      decreases |rest|
    {
      hide Stand, Since;
      ghost var done := data + input[..|input| - |rest|];
      SinceNext(|rest|, k);
      assert done + rest[..8] == data + input[..|input| - |rest[8..]|];
      s1', s2' := UpdateEight(s1', s2', rest[..8], done);
      rest := rest[8..];
      s1', s2' := Reduce(s1', s2', |rest|, data + input[..|input| - |rest|]);
      k := if |rest| % 0x8000 == 0 then 0 else k + 8;
    }
    assert input[..|input|] == input;
  }

  /** k bytes have been added since the second sum was reduced, and `length` bytes are left. */
  ghost predicate Since(length: nat, k: nat) {
    length % 8 == 0 && k + length % 0x8000 <= 0x8000 && (length % 0x8000 == 0 ==> k == 0)
  }

  lemma SinceNext(length: nat, k: nat)
    requires Since(length, k) && length > 0
    ensures length >= 8 && k + 8 <= 0x8000
    ensures Since(length - 8, if (length - 8) % 0x8000 == 0 then 0 else k + 8)
  {
  }

  method Reduce(s1: Word32, s2: Word32, length: nat, ghost data: seq<Byte>) returns (s1': Word32, s2': Word32)
    requires Stand(s1, s2, data) && s1 < 2 * BASE
    ensures s1' < BASE && Stand(s1', s2', data)
    ensures s2' <= s2 && (length % 0x8000 == 0 ==> s2' < BASE)
  {
    s1', s2' := s1, s2;
    if s1' >= BASE {
      s1' := s1' - BASE;
    }
    if length % 0x8000 == 0 {
      s2' := s2' % BASE;
    }
  }

  /** The unrolled body. */
  method UpdateEight(s1: Word32, s2: Word32, input: seq<Byte>, ghost data: seq<Byte>) returns (s1': Word32, s2': Word32)
    requires |input| == 8 && s1 < BASE && s2 < BASE + 0x7ff8 * (BASE + 8 * 255) && Stand(s1, s2, data)
    ensures s1' <= s1 + 8 * 255 && s2' <= s2 + 8 * (BASE + 8 * 255) && Stand(s1', s2', data + input)
  {
    hide Stand;
    s1', s2' := s1, s2;
    assert data + input[..0] == data;
    for i := 0 to 8
      invariant s1' <= s1 + 255 * i && s2' <= s2 + i * (BASE + 8 * 255)
      invariant Stand(s1', s2', data + input[..i])
    {
      StandNext(s1', s2', data + input[..i], input[i]);
      assert data + input[..i] + [input[i]] == data + input[..i + 1];
      s1' := s1' + input[i];
      s2' := s2' + s1';
    }
    assert input[..8] == input;
  }

  /** However the data is cut, the checksum is that of RFC 1950. */
  method ChecksumOfPieces(pieces: seq<seq<Byte>>) returns (hash: seq<Byte>)
    ensures hash == BigEndian(Checksum(Join(pieces)), 4)
  {
    hide Join, Stand, BigEndian, Checksum;
    var adler := new Adler32();
    JoinEnds(pieces);
    for i := 0 to |pieces|
      invariant adler.Valid() && adler.data == Join(pieces[..i])
    {
      JoinNext(pieces, i);
      adler.Update(pieces[i]);
    }
    var ok;
    ok, hash := adler.TruncatedFinal(4);
  }

  lemma SumsOfAbc()
    ensures Checksum([97, 98, 99]) == 0x24d_0127
  {
    var s: seq<Byte> := [97, 98, 99];
    assert s[..2] == [97, 98] && [97, 98][..1] == [97] && [97][..0] == [];
    assert Sum1([97]) == 98 && Sum1([97, 98]) == 196 && Sum1(s) == 295;
    assert Sum2([97]) == 98 && Sum2([97, 98]) == 294 && Sum2(s) == 589;
  }

  /** The letters abc: 295 and 98 + 196 + 295, the second sum first. */
  method ChecksumOfAbc() returns (hash: seq<Byte>)
    ensures hash == [2, 0x4d, 1, 0x27]
  {
    hide Checksum, BigEndian, Join;
    SumsOfAbc();
    FourOctets(2, 0x4d, 1, 0x27);
    JoinNext([[97, 98, 99]], 0);
    JoinEnds([[97, 98, 99]]);
    assert [] + [97, 98, 99] == [97, 98, 99];
    hash := ChecksumOfPieces([[97, 98, 99]]);
  }
}
