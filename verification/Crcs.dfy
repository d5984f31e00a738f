/** CRC-32 and CRC-32C (crc.cpp), the portable code for little-endian machines: a table and four
    bytes a round, against one bit at a time. */
module Crcs {
  import opened Numbers
  import opened Bytes

  // ---------- Specification ----------

  /** One bit of division by the polynomial, whose bits are reflected. */
  function BitStep(poly: nat, c: nat): nat {
    XorWord(c / 2, if c % 2 == 1 then poly else 0)
  }

  function BitSteps(poly: nat, c: nat, n: nat): nat
    decreases n
  {
    if n == 0 then c else BitSteps(poly, BitStep(poly, c), n - 1)
  }

  /** One byte, bit by bit. */
  function SerialByte(poly: nat, c: nat, b: Byte): nat {
    BitSteps(poly, XorWord(c, b), 8)
  }

  /** The register after all data. */
  function Register(poly: nat, c: nat, data: seq<Byte>): nat {
    if data == [] then c else SerialByte(poly, Register(poly, c, data[..|data| - 1]), data[|data| - 1])
  }

  const NEGL := 0xffff_ffff

  /** The table: the remainders of all bytes. */
  predicate Table(poly: nat, tab: seq<nat>) {
    |tab| == 256 && forall i :: 0 <= i < 256 ==> tab[i] == BitSteps(poly, i, 8)
  }

  // ---------- Linearity ----------

  /** (a ^ b) ^ (c ^ d) with b and c exchanged. */
  lemma XorExchange(a: nat, b: nat, c: nat, d: nat)
    ensures XorWord(XorWord(a, b), XorWord(c, d)) == XorWord(XorWord(a, c), XorWord(b, d))
  {
    XorAssociativeWord(XorWord(a, b), c, d);
    XorAssociativeWord(a, b, c);
    XorCommutes(b, c);
    XorAssociativeWord(a, c, b);
    XorAssociativeWord(XorWord(a, c), b, d);
  }

  lemma BitStepXor(poly: nat, x: nat, y: nat)
    ensures BitStep(poly, XorWord(x, y)) == XorWord(BitStep(poly, x), BitStep(poly, y))
  {
    hide XorWord;
    var p, q := if x % 2 == 1 then poly else 0, if y % 2 == 1 then poly else 0;
    XorParts(x, y);
    XorExchange(x / 2, p, y / 2, q);
    XorSelf(poly);
    XorZeroWord(poly);
    XorZeroWord(0);
  }

  lemma {:induction false} BitStepsXor(poly: nat, x: nat, y: nat, n: nat)
    ensures BitSteps(poly, XorWord(x, y), n) == XorWord(BitSteps(poly, x, n), BitSteps(poly, y, n))
    decreases n
  {
    hide BitStep;
    if n > 0 {
      BitStepXor(poly, x, y);
      BitStepsXor(poly, BitStep(poly, x), BitStep(poly, y), n - 1);
    }
  }

  /** Bits above the first n are just shifted. */
  lemma {:induction false} BitStepsHigh(poly: nat, y: nat, n: nat)
    ensures BitSteps(poly, ShlNat(y, n), n) == y
    decreases n
  {
    if n > 0 {
      XorZeroWord(ShlNat(y, n - 1));
      assert BitStep(poly, ShlNat(y, n)) == ShlNat(y, n - 1);
      BitStepsHigh(poly, y, n - 1);
    }
  }

  /** Numbers without a common bit. */
  lemma {:induction false} XorHighLow(y: nat, low: nat, n: nat)
    requires low < Pow2(n)
    ensures XorWord(ShlNat(y, n), low) == ShlNat(y, n) + low
    decreases n
  {
    if n == 0 {
      XorZeroWord(y);
    } else {
      XorHighLow(y, low / 2, n - 1);
      var s := ShlNat(y, n);
      XorParts(s, low);
      assert s / 2 == ShlNat(y, n - 1) && s % 2 == 0;
    }
  }

  /** Eight bits at once: the table for the low byte, a shift for the rest. */
  lemma EightSteps(poly: nat, c: nat)
    ensures BitSteps(poly, c, 8) == XorWord(BitSteps(poly, c % 256, 8), c / 256)
  {
    hide XorWord, BitSteps, ShlNat;
    var y, low := c / 256, c % 256;
    assert Pow2(8) == 256;
    ShlMul(y, 8);
    XorHighLow(y, low, 8);
    XorCommutes(ShlNat(y, 8), low);
    BitStepsXor(poly, low, ShlNat(y, 8), 8);
    BitStepsHigh(poly, y, 8);
  }

  lemma {:induction false} XorDivided(a: nat, b: nat, n: nat)
    ensures Shr(XorWord(a, b), n) == XorWord(Shr(a, n), Shr(b, n))
    ensures Low(XorWord(a, b), n) == XorWord(Low(a, n), Low(b, n))
  {
    if n > 0 {
      hide XorWord;
      XorParts(a, b);
      XorDivided(a / 2, b / 2, n - 1);
      var x, y := Low(a, n), Low(b, n);
      XorParts(x, y);
      assert x / 2 == Low(a / 2, n - 1) && y / 2 == Low(b / 2, n - 1) && x % 2 == a % 2 && y % 2 == b % 2;
    } else {
      XorZeroWord(0);
    }
  }

  lemma XorByteParts(c: nat, b: Byte)
    ensures XorWord(c, b) % 256 == XorWord(c % 256, b) && XorWord(c, b) / 256 == c / 256
  {
    hide XorWord, Low, Shr;
    XorDivided(c, b, 8);
    LowByte(XorWord(c, b));
    LowByte(c);
    LowByte(b);
    assert b % 256 == b && b / 256 == 0;
    XorZeroWord(c / 256);
  }

  lemma XorByteIs(a: Byte, b: Byte)
    ensures XorByte(a, b) == XorWord(a, b)
  {
  }

  lemma LowByte(e: nat)
    ensures Low(e, 8) == e % 256 && Shr(e, 8) == e / 256
  {
    ShiftsAreDivisions(e, 8);
    assert Pow2(8) == 256;
  }

  /** The table step of one byte is its bit-serial division. */
  lemma TableStep(poly: nat, tab: seq<nat>, c: nat, b: Byte)
    requires Table(poly, tab)
    ensures XorWord(tab[XorByte(c % 256, b)], c / 256) == SerialByte(poly, c, b)
  {
    hide XorWord, BitSteps, XorByte;
    XorByteParts(c, b);
    XorByteIs(c % 256, b);
    EightSteps(poly, XorWord(c, b));
  }

  /** A word taken in at once: after eight bits its first byte is used up, and the rest of it is
      in place for the next. */
  lemma WordStep(poly: nat, tab: seq<nat>, c: nat, bytes: seq<Byte>)
    requires Table(poly, tab) && bytes != []
    ensures
      var x := XorWord(c, LittleValue(bytes));
      XorWord(tab[x % 256], x / 256) == XorWord(SerialByte(poly, c, bytes[0]), LittleValue(bytes[1..]))
  {
    hide XorWord, BitSteps, LittleValue, ShlNat;
    var b, w := bytes[0], LittleValue(bytes[1..]);
    var x := XorWord(c, LittleValue(bytes));
    EightSteps(poly, x);
    LittleFirst(bytes);
    ShlMul(w, 8);
    assert Pow2(8) == 256;
    XorHighLow(w, b, 8);
    XorCommutes(ShlNat(w, 8), b);
    XorAssociativeWord(c, b, ShlNat(w, 8));
    BitStepsXor(poly, XorWord(c, b), ShlNat(w, 8), 8);
    BitStepsHigh(poly, w, 8);
  }

  lemma LittleFirst(s: seq<Byte>)
    requires s != []
    ensures LittleValue(s) == s[0] + 256 * LittleValue(s[1..])
  {
  }

  lemma RegisterNext(poly: nat, c: nat, data: seq<Byte>, b: Byte)
    ensures Register(poly, c, data + [b]) == SerialByte(poly, Register(poly, c, data), b)
  {
    assert (data + [b])[..|data|] == data;
  }

  // ---------- The code ----------

  class Crc {
    const poly: nat
    const m_tab: seq<nat>
    var m_crc: nat
    ghost var data: seq<Byte>

    ghost predicate Valid()
      reads this
    {
      Table(poly, m_tab) && m_crc == Register(poly, NEGL, data)
    }

    constructor (poly: nat)
      ensures Valid() && data == [] && this.poly == poly
    {
      this.poly := poly;
      m_tab := seq(256, i requires 0 <= i < 256 => BitSteps(poly, i, 8));
      m_crc, data := NEGL, [];
    }

    /** One byte: `UpdateByte`, and the body of the first and the last loop of `Update`. */
    method UpdateByte(b: Byte)
      requires Valid()
      modifies this
      ensures Valid() && data == old(data) + [b]
    {
      hide XorWord, BitSteps, Register, SerialByte, XorByte;
      TableStep(poly, m_tab, m_crc, b);
      RegisterNext(poly, NEGL, data, b);
      m_crc := XorWord(m_tab[XorByte(m_crc % 256, b)], m_crc / 256);
      data := data + [b];
    }

    /** The body of the middle loop: four bytes as one word. */
    method UpdateWord(word: seq<Byte>)
      requires Valid() && |word| == 4
      modifies this
      ensures Valid() && data == old(data) + word
    {
      hide XorWord, BitSteps, Register, SerialByte, LittleValue;
      ghost var c := m_crc;
      var crc := XorWord(m_crc, LittleValue(word));
      ghost var rest := word;
      WordStep(poly, m_tab, c, rest);
      crc := XorWord(m_tab[crc % 256], crc / 256);
      RegisterNext(poly, NEGL, data, rest[0]);
      c, data, rest := SerialByte(poly, c, rest[0]), data + [rest[0]], rest[1..];
      assert data + rest == old(data) + word;

      WordStep(poly, m_tab, c, rest);
      crc := XorWord(m_tab[crc % 256], crc / 256);
      RegisterNext(poly, NEGL, data, rest[0]);
      c, data, rest := SerialByte(poly, c, rest[0]), data + [rest[0]], rest[1..];
      assert data + rest == old(data) + word;

      WordStep(poly, m_tab, c, rest);
      crc := XorWord(m_tab[crc % 256], crc / 256);
      RegisterNext(poly, NEGL, data, rest[0]);
      c, data, rest := SerialByte(poly, c, rest[0]), data + [rest[0]], rest[1..];
      assert data + rest == old(data) + word;

      WordStep(poly, m_tab, c, rest);
      crc := XorWord(m_tab[crc % 256], crc / 256);
      RegisterNext(poly, NEGL, data, rest[0]);
      c, data, rest := SerialByte(poly, c, rest[0]), data + [rest[0]], rest[1..];
      assert data + rest == old(data) + word;

      assert rest == [];
      NoBytes();
      XorZeroWord(c);
      m_crc := crc;
    }

    /** `Update`, for input at any address. */
    method Update(address: nat, input: seq<Byte>)
      requires Valid()
      modifies this
      ensures Valid() && data == old(data) + input
    {
      hide Valid;
      var s, position := input, address;
      while position % 4 != 0 && |s| > 0
        invariant Valid() && |s| <= |input| && data + s == old(data) + input
        decreases |s|
      {
        UpdateByte(s[0]);
        s, position := s[1..], position + 1;
      }
      while |s| >= 4
        invariant Valid() && data + s == old(data) + input
        decreases |s|
      {
        UpdateWord(s[..4]);
        s := s[4..];
      }
      while |s| > 0
        invariant Valid() && data + s == old(data) + input
        decreases |s|
      {
        UpdateByte(s[0]);
        s := s[1..];
      }
    }

    /** `TruncatedFinal`. Fails if more is asked for than there is. */
    method TruncatedFinal(size: nat) returns (ok: bool, hash: seq<Byte>)
      requires Valid()
      modifies this
      ensures ok == (size <= 4)
      ensures ok ==> hash == LittleEndian(XorWord(Register(poly, NEGL, old(data)), NEGL), 4)[..size] && Valid() && data == []
      ensures !ok ==> unchanged(this)
    {
      hide XorWord, LittleEndian;
      if size > 4 {
        return false, [];
      }
      m_crc := XorWord(m_crc, NEGL);
      var all := LittleEndian(m_crc, 4);  // GetCrcByte
      hash := all[..size];
      m_crc, data := NEGL, [];
      return true, hash;
    }
  }

  lemma NoBytes()
    ensures LittleValue([]) == 0
  {
  }

  /** However the data is cut and wherever the pieces lie, the result is that of bit-serial
      division. */
  method CrcOfPieces(poly: nat, pieces: seq<seq<Byte>>, addresses: seq<nat>) returns (hash: seq<Byte>)
    requires |addresses| == |pieces|
    ensures hash == LittleEndian(XorWord(Register(poly, NEGL, Join(pieces)), NEGL), 4)
  {
    hide Join, XorWord, Register, LittleEndian;
    var crc := new Crc(poly);
    JoinEnds(pieces);
    for i := 0 to |pieces|
      invariant crc.Valid() && crc.data == Join(pieces[..i])
    {
      JoinNext(pieces, i);
      crc.Update(addresses[i], pieces[i]);
    }
    var ok;
    ok, hash := crc.TruncatedFinal(4);
  }
}
