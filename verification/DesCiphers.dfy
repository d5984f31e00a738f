/** DES, DES-EDE2 and DES-EDE3 (des.cpp) on blocks of two words, with any S-boxes and any round
    keys. */
module DesCiphers {
  import opened Feistels

  // ---------- The permutations around the rounds ----------

  // `rotlFixed` and `rotrFixed` by the amounts that occur, and that they undo each other.

  function Left1(x: Word): Word {
    x.RotateLeft(1)
  }

  function Right1(x: Word): Word {
    x.RotateRight(1)
  }

  lemma Rotate1(x: Word)
    ensures Right1(Left1(x)) == x && Left1(Right1(x)) == x
  {
  }

  function Left4(x: Word): Word {
    x.RotateLeft(4)
  }

  function Right4(x: Word): Word {
    x.RotateRight(4)
  }

  lemma Rotate4(x: Word)
    ensures Right4(Left4(x)) == x && Left4(Right4(x)) == x
  {
  }

  function Left6(x: Word): Word {
    x.RotateLeft(6)
  }

  function Right6(x: Word): Word {
    x.RotateRight(6)
  }

  lemma Rotate6(x: Word)
    ensures Right6(Left6(x)) == x && Left6(Right6(x)) == x
  {
  }

  function Left9(x: Word): Word {
    x.RotateLeft(9)
  }

  function Right9(x: Word): Word {
    x.RotateRight(9)
  }

  lemma Rotate9(x: Word)
    ensures Right9(Left9(x)) == x && Left9(Right9(x)) == x
  {
  }

  function Left18(x: Word): Word {
    x.RotateLeft(18)
  }

  function Right18(x: Word): Word {
    x.RotateRight(18)
  }

  lemma Rotate18(x: Word)
    ensures Right18(Left18(x)) == x && Left18(Right18(x)) == x
  {
  }

  function Left20(x: Word): Word {
    x.RotateLeft(20)
  }

  function Right20(x: Word): Word {
    x.RotateRight(20)
  }

  lemma Rotate20(x: Word)
    ensures Right20(Left20(x)) == x && Left20(Right20(x)) == x
  {
  }

  function Work(l: Word, r: Word, mask: Word): Word {
    Xor(l, r) & mask
  }

  /** The bits of the mask change places. */
  function Exchange(s: Halves, mask: Word): Halves {
    Halves(Xor(s.l, Work(s.l, s.r, mask)), Xor(s.r, Work(s.l, s.r, mask)))
  }

  lemma XorBoth(l: Word, r: Word, w: Word)
    ensures Xor(Xor(l, w), Xor(r, w)) == Xor(l, r) == Xor(r, l)
  {
  }

  lemma WorkSame(l: Word, r: Word, mask: Word, l': Word, r': Word)
    requires Xor(l', r') == Xor(l, r)
    ensures Work(l', r', mask) == Work(l, r, mask)
  {
  }

  lemma ExchangeTwice(s: Halves, mask: Word)
    ensures Exchange(Exchange(s, mask), mask) == s
  {
    hide Xor, Work;
    var w := Work(s.l, s.r, mask);
    XorBoth(s.l, s.r, w);
    WorkSame(s.l, s.r, mask, Xor(s.l, w), Xor(s.r, w));
    XorCancels(s.l, w);
    XorCancels(s.r, w);
  }

  /** All of `IPERM` but its last rotation. */
  function Exchanged(s: Halves): Halves {
    var a := Exchange(Halves(s.l, Left4(s.r)), 0xf0f0f0f0);
    var b := Exchange(Halves(a.l, Right20(a.r)), 0xffff0000);
    var c := Exchange(Halves(b.l, Right18(b.r)), 0x33333333);
    var d := Exchange(Halves(c.l, Right6(c.r)), 0x00ff00ff);
    Exchange(Halves(d.l, Left9(d.r)), 0xaaaaaaaa)
  }

  function Initial(s: Halves): Halves {
    var e := Exchanged(s);
    Halves(Left1(e.l), e.r)
  }

  /** The inverse, on halves that are not exchanged. */
  function Final(s: Halves): Halves {
    var e := Exchange(Halves(Right1(s.l), s.r), 0xaaaaaaaa);
    var d := Exchange(Halves(e.l, Right9(e.r)), 0x00ff00ff);
    var c := Exchange(Halves(d.l, Left6(d.r)), 0x33333333);
    var b := Exchange(Halves(c.l, Left18(c.r)), 0xffff0000);
    var a := Exchange(Halves(b.l, Left20(b.r)), 0xf0f0f0f0);
    Halves(a.l, Right4(a.r))
  }

  lemma InitialOfFinal(s: Halves)
    ensures Initial(Final(s)) == s
  {
    hide Exchange, Left1, Right1, Left4, Right4, Left6, Right6, Left9, Right9, Left18, Right18, Left20, Right20;
    var e := Exchange(Halves(Right1(s.l), s.r), 0xaaaaaaaa);
    var d := Exchange(Halves(e.l, Right9(e.r)), 0x00ff00ff);
    var c := Exchange(Halves(d.l, Left6(d.r)), 0x33333333);
    var b := Exchange(Halves(c.l, Left18(c.r)), 0xffff0000);
    var a := Exchange(Halves(b.l, Left20(b.r)), 0xf0f0f0f0);
    Rotate4(a.r);
    ExchangeTwice(Halves(b.l, Left20(b.r)), 0xf0f0f0f0);
    Rotate20(b.r);
    ExchangeTwice(Halves(c.l, Left18(c.r)), 0xffff0000);
    Rotate18(c.r);
    ExchangeTwice(Halves(d.l, Left6(d.r)), 0x33333333);
    Rotate6(d.r);
    ExchangeTwice(Halves(e.l, Right9(e.r)), 0x00ff00ff);
    Rotate9(e.r);
    ExchangeTwice(Halves(Right1(s.l), s.r), 0xaaaaaaaa);
    Rotate1(s.l);
  }

  lemma FinalOfInitial(s: Halves)
    ensures Final(Initial(s)) == s
  {
    hide Exchange, Left1, Right1, Left4, Right4, Left6, Right6, Left9, Right9, Left18, Right18, Left20, Right20;
    var a := Exchange(Halves(s.l, Left4(s.r)), 0xf0f0f0f0);
    var b := Exchange(Halves(a.l, Right20(a.r)), 0xffff0000);
    var c := Exchange(Halves(b.l, Right18(b.r)), 0x33333333);
    var d := Exchange(Halves(c.l, Right6(c.r)), 0x00ff00ff);
    var e := Exchange(Halves(d.l, Left9(d.r)), 0xaaaaaaaa);
    Rotate1(e.l);
    ExchangeTwice(Halves(d.l, Left9(d.r)), 0xaaaaaaaa);
    Rotate9(d.r);
    ExchangeTwice(Halves(c.l, Right6(c.r)), 0x00ff00ff);
    Rotate6(c.r);
    ExchangeTwice(Halves(b.l, Right18(b.r)), 0x33333333);
    Rotate18(b.r);
    ExchangeTwice(Halves(a.l, Right20(a.r)), 0xffff0000);
    Rotate20(a.r);
    ExchangeTwice(Halves(s.l, Left4(s.r)), 0xf0f0f0f0);
    Rotate4(s.r);
  }

  // ---------- The permutation IP of FIPS 46-3 ----------

  /** Bit i of a word, from the left and from zero. */
  function Bit(w: Word, i: Word): Word
    requires i < 32
  {
    (w >> (31 - i)) & 1
  }

  function InputBit(s: Halves, n: Word): Word
    requires n < 64
  {
    if n < 32 then Bit(s.l, n) else Bit(s.r, n - 32)
  }

  /** The table IP, from zero: its rows start with bits 58, 60, 62, 64, 57, 59, 61 and 63 and go
      down by 8. */
  function IP(i: Word): (n: Word)
    requires i < 64
    ensures n < 64
  {
    8 * (7 - (i & 7)) + if i < 32 then 2 * (i >> 3) + 1 else 2 * ((i >> 3) - 4)
  }

  /** Eight entries from i on, counted from one as in the standard. */
  predicate Row(i: Word, a: Word, b: Word, c: Word, d: Word, e: Word, f: Word, g: Word, h: Word)
    requires i < 57
  {
    && IP(i) + 1 == a && IP(i + 1) + 1 == b && IP(i + 2) + 1 == c && IP(i + 3) + 1 == d
    && IP(i + 4) + 1 == e && IP(i + 5) + 1 == f && IP(i + 6) + 1 == g && IP(i + 7) + 1 == h
  }

  lemma RowOfIP(i: Word)
    requires i < 64 && i & 7 == 0
    ensures var a := IP(i) + 1; Row(i, a, a - 8, a - 16, a - 24, a - 32, a - 40, a - 48, a - 56)
  {
  }

  /** The table as FIPS 46-3 prints it, left half of the result and right half. */
  lemma LeftTable()
    ensures Row(0, 58, 50, 42, 34, 26, 18, 10, 2)
    ensures Row(8, 60, 52, 44, 36, 28, 20, 12, 4)
    ensures Row(16, 62, 54, 46, 38, 30, 22, 14, 6)
    ensures Row(24, 64, 56, 48, 40, 32, 24, 16, 8)
  {
    hide Row;
    RowOfIP(0);
    RowOfIP(8);
    RowOfIP(16);
    RowOfIP(24);
  }

  lemma RightTable()
    ensures Row(32, 57, 49, 41, 33, 25, 17, 9, 1)
    ensures Row(40, 59, 51, 43, 35, 27, 19, 11, 3)
    ensures Row(48, 61, 53, 45, 37, 29, 21, 13, 5)
    ensures Row(56, 63, 55, 47, 39, 31, 23, 15, 7)
  {
    hide Row;
    RowOfIP(32);
    RowOfIP(40);
    RowOfIP(48);
    RowOfIP(56);
  }

  /** t is IP of s with each half rotated left by one bit. */
  ghost predicate Permuted(s: Halves, t: Halves) {
    forall i: Word :: i < 32 ==> Bit(Right1(t.l), i) == InputBit(s, IP(i)) && Bit(Right1(t.r), i) == InputBit(s, IP(32 + i))
  }

  lemma LeftBits(s: Halves, i: Word)
    requires i < 32
    ensures Bit(Exchanged(s).l, i) == InputBit(s, IP(i))
  {
  }

  lemma RotatedBit(w: Word, i: Word)
    requires i < 32
    ensures Bit(Right1(w), i) == Bit(w, (i - 1) & 31)
  {
  }

  lemma RightBits(s: Halves, i: Word)
    requires i < 32
    ensures Bit(Exchanged(s).r, (i - 1) & 31) == InputBit(s, IP(32 + i))
  {
  }

  lemma InitialIsIP(s: Halves)
    ensures Permuted(s, Initial(s))
  {
    hide Exchanged, Bit, InputBit, IP, Left1, Right1;
    Rotate1(Exchanged(s).l);
    forall i: Word | i < 32
      ensures Bit(Right1(Initial(s).l), i) == InputBit(s, IP(i)) && Bit(Right1(Initial(s).r), i) == InputBit(s, IP(32 + i))
    {
      LeftBits(s, i);
      RightBits(s, i);
      RotatedBit(Exchanged(s).r, i);
    }
  }

  /** `IPERM`. */
  method IPERM(left: Word, right: Word) returns (l: Word, r: Word)
    ensures Halves(l, r) == Initial(Halves(left, right))
    ensures Permuted(Halves(left, right), Halves(l, r))
  {
    hide Permuted;
    InitialIsIP(Halves(left, right));
    hide Xor, Work, Left1, Right1, Left4, Right4, Left6, Right6, Left9, Right9, Left18, Right18, Left20, Right20;
    var work;
    l, r := left, right;
    r := Left4(r);
    work := Work(l, r, 0xf0f0f0f0);
    l := Xor(l, work);
    r := Right20(Xor(r, work));
    work := Work(l, r, 0xffff0000);
    l := Xor(l, work);
    r := Right18(Xor(r, work));
    work := Work(l, r, 0x33333333);
    l := Xor(l, work);
    r := Right6(Xor(r, work));
    work := Work(l, r, 0x00ff00ff);
    l := Xor(l, work);
    r := Left9(Xor(r, work));
    work := Work(l, r, 0xaaaaaaaa);
    l := Left1(Xor(l, work));
    r := Xor(r, work);
  }

  /** `FPERM`: with the halves exchanged it finds what IP was applied to. */
  method FPERM(left: Word, right: Word) returns (l: Word, r: Word)
    ensures Halves(r, l) == Final(Halves(right, left))
    ensures Permuted(Halves(r, l), Halves(right, left))
  {
    hide Permuted, Initial, Exchanged;
    InitialOfFinal(Halves(right, left));
    InitialIsIP(Final(Halves(right, left)));
    hide Xor, Work, Left1, Right1, Left4, Right4, Left6, Right6, Left9, Right9, Left18, Right18, Left20, Right20;
    WorkCommutes();
    var work;
    l, r := left, right;
    r := Right1(r);
    work := Work(l, r, 0xaaaaaaaa);
    r := Xor(r, work);
    l := Right9(Xor(l, work));
    work := Work(l, r, 0x00ff00ff);
    r := Xor(r, work);
    l := Left6(Xor(l, work));
    work := Work(l, r, 0x33333333);
    r := Xor(r, work);
    l := Left18(Xor(l, work));
    work := Work(l, r, 0xffff0000);
    r := Xor(r, work);
    l := Left20(Xor(l, work));
    work := Work(l, r, 0xf0f0f0f0);
    r := Xor(r, work);
    l := Right4(Xor(l, work));
  }

  lemma WorkCommutes()
    ensures forall l, r, mask :: Work(l, r, mask) == Work(r, l, mask)
  {
  }

  // ---------- The rounds ----------

  /** The tables of `Spbox`, by number and index, and the masks and shifts that find an index. */
  type Boxes = (nat, Word) -> Word

  function Lookup(sp: Boxes, work: Word, first: nat): Word {
    Xor(Xor(Xor(sp(first + 6, work & 0x3f), sp(first + 4, (work >> 8) & 0x3f)),
            sp(first + 2, (work >> 16) & 0x3f)), sp(first, (work >> 24) & 0x3f))
  }

  /** What round i adds to one half, from the other half x. */
  function Round(sp: Boxes, k: seq<Word>, i: nat, x: Word): Word
    requires |k| == 32
  {
    if i < 16 then Xor(Lookup(sp, Xor(Right4(x), k[2 * i]), 0), Lookup(sp, Xor(x, k[2 * i + 1]), 1)) else 0
  }

  function Rounds(sp: Boxes, k: seq<Word>): (nat, Word) -> Word
    requires |k| == 32
  {
    (i: nat, x: Word) => Round(sp, k, i, x)
  }

  function Raw(sp: Boxes, k: seq<Word>, s: Halves): Halves
    requires |k| == 32
  {
    Feistel(Rounds(sp, k), 16, s)
  }

  /** The pairs of keys in reverse order. */
  ghost predicate Reversed<T>(k: seq<T>, k': seq<T>) {
    |k| == |k'| == 32 && forall i :: 0 <= i < 16 ==> k'[2 * i] == k[30 - 2 * i] && k'[2 * i + 1] == k[31 - 2 * i]
  }

  lemma ReversedBack(k: seq<Word>, k': seq<Word>)
    requires Reversed(k, k')
    ensures Reversed(k', k)
  {
    forall i | 0 <= i < 16 ensures k[2 * i] == k'[30 - 2 * i] && k[2 * i + 1] == k'[31 - 2 * i] {
      var j := 15 - i;
      assert k'[2 * j] == k[30 - 2 * j];
    }
  }

  lemma RawInverse(sp: Boxes, k: seq<Word>, k': seq<Word>, s: Halves)
    requires Reversed(k, k')
    ensures Raw(sp, k', Raw(sp, k, s).Swapped()) == s.Swapped()
  {
    hide Feistel, Lookup, Xor, Right4;
    var f, g := Rounds(sp, k), Rounds(sp, k');
    forall i, x | 0 <= i < 16 ensures g(i, x) == f(15 - i, x) {
      assert k'[2 * i] == k[30 - 2 * i] && k'[2 * i + 1] == k[31 - 2 * i];
    }
    Inverse(f, g, 16, s);
  }

  datatype CipherDir = ENCRYPTION | DECRYPTION

  function Reverse(dir: CipherDir): CipherDir {
    if dir.ENCRYPTION? then DECRYPTION else ENCRYPTION
  }

  /** The keys that a direction uses. */
  ghost predicate KeysFor(schedule: seq<Word>, dir: CipherDir, k: seq<Word>) {
    |k| == |schedule| == 32 && if dir.ENCRYPTION? then k == schedule else Reversed(schedule, k)
  }

  lemma DirectionsReverse(schedule: seq<Word>, dir: CipherDir, k: seq<Word>, k': seq<Word>)
    requires KeysFor(schedule, dir, k) && KeysFor(schedule, Reverse(dir), k')
    ensures Reversed(k, k')
  {
    if dir.DECRYPTION? { ReversedBack(schedule, k); }
  }

  class RawDES {
    const k: array<Word>
    const sp: Boxes

    constructor (sp: Boxes)
      ensures k.Length == 32 && fresh(k) && this.sp == sp
    {
      k := new Word[32];
      this.sp := sp;
    }

    /** `RawSetKey`, given the words that the key schedule computes. */
    method RawSetKey(dir: CipherDir, schedule: seq<Word>)
      requires k.Length == 32 && |schedule| == 32
      modifies k
      ensures KeysFor(schedule, dir, k[..])
    {
      forall i | 0 <= i < 32 {
        k[i] := schedule[i];
      }
      if dir == DECRYPTION {
        ReverseKeys(k);
      }
    }

    /** `RawProcessBlock`. */
    method RawProcessBlock(l0: Word, r0: Word) returns (l: Word, r: Word)
      requires k.Length == 32
      ensures Halves(l, r) == Raw(sp, k[..], Halves(l0, r0))
    {
      hide Feistel, Lookup, Xor, Right4;
      l, r := l0, r0;
      ghost var f := Rounds(sp, k[..]);
      NoRounds(f, Halves(l0, r0));
      for i := 0 to 8
        invariant Halves(l, r) == Feistel(f, 2 * i, Halves(l0, r0))
      {
        TwoRounds(f, 2 * i, Halves(l0, r0));
        var work := Xor(Right4(r), k[4 * i]);
        XorAssociates(l, Lookup(sp, Xor(Right4(r), k[4 * i]), 0), Lookup(sp, Xor(r, k[4 * i + 1]), 1));
        l := Xor(l, Lookup(sp, work, 0));
        work := Xor(r, k[4 * i + 1]);
        l := Xor(l, Lookup(sp, work, 1));

        work := Xor(Right4(l), k[4 * i + 2]);
        XorAssociates(r, Lookup(sp, Xor(Right4(l), k[4 * i + 2]), 0), Lookup(sp, Xor(l, k[4 * i + 3]), 1));
        r := Xor(r, Lookup(sp, work, 0));
        work := Xor(l, k[4 * i + 3]);
        r := Xor(r, Lookup(sp, work, 1));
      }
    }
  }

  /** The loop that exchanges pairs of keys. */
  method ReverseKeys<T>(k: array<T>)
    requires k.Length == 32
    modifies k
    ensures Reversed(old(k[..]), k[..])
  {
    ghost var was := k[..];
    var i := 0;
    while i < 16
      invariant 0 <= i <= 16 && i % 2 == 0
      invariant forall j {:trigger k[j]} :: 0 <= j < 32 ==> k[j] == was[if j < i || 32 - i <= j then Opposite(j) else j]
    {
      OppositePair(i);
      Swap(k, i, 32 - 2 - i);
      Swap(k, i + 1, 32 - 1 - i);
      i := i + 2;
    }
    OppositeReverses(was, k[..]);
  }

  lemma OppositePair(i: nat)
    requires i < 16 && i % 2 == 0
    ensures Opposite(i) == 30 - i && Opposite(i + 1) == 31 - i && Opposite(30 - i) == i && Opposite(31 - i) == i + 1
  {
  }

  lemma OppositeReverses<T>(k: seq<T>, k': seq<T>)
    requires |k| == |k'| == 32 && forall j :: 0 <= j < 32 ==> k'[j] == k[Opposite(j)]
    ensures Reversed(k, k')
  {
    forall i | 0 <= i < 16 ensures k'[2 * i] == k[30 - 2 * i] && k'[2 * i + 1] == k[31 - 2 * i] {
      assert Opposite(2 * i) == 30 - 2 * i && Opposite(2 * i + 1) == 31 - 2 * i;
    }
  }

  /** The same half of the opposite pair. */
  function Opposite(j: nat): nat
    requires j < 32
    ensures Opposite(j) < 32
  {
    if j % 2 == 0 then 30 - j else 32 - j
  }

  // ---------- The ciphers ----------

  function Single(sp: Boxes, k: seq<Word>, s: Halves): Halves
    requires |k| == 32
  {
    Final(Raw(sp, k, Initial(s)).Swapped())
  }

  function Triple(sp: Boxes, k1: seq<Word>, k2: seq<Word>, k3: seq<Word>, s: Halves): Halves
    requires |k1| == |k2| == |k3| == 32
  {
    var a := Raw(sp, k1, Initial(s));
    var b := Raw(sp, k2, a.Swapped()).Swapped();
    Final(Raw(sp, k3, b).Swapped())
  }

  lemma SingleInverse(sp: Boxes, k: seq<Word>, k': seq<Word>, s: Halves)
    requires Reversed(k, k')
    ensures Single(sp, k', Single(sp, k, s)) == s
  {
    hide Raw, Initial, Final;
    InitialOfFinal(Raw(sp, k, Initial(s)).Swapped());
    RawInverse(sp, k, k', Initial(s));
    FinalOfInitial(s);
  }

  lemma TripleInverse(sp: Boxes, k1: seq<Word>, k2: seq<Word>, k3: seq<Word>,
                      k1': seq<Word>, k2': seq<Word>, k3': seq<Word>, s: Halves)
    requires Reversed(k1, k1') && Reversed(k2, k2') && Reversed(k3, k3')
    ensures Triple(sp, k3', k2', k1', Triple(sp, k1, k2, k3, s)) == s
  {
    hide Raw, Initial, Final;
    var a := Raw(sp, k1, Initial(s));
    var b := Raw(sp, k2, a.Swapped()).Swapped();
    InitialOfFinal(Raw(sp, k3, b).Swapped());
    RawInverse(sp, k3, k3', b);
    RawInverse(sp, k2, k2', a.Swapped());
    RawInverse(sp, k1, k1', Initial(s));
    FinalOfInitial(s);
  }

  /** `DES::Base::ProcessAndXorBlock`, without the mask. */
  method ProcessBlock(des: RawDES, block: Halves) returns (out: Halves)
    requires des.k.Length == 32
    ensures out == Single(des.sp, des.k[..], block)
  {
    hide Raw, Initial, Final;
    var l, r := IPERM(block.l, block.r);
    l, r := des.RawProcessBlock(l, r);
    l, r := FPERM(l, r);
    return Halves(r, l);
  }

  /** `DES_EDE3::Base::ProcessAndXorBlock`; that of `DES_EDE2` has the first object also as the third. */
  method ProcessBlock3(des1: RawDES, des2: RawDES, des3: RawDES, block: Halves) returns (out: Halves)
    requires des1.k.Length == des2.k.Length == des3.k.Length == 32 && des1.sp == des2.sp == des3.sp
    ensures out == Triple(des1.sp, des1.k[..], des2.k[..], des3.k[..], block)
  {
    hide Raw, Initial, Final;
    var l, r := IPERM(block.l, block.r);
    l, r := des1.RawProcessBlock(l, r);
    r, l := des2.RawProcessBlock(r, l);
    l, r := des3.RawProcessBlock(l, r);
    l, r := FPERM(l, r);
    return Halves(r, l);
  }

  /** Decryption undoes encryption, for every block, S-boxes and key schedule. */
  method RoundTrip(sp: Boxes, schedule: seq<Word>, dir: CipherDir, block: Halves) returns (out: Halves)
    requires |schedule| == 32
    ensures out == block
  {
    hide Single;
    var des, des' := KeyPair(sp, schedule, dir);
    out := ProcessBlock(des, block);
    SingleInverse(sp, des.k[..], des'.k[..], block);
    out := ProcessBlock(des', out);
  }

  method KeyPair(sp: Boxes, schedule: seq<Word>, dir: CipherDir) returns (des: RawDES, des': RawDES)
    requires |schedule| == 32
    ensures des.k.Length == des'.k.Length == 32 && des.sp == des'.sp == sp && fresh(des.k) && fresh(des'.k)
    ensures Reversed(des.k[..], des'.k[..])
  {
    hide Reversed;
    des := new RawDES(sp);
    des' := new RawDES(sp);
    des.RawSetKey(dir, schedule);
    ghost var k := des.k[..];
    des'.RawSetKey(Reverse(dir), schedule);
    DirectionsReverse(schedule, dir, k, des'.k[..]);
  }

  /** `UncheckedSetKey` of `DES_EDE3`, for both directions: the order of the keys changes too.
      With the first schedule for the third this is `DES_EDE2`. */
  method RoundTrip3(sp: Boxes, schedule1: seq<Word>, schedule2: seq<Word>, schedule3: seq<Word>, dir: CipherDir, block: Halves)
      returns (out: Halves)
    requires |schedule1| == |schedule2| == |schedule3| == 32
    ensures out == block
  {
    hide Triple;
    var des1, des1' := KeyPair(sp, schedule1, dir);
    var des2, des2' := KeyPair(sp, schedule2, Reverse(dir));
    var des3, des3' := KeyPair(sp, schedule3, dir);
    out := ProcessBlock3(des1, des2, des3, block);
    TripleInverse(sp, des1.k[..], des2.k[..], des3.k[..], des1'.k[..], des2'.k[..], des3'.k[..], block);
    out := ProcessBlock3(des3', des2', des1', out);
  }
}
