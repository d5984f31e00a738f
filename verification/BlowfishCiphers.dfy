/** Blowfish (blowfish.cpp) on blocks of two words, with any tables and any expanded key. */
module BlowfishCiphers {
  import opened Feistels

  /** The four parts of `sbox`, by number and index. */
  type Boxes = (nat, Word) -> Word

  function Mix(s: Boxes, x: Word): Word {
    ((s(0, (x >> 24) & 0xff) + s(1, (x >> 16) & 0xff)) ^ s(2, (x >> 8) & 0xff)) + s(3, x & 0xff)
  }

  function Rounds(s: Boxes, pbox: seq<Word>): (nat, Word) -> Word
    requires |pbox| == 18
  {
    (i: nat, x: Word) => if i < 16 then Xor(Mix(s, x), pbox[i + 1]) else 0
  }

  function Crypt(s: Boxes, pbox: seq<Word>, block: Halves): Halves
    requires |pbox| == 18
  {
    var t := Feistel(Rounds(s, pbox), 16, Halves(block.r, Xor(block.l, pbox[0])));
    Halves(Xor(t.l, pbox[17]), t.r)
  }

  ghost predicate Reversed<T>(p: seq<T>, p': seq<T>) {
    |p| == |p'| == 18 && forall i :: 0 <= i < 18 ==> p'[i] == p[17 - i]
  }

  /** The reversed array of round keys inverts the cipher, whitening included. */
  lemma CryptInverse(s: Boxes, p: seq<Word>, p': seq<Word>, block: Halves)
    requires Reversed(p, p')
    ensures Crypt(s, p', Crypt(s, p, block)) == block
  {
    hide Feistel, Mix, Xor;
    var f, g := Rounds(s, p), Rounds(s, p');
    forall i, x | 0 <= i < 16 ensures g(i, x) == f(15 - i, x) {
      assert p'[i + 1] == p[15 - i + 1];
    }
    var start := Halves(block.r, Xor(block.l, p[0]));
    var t := Feistel(f, 16, start);
    Inverse(f, g, 16, start);
    XorCancels(t.l, p[17]);
    XorCancels(block.l, p[0]);
  }

  class Blowfish {
    const pbox: array<Word>
    const s: Boxes

    /** `UncheckedSetKey`, given the words that it computes. */
    constructor (s: Boxes, expanded: seq<Word>, forward: bool)
      requires |expanded| == 18
      ensures pbox.Length == 18 && fresh(pbox) && this.s == s
      ensures if forward then pbox[..] == expanded else Reversed(expanded, pbox[..])
    {
      pbox := new Word[18](i requires 0 <= i < 18 => expanded[i]);
      this.s := s;
      new;
      assert pbox[..] == expanded;
      if !forward {
        ReverseAll(pbox);
      }
    }

    /** `ProcessAndXorBlock`, without the mask. */
    method ProcessBlock(block: Halves) returns (out: Halves)
      requires pbox.Length == 18
      ensures out == Crypt(s, pbox[..], block)
    {
      hide Feistel, Mix, Xor;
      var left, right := block.l, block.r;
      ghost var f := Rounds(s, pbox[..]);
      left := Xor(left, pbox[0]);
      ghost var start := Halves(right, left);
      NoRounds(f, start);
      for i := 0 to 8
        invariant Halves(right, left) == Feistel(f, 2 * i, start)
      {
        TwoRounds(f, 2 * i, start);
        right := Xor(right, Xor(Mix(s, left), pbox[2 * i + 1]));
        left := Xor(left, Xor(Mix(s, right), pbox[2 * i + 2]));
      }
      right := Xor(right, pbox[17]);
      return Halves(right, left);
    }
  }

  method ReverseAll<T>(p: array<T>)
    requires p.Length == 18
    modifies p
    ensures Reversed(old(p[..]), p[..])
  {
    ghost var was := p[..];
    for i := 0 to 9
      invariant forall j {:trigger p[j]} :: 0 <= j < 18 ==> p[j] == was[if j < i || 18 - i <= j then 17 - j else j]
    {
      Swap(p, i, 17 - i);
    }
  }

  /** Decryption undoes encryption, for every block, tables and expanded key. */
  method RoundTrip(s: Boxes, expanded: seq<Word>, block: Halves) returns (out: Halves)
    requires |expanded| == 18
    ensures out == block
  {
    hide Crypt, Reversed;
    var encryption := new Blowfish(s, expanded, true);
    var decryption := new Blowfish(s, expanded, false);
    out := encryption.ProcessBlock(block);
    CryptInverse(s, expanded, decryption.pbox[..], block);
    out := decryption.ProcessBlock(out);
  }

  // ---------- With tables of zeros ----------

  function Zero(): Boxes {
    (n: nat, x: Word) => 0
  }

  lemma ZeroRound(p: seq<Word>, i: nat, x: Word)
    requires |p| == 18 && i < 16
    ensures Rounds(Zero(), p)(i, x) == p[i + 1]
  {
    assert Mix(Zero(), x) == 0;
    XorNothing(p[i + 1]);
  }

  lemma XorNothing(x: Word)
    ensures Xor(0, x) == x
  {
  }

  lemma TwoZeroRounds(p: seq<Word>, n: nat, s: Halves)
    requires |p| == 18 && n <= 14
    ensures
      var f := Rounds(Zero(), p);
      var t := Feistel(f, n, s);
      Feistel(f, n + 2, s) == Halves(Xor(t.l, p[n + 1]), Xor(t.r, p[n + 2]))
  {
    hide Feistel, Xor, Rounds;
    var f := Rounds(Zero(), p);
    var t := Feistel(f, n, s);
    TwoRounds(f, n, s);
    ZeroRound(p, n, t.r);
    ZeroRound(p, n + 1, Xor(t.l, f(n, t.r)));
  }

  /** x with the words of p from `first` on, every other one, n of them. */
  function EveryOther(x: Word, p: seq<Word>, first: nat, n: nat): Word
    requires n > 0 ==> first + 2 * n <= |p| + 1
  {
    if n == 0 then x else Xor(EveryOther(x, p, first, n - 1), p[first + 2 * (n - 1)])
  }

  lemma {:induction false} ZeroRounds(p: seq<Word>, s: Halves, j: nat)
    requires |p| == 18 && j <= 8
    ensures Feistel(Rounds(Zero(), p), 2 * j, s) == Halves(EveryOther(s.l, p, 1, j), EveryOther(s.r, p, 2, j))
  {
    hide Xor, Rounds, Feistel;
    if j == 0 {
      NoRounds(Rounds(Zero(), p), s);
    } else {
      ZeroRounds(p, s, j - 1);
      TwoZeroRounds(p, 2 * j - 2, s);
    }
  }

  /** Each round key is used once: those with even numbers, from the first to the sixteenth, for
      the left half, those with odd numbers, up to the seventeenth, for the right half; then the
      halves change places. */
  method ZeroTables(p: seq<Word>, block: Halves) returns (out: Halves)
    requires |p| == 18
    ensures out.l == EveryOther(block.r, p, 1, 9) && out.r == EveryOther(block.l, p, 0, 9)
  {
    hide Feistel, Rounds, Xor, EveryOther;
    var blowfish := new Blowfish(Zero(), p, true);
    ZeroRounds(p, Halves(block.r, Xor(block.l, p[0])), 8);
    LastKey(block.r, p);
    FirstKey(block.l, p, 8);
    out := blowfish.ProcessBlock(block);
  }

  lemma LastKey(x: Word, p: seq<Word>)
    requires |p| == 18
    ensures EveryOther(x, p, 1, 9) == Xor(EveryOther(x, p, 1, 8), p[17])
  {
  }

  lemma {:induction false} FirstKey(x: Word, p: seq<Word>, n: nat)
    requires |p| == 18 && n <= 8
    ensures EveryOther(x, p, 0, n + 1) == EveryOther(Xor(x, p[0]), p, 2, n)
  {
    hide Xor;
    if n > 0 {
      FirstKey(x, p, n - 1);
    }
  }
}
