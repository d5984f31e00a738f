/** CAST-128 and CAST-256 (cast.cpp) on blocks of words, with any S-boxes and any round keys. */
module CastCiphers {
  import opened Feistels

  /** The tables S by number and index, and `rotlVariable`. */
  datatype Cast = Cast(S: (nat, Word) -> Word, rotl: (Word, Word) -> Word) {
    function Box(i: nat, t: Word): Word {
      S(i, (t >> (match i case 0 => 24 case 1 => 16 case 2 => 8 case _ => 0)) & 0xff)
    }

    function f1(r: Word, km: Word, kr: Word): Word {
      var t := rotl(km + r, kr);
      ((Box(0, t) ^ Box(1, t)) - Box(2, t)) + Box(3, t)
    }

    function f2(r: Word, km: Word, kr: Word): Word {
      var t := rotl(km ^ r, kr);
      ((Box(0, t) - Box(1, t)) + Box(2, t)) ^ Box(3, t)
    }

    function f3(r: Word, km: Word, kr: Word): Word {
      var t := rotl(km - r, kr);
      ((Box(0, t) + Box(1, t)) ^ Box(2, t)) - Box(3, t)
    }

    /** Round i uses the three functions in turn. */
    function Round(K: seq<Word>, i: nat, x: Word): Word
      requires |K| == 32
    {
      if i >= 16 then 0
      else if i % 3 == 0 then f1(x, K[i], K[i + 16])
      else if i % 3 == 1 then f2(x, K[i], K[i + 16])
      else f3(x, K[i], K[i + 16])
    }

    function Rounds(K: seq<Word>): (nat, Word) -> Word
      requires |K| == 32
    {
      (i: nat, x: Word) => Round(K, i, x)
    }

    function Backwards(K: seq<Word>, n: nat): (nat, Word) -> Word
      requires |K| == 32
    {
      (i: nat, x: Word) => if i < n then Round(K, n - 1 - i, x) else 0
    }
  }

  // ---------- CAST-128 ----------

  /** Twelve rounds for keys of up to 80 bits. */
  function Count(reduced: bool): nat {
    if reduced then 12 else 16
  }

  function Encrypted(c: Cast, K: seq<Word>, reduced: bool, block: Halves): Halves
    requires |K| == 32
  {
    Feistel(c.Rounds(K), Count(reduced), block).Swapped()
  }

  function Decrypted(c: Cast, K: seq<Word>, reduced: bool, block: Halves): Halves
    requires |K| == 32
  {
    Feistel(c.Backwards(K, Count(reduced)), Count(reduced), block).Swapped()
  }

  lemma Cast128Inverse(c: Cast, K: seq<Word>, reduced: bool, block: Halves)
    requires |K| == 32
    ensures Decrypted(c, K, reduced, Encrypted(c, K, reduced, block)) == block
  {
    hide Feistel, Cast.Round;
    var n := Count(reduced);
    Inverse(c.Rounds(K), c.Backwards(K, n), n, block);
  }

  /** Which function a round has. */
  lemma RoundsInTurn(c: Cast, K: seq<Word>, i: nat)
    requires |K| == 32 && i % 3 == 0 && i < 16
    ensures forall j, x :: i <= j < i + 3 && j < 16 ==>
      c.Round(K, j, x) == (if j == i then c.f1(x, K[j], K[j + 16])
                           else if j == i + 1 then c.f2(x, K[j], K[j + 16]) else c.f3(x, K[j], K[j + 16]))
  {
    hide Cast.f1, Cast.f2, Cast.f3;
  }

  /** Six rounds of `CAST128::Enc::ProcessAndXorBlock`, from round i on. */
  method SixRounds(c: Cast, K: array<Word>, i: nat, l0: Word, r0: Word, ghost block: Halves) returns (l: Word, r: Word)
    requires K.Length == 32 && (i == 0 || i == 6)
    requires Halves(l0, r0) == Feistel(c.Rounds(K[..]), i, block)
    ensures Halves(l, r) == Feistel(c.Rounds(K[..]), i + 6, block)
  {
    hide Feistel, Xor, Cast.Round, Cast.f1, Cast.f2, Cast.f3;
    ghost var f := c.Rounds(K[..]);
    RoundsInTurn(c, K[..], i);
    RoundsInTurn(c, K[..], i + 3);
    l, r := l0, r0;
    l := Xor(l, c.f1(r, K[i], K[i + 16]));
    r := Xor(r, c.f2(l, K[i + 1], K[i + 17]));
    TwoRounds(f, i, block);
    l := Xor(l, c.f3(r, K[i + 2], K[i + 18]));
    r := Xor(r, c.f1(l, K[i + 3], K[i + 19]));
    TwoRounds(f, i + 2, block);
    l := Xor(l, c.f2(r, K[i + 4], K[i + 20]));
    r := Xor(r, c.f3(l, K[i + 5], K[i + 21]));
    TwoRounds(f, i + 4, block);
  }

  /** `CAST128::Enc::ProcessAndXorBlock`, without the mask. */
  method Encrypt128(c: Cast, K: array<Word>, reduced: bool, block: Halves) returns (out: Halves)
    requires K.Length == 32
    ensures out == Encrypted(c, K[..], reduced, block)
  {
    hide Feistel, Xor, Cast.Round, Cast.f1, Cast.f2, Cast.f3;
    ghost var f := c.Rounds(K[..]);
    var l, r := block.l, block.r;
    NoRounds(f, block);
    l, r := SixRounds(c, K, 0, l, r, block);
    l, r := SixRounds(c, K, 6, l, r, block);
    if !reduced {
      RoundsInTurn(c, K[..], 12);
      RoundsInTurn(c, K[..], 15);
      l := Xor(l, c.f1(r, K[12], K[28]));
      r := Xor(r, c.f2(l, K[13], K[29]));
      TwoRounds(f, 12, block);
      l := Xor(l, c.f3(r, K[14], K[30]));
      r := Xor(r, c.f1(l, K[15], K[31]));
      TwoRounds(f, 14, block);
    }
    return Halves(r, l);
  }

  /** Two rounds backwards, the first of them round i. */
  lemma TwoRoundsBack(c: Cast, K: seq<Word>, i: nat, n: nat, block: Halves)
    requires |K| == 32 && 1 <= i < n
    ensures
      var g, j := c.Backwards(K, n), n - 1 - i;
      var t := Feistel(g, j, block);
      var l := Xor(t.l, c.Round(K, i, t.r));
      Feistel(g, j + 2, block) == Halves(l, Xor(t.r, c.Round(K, i - 1, l)))
  {
    hide Feistel, Xor, Cast.Round;
    TwoRounds(c.Backwards(K, n), n - 1 - i, block);
  }

  /** Six rounds of `CAST128::Dec::ProcessAndXorBlock`, from round i + 5 down. */
  method SixRoundsBack(c: Cast, K: array<Word>, i: nat, n: nat, r0: Word, l0: Word, ghost block: Halves)
      returns (r: Word, l: Word)
    requires K.Length == 32 && (i == 0 || i == 6) && (n == 12 || n == 16)
    requires Halves(r0, l0) == Feistel(c.Backwards(K[..], n), n - 6 - i, block)
    ensures Halves(r, l) == Feistel(c.Backwards(K[..], n), n - i, block)
  {
    hide Feistel, Xor, Cast.Round, Cast.f1, Cast.f2, Cast.f3, Cast.Backwards;
    RoundsInTurn(c, K[..], i);
    RoundsInTurn(c, K[..], i + 3);
    r, l := r0, l0;
    r := Xor(r, c.f3(l, K[i + 5], K[i + 21]));
    l := Xor(l, c.f2(r, K[i + 4], K[i + 20]));
    TwoRoundsBack(c, K[..], i + 5, n, block);
    r := Xor(r, c.f1(l, K[i + 3], K[i + 19]));
    l := Xor(l, c.f3(r, K[i + 2], K[i + 18]));
    TwoRoundsBack(c, K[..], i + 3, n, block);
    r := Xor(r, c.f2(l, K[i + 1], K[i + 17]));
    l := Xor(l, c.f1(r, K[i], K[i + 16]));
    TwoRoundsBack(c, K[..], i + 1, n, block);
  }

  /** `CAST128::Dec::ProcessAndXorBlock`, without the mask. */
  method Decrypt128(c: Cast, K: array<Word>, reduced: bool, block: Halves) returns (out: Halves)
    requires K.Length == 32
    ensures out == Decrypted(c, K[..], reduced, block)
  {
    hide Feistel, Xor, Cast.Round, Cast.f1, Cast.f2, Cast.f3;
    var n := Count(reduced);
    ghost var g := c.Backwards(K[..], n);
    var r, l := block.l, block.r;
    NoRounds(g, block);
    if !reduced {
      RoundsInTurn(c, K[..], 12);
      RoundsInTurn(c, K[..], 15);
      r := Xor(r, c.f1(l, K[15], K[31]));
      l := Xor(l, c.f3(r, K[14], K[30]));
      TwoRounds(g, 0, block);
      r := Xor(r, c.f2(l, K[13], K[29]));
      l := Xor(l, c.f1(r, K[12], K[28]));
      TwoRounds(g, 2, block);
    }
    r, l := SixRoundsBack(c, K, 6, n, r, l, block);
    r, l := SixRoundsBack(c, K, 0, n, r, l, block);
    return Halves(l, r);
  }

  /** Decryption undoes encryption, for every block, tables, round keys and either length. */
  method RoundTrip128(c: Cast, K: array<Word>, reduced: bool, block: Halves) returns (out: Halves)
    requires K.Length == 32
    ensures out == block
  {
    hide Encrypted, Decrypted;
    out := Encrypt128(c, K, reduced, block);
    Cast128Inverse(c, K[..], reduced, block);
    out := Decrypt128(c, K, reduced, out);
  }

  // ---------- CAST-256 ----------

  datatype Block = Block(a: Word, b: Word, c: Word, d: Word)

  /** The eight keys of quad round i: four rotations, four masks. */
  function Group(K: seq<Word>, i: nat): (k: seq<Word>)
    requires |K| == 96 && i < 12
    ensures |k| == 8
  {
    K[8 * i..8 * i + 8]
  }

  /** A forward quad round. */
  function Q(c: Cast, k: seq<Word>, s: Block): Block
    requires |k| == 8
  {
    var z := Xor(s.c, c.f1(s.d, k[4], k[0]));
    var y := Xor(s.b, c.f2(z, k[5], k[1]));
    var x := Xor(s.a, c.f3(y, k[6], k[2]));
    Block(x, y, z, Xor(s.d, c.f1(x, k[7], k[3])))
  }

  /** A reverse quad round. */
  function QBar(c: Cast, k: seq<Word>, s: Block): Block
    requires |k| == 8
  {
    var w := Xor(s.d, c.f1(s.a, k[7], k[3]));
    var x := Xor(s.a, c.f3(s.b, k[6], k[2]));
    var y := Xor(s.b, c.f2(s.c, k[5], k[1]));
    Block(x, y, Xor(s.c, c.f1(w, k[4], k[0])), w)
  }

  lemma QuadInverse(c: Cast, k: seq<Word>, s: Block)
    requires |k| == 8
    ensures QBar(c, k, Q(c, k, s)) == s && Q(c, k, QBar(c, k, s)) == s
  {
    hide Xor, Cast.f1, Cast.f2, Cast.f3;
    var t, u := Q(c, k, s), QBar(c, k, s);
    XorCancels(s.d, c.f1(t.a, k[7], k[3]));
    XorCancels(s.a, c.f3(t.b, k[6], k[2]));
    XorCancels(s.b, c.f2(t.c, k[5], k[1]));
    XorCancels(s.c, c.f1(s.d, k[4], k[0]));
    XorCancels(s.c, c.f1(u.d, k[4], k[0]));
    XorCancels(s.b, c.f2(s.c, k[5], k[1]));
    XorCancels(s.a, c.f3(s.b, k[6], k[2]));
    XorCancels(s.d, c.f1(s.a, k[7], k[3]));
  }

  /** The first n of the twelve quad rounds: six forward, six reverse. */
  function Quads(c: Cast, K: seq<Word>, n: nat, s: Block): Block
    requires |K| == 96 && n <= 12
  {
    if n == 0 then s
    else
      var t := Quads(c, K, n - 1, s);
      if n <= 6 then Q(c, Group(K, n - 1), t) else QBar(c, Group(K, n - 1), t)
  }

  /** The place in the opposite group. */
  function Mirror(x: nat): (y: nat)
    requires x < 96
    ensures y < 96
  {
    8 * (11 - x / 8) + x % 8
  }

  /** The groups of keys in reverse order. */
  ghost predicate GroupsReversed<T>(K: seq<T>, K': seq<T>) {
    |K| == |K'| == 96 && forall x {:trigger K'[x]} :: 0 <= x < 96 ==> K'[x] == K[Mirror(x)]
  }

  lemma GroupReversed(K: seq<Word>, K': seq<Word>, i: nat)
    requires GroupsReversed(K, K') && i < 12
    ensures Group(K', i) == Group(K, 11 - i)
  {
    hide Mirror;
    forall j | 0 <= j < 8 ensures Group(K', i)[j] == Group(K, 11 - i)[j] {
      MirrorOf(i, j);
      assert K'[8 * i + j] == K[Mirror(8 * i + j)];
    }
  }

  lemma MirrorOf(i: nat, j: nat)
    requires i < 12 && j < 8
    ensures Mirror(8 * i + j) == 8 * (11 - i) + j
  {
  }

  lemma {:induction false} UndoQuads(c: Cast, K: seq<Word>, K': seq<Word>, n: nat, s: Block)
    requires GroupsReversed(K, K') && n <= 12
    ensures Quads(c, K', n, Quads(c, K, 12, s)) == Quads(c, K, 12 - n, s)
  {
    hide Q, QBar, Group, Mirror;
    if n > 0 {
      UndoQuads(c, K, K', n - 1, s);
      GroupReversed(K, K', n - 1);
      QuadInverse(c, Group(K, 12 - n), Quads(c, K, 12 - n, s));
    }
  }

  /** The loops of `CAST256::Base::UncheckedSetKey` that exchange the keys of opposite quad rounds. */
  method SwapKeys<T>(K: array<T>)
    requires K.Length == 96
    modifies K
    ensures GroupsReversed(old(K[..]), K[..])
  {
    hide From, GroupsReversed;
    ghost var was := K[..];
    FromStart(was);
    for j := 0 to 6
      invariant From(was, K[..], j, 0)
    {
      for i := 0 to 4
        invariant From(was, K[..], j, i)
      {
        SwapPair(K, j, i, was);
      }
      FromRow(was, K[..], j);
    }
    FromEnd(was, K[..]);
  }

  method SwapPair<T>(K: array<T>, j: nat, i: nat, ghost was: seq<T>)
    requires K.Length == 96 && j < 6 && i < 4 && From(was, K[..], j, i)
    modifies K
    ensures From(was, K[..], j, i + 1)
  {
    hide Source, Mirror;
    SourceNext(j, i);
    forall x: nat | x < 96 {
      SourceElsewhere(j, i, x);
    }
    Swap(K, 8 * j + i, 8 * (11 - j) + i);
    Swap(K, 8 * j + i + 4, 8 * (11 - j) + i + 4);
  }

  /** Where the element at x comes from, after j rows and i columns. */
  function Source(x: nat, j: nat, i: nat): (y: nat)
    requires x < 96 && j <= 6 && i <= 4
    ensures y < 96
  {
    var g := x / 8;
    if g < j || 11 - g < j || ((g == j || g == 11 - j) && x % 4 < i) then Mirror(x) else x
  }

  ghost predicate From<T>(K: seq<T>, K': seq<T>, j: nat, i: nat)
    requires j <= 6 && i <= 4
  {
    |K| == |K'| == 96 && forall x {:trigger K'[x]} :: 0 <= x < 96 ==> K'[x] == K[Source(x, j, i)]
  }

  lemma SourceNext(j: nat, i: nat)
    requires j < 6 && i < 4
    ensures
      var i1, i2 := 8 * j + i, 8 * (11 - j) + i;
      && Source(i1, j, i) == i1 && Source(i2, j, i) == i2 && Source(i1 + 4, j, i) == i1 + 4 && Source(i2 + 4, j, i) == i2 + 4
      && Source(i1, j, i + 1) == i2 && Source(i2, j, i + 1) == i1
      && Source(i1 + 4, j, i + 1) == i2 + 4 && Source(i2 + 4, j, i + 1) == i1 + 4
  {
  }

  lemma SourceElsewhere(j: nat, i: nat, x: nat)
    requires j < 6 && i < 4 && x < 96
    ensures
      var i1, i2 := 8 * j + i, 8 * (11 - j) + i;
      x != i1 && x != i2 && x != i1 + 4 && x != i2 + 4 ==> Source(x, j, i + 1) == Source(x, j, i)
  {
  }

  lemma FromStart<T>(K: seq<T>)
    requires |K| == 96
    ensures From(K, K, 0, 0)
  {
  }

  lemma FromRow<T>(K: seq<T>, K': seq<T>, j: nat)
    requires j < 6 && From(K, K', j, 4)
    ensures From(K, K', j + 1, 0)
  {
    forall x | 0 <= x < 96 ensures Source(x, j, 4) == Source(x, j + 1, 0) {
    }
  }

  lemma FromEnd<T>(K: seq<T>, K': seq<T>)
    requires From(K, K', 6, 0)
    ensures GroupsReversed(K, K')
  {
    forall x | 0 <= x < 96 ensures Source(x, 6, 0) == Mirror(x) {
    }
  }

  class Cast256 {
    const K: array<Word>
    const c: Cast

    /** `UncheckedSetKey`, given the words that it computes. */
    constructor (c: Cast, expanded: seq<Word>, forward: bool)
      requires |expanded| == 96
      ensures K.Length == 96 && fresh(K) && this.c == c
      ensures if forward then K[..] == expanded else GroupsReversed(expanded, K[..])
    {
      K := new Word[96](i requires 0 <= i < 96 => expanded[i]);
      this.c := c;
      new;
      assert K[..] == expanded;
      if !forward {
        SwapKeys(K);
      }
    }

    /** The macro `Q`. */
    method ForwardQuad(i: nat, block: array<Word>)
      requires K.Length == 96 && i < 12 && block.Length == 4 && block != K
      modifies block
      ensures Words(block[..]) == Q(c, Group(K[..], i), Words(old(block[..])))
    {
      hide Xor, Cast.f1, Cast.f2, Cast.f3;
      block[2] := Xor(block[2], c.f1(block[3], K[8 * i + 4], K[8 * i]));
      block[1] := Xor(block[1], c.f2(block[2], K[8 * i + 5], K[8 * i + 1]));
      block[0] := Xor(block[0], c.f3(block[1], K[8 * i + 6], K[8 * i + 2]));
      block[3] := Xor(block[3], c.f1(block[0], K[8 * i + 7], K[8 * i + 3]));
    }

    /** The macro `QBar`. */
    method ReverseQuad(i: nat, block: array<Word>)
      requires K.Length == 96 && i < 12 && block.Length == 4 && block != K
      modifies block
      ensures Words(block[..]) == QBar(c, Group(K[..], i), Words(old(block[..])))
    {
      hide Xor, Cast.f1, Cast.f2, Cast.f3;
      block[3] := Xor(block[3], c.f1(block[0], K[8 * i + 7], K[8 * i + 3]));
      block[0] := Xor(block[0], c.f3(block[1], K[8 * i + 6], K[8 * i + 2]));
      block[1] := Xor(block[1], c.f2(block[2], K[8 * i + 5], K[8 * i + 1]));
      block[2] := Xor(block[2], c.f1(block[3], K[8 * i + 4], K[8 * i]));
    }

    /** `ProcessAndXorBlock`, without the mask. */
    method ProcessBlock(block: array<Word>)
      requires K.Length == 96 && block.Length == 4 && block != K
      modifies block
      ensures Words(block[..]) == Quads(c, K[..], 12, Words(old(block[..])))
    {
      hide Q, QBar, Group;
      ghost var s := Words(block[..]);
      for i := 0 to 6
        invariant Words(block[..]) == Quads(c, K[..], i, s)
      {
        ForwardQuad(i, block);
      }
      for i := 6 to 12
        invariant Words(block[..]) == Quads(c, K[..], i, s)
      {
        ReverseQuad(i, block);
      }
    }
  }

  function Words(block: seq<Word>): Block
    requires |block| == 4
  {
    Block(block[0], block[1], block[2], block[3])
  }

  /** Decryption undoes encryption, for every block, tables and expanded key. */
  method RoundTrip256(c: Cast, expanded: seq<Word>, input: seq<Word>) returns (output: seq<Word>)
    requires |expanded| == 96 && |input| == 4
    ensures output == input
  {
    hide GroupsReversed, Q, QBar;
    var encryption := new Cast256(c, expanded, true);
    var decryption := new Cast256(c, expanded, false);
    var block := new Word[4](i requires 0 <= i < 4 => input[i]);
    assert block[..] == input;
    encryption.ProcessBlock(block);
    UndoQuads(c, expanded, decryption.K[..], 12, Words(input));
    decryption.ProcessBlock(block);
    output := block[..];
    assert Words(output) == Words(input);
  }
}
