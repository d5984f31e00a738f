/** Feistel networks over 32-bit words with any round functions. */
module Feistels {

  type Word = bv32

  datatype Halves = Halves(l: Word, r: Word) {
    function Swapped(): Halves {
      Halves(r, l)
    }
  }

  function Xor(a: Word, b: Word): Word {
    a ^ b
  }

  lemma XorCancels(a: Word, x: Word)
    ensures Xor(Xor(a, x), x) == a
  {
  }

  /** n rounds; the halves change places in each. */
  function Feistel(f: (nat, Word) -> Word, n: nat, s: Halves): Halves {
    if n == 0 then s
    else
      var t := Feistel(f, n - 1, s);
      Halves(t.r, Xor(t.l, f(n - 1, t.r)))
  }

  /** The rounds in reverse order on exchanged halves undo the last j of n rounds. */
  lemma {:induction false} Undo(f: (nat, Word) -> Word, g: (nat, Word) -> Word, n: nat, j: nat, s: Halves)
    requires j <= n && forall i, x :: 0 <= i < n ==> g(i, x) == f(n - 1 - i, x)
    ensures Feistel(g, j, Feistel(f, n, s).Swapped()) == Feistel(f, n - j, s).Swapped()
    decreases j
  {
    hide Xor;
    if j > 0 {
      Undo(f, g, n, j - 1, s);
      var t := Feistel(f, n - j, s);
      assert g(j - 1, t.r) == f(n - j, t.r);
      XorCancels(t.l, f(n - j, t.r));
    }
  }

  /** Reversing the order of the rounds inverts the network. */
  lemma Inverse(f: (nat, Word) -> Word, g: (nat, Word) -> Word, n: nat, s: Halves)
    requires forall i, x :: 0 <= i < n ==> g(i, x) == f(n - 1 - i, x)
    ensures Feistel(g, n, Feistel(f, n, s).Swapped()) == s.Swapped()
  {
    Undo(f, g, n, n, s);
  }

  lemma XorAssociates(a: Word, b: Word, c: Word)
    ensures Xor(Xor(a, b), c) == Xor(a, Xor(b, c))
  {
  }

  lemma NoRounds(f: (nat, Word) -> Word, s: Halves)
    ensures Feistel(f, 0, s) == s
  {
  }

  /** Two rounds written in place, as the ciphers do. */
  lemma TwoRounds(f: (nat, Word) -> Word, n: nat, s: Halves)
    ensures
      var t := Feistel(f, n, s);
      var l := Xor(t.l, f(n, t.r));
      Feistel(f, n + 2, s) == Halves(l, Xor(t.r, f(n + 1, l)))
  {
    hide Xor;
    assert Feistel(f, n + 1, s) == Halves(Feistel(f, n, s).r, Xor(Feistel(f, n, s).l, f(n, Feistel(f, n, s).r)));
  }

  /** `std::swap` of two elements. */
  method Swap<T>(k: array<T>, i: nat, j: nat)
    requires i < k.Length && j < k.Length
    modifies k
    ensures k[i] == old(k[j]) && k[j] == old(k[i])
    ensures forall x :: 0 <= x < k.Length && x != i && x != j ==> k[x] == old(k[x])
  {
    k[i], k[j] := k[j], k[i];
  }
}
