/** Messages in blocks of n bytes of which the last, complete or not, is held back. */
module HeldBack {

  /** The length of the last block of a message. */
  function LastLength(n: nat, length: nat): (r: nat)
    requires n > 0
    ensures r <= length && r <= n && (length > 0 ==> r > 0)
  {
    if length <= n then length else LastLength(n, length - n)
  }

  lemma {:induction false} LastLengthIs(n: nat, k: nat, rest: nat)
    requires n > 0 && rest <= n && (rest == 0 ==> k == 0)
    ensures k * n >= 0 && LastLength(n, k * n + rest) == rest
  {
    if k > 0 {
      OneLess(k, n);
      LastLengthIs(n, k - 1, rest);
    }
  }

  lemma OneLess(k: nat, n: nat)
    requires k > 0
    ensures k * n == (k - 1) * n + n && (k - 1) * n >= 0
  {
  }

  lemma Distribute(a: int, b: int, n: int)
    ensures (a + b) * n == a * n + b * n
  {
  }
}
