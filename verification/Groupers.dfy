/** `Grouper` (basecode.cpp) in blocking mode: a separator between groups of characters, and a
    terminator at the end. */
module Groupers {
  import opened Bytes
  import opened ByteQueues
  import opened HeldBack

  /** Groups of n with separators between them; none for n == 0. */
  function Groups(s: seq<Byte>, n: nat, separator: seq<Byte>): seq<Byte> {
    if n == 0 || |s| <= n then s else s[..n] + separator + Groups(s[n..], n, separator)
  }

  lemma {:induction false} CounterNext(length: nat, more: nat, n: nat)
    requires 0 < more <= n
    ensures var k := LastLength(n, length);
      (k + more <= n ==> LastLength(n, length + more) == k + more) && (k == n ==> LastLength(n, length + more) == more)
  {
    if length > n { CounterNext(length - n, more, n); }
  }

  /** Within a group characters are just added; after a full one comes the separator. */
  lemma {:induction false} GroupsNext(s: seq<Byte>, more: seq<Byte>, n: nat, separator: seq<Byte>)
    requires 0 < |more| <= n
    requires LastLength(n, |s|) + |more| <= n || LastLength(n, |s|) == n
    ensures Groups(s + more, n, separator)
            == Groups(s, n, separator) + if LastLength(n, |s|) == n then separator + more else more
    decreases |s|
  {
    hide Groups;
    if |s| > n {
      var a, r := s[..n], s[n..];
      GroupsNext(r, more, n, separator);
      assert s == a + r && s + more == a + (r + more);
      FirstGroup(a, r, n, separator);
      FirstGroup(a, r + more, n, separator);
    } else if |s| == n {
      FirstGroup(s, more, n, separator);
    } else {
      OneGroup(s, n, separator);
      OneGroup(s + more, n, separator);
    }
  }

  lemma OneGroup(s: seq<Byte>, n: nat, separator: seq<Byte>)
    requires |s| <= n
    ensures Groups(s, n, separator) == s
  {
  }

  lemma FirstGroup(a: seq<Byte>, rest: seq<Byte>, n: nat, separator: seq<Byte>)
    requires |a| == n > 0 && rest != []
    ensures Groups(a + rest, n, separator) == a + separator + Groups(rest, n, separator)
    ensures Groups(a, n, separator) == a && (|rest| <= n ==> Groups(rest, n, separator) == rest)
  {
    assert (a + rest)[..n] == a && (a + rest)[n..] == rest;
  }

  class Grouper {
    const m_groupSize: nat
    const m_separator: seq<Byte>
    const m_terminator: seq<Byte>
    var m_counter: nat
    const output: ByteQueue

    // The message so far, and what the queue held before it.
    ghost var text: seq<Byte>
    ghost var start: seq<Byte>

    ghost predicate Valid()
      reads this, output
    {
      && output.contents == start + Groups(text, m_groupSize, m_separator)
      && (m_groupSize > 0 ==> m_counter == LastLength(m_groupSize, |text|))
    }

    constructor (groupSize: nat, separator: seq<Byte>, terminator: seq<Byte>, output: ByteQueue)
      ensures Valid() && text == [] && start == output.contents && this.output == output
      ensures m_groupSize == groupSize && m_separator == separator && m_terminator == terminator
    {
      m_groupSize, m_separator, m_terminator, m_counter := groupSize, separator, terminator, 0;
      this.output := output;
      text, start := [], output.contents;
    }

    /** `Put2`. */
    method Put2(begin: seq<Byte>, messageEnd: bool)
      requires Valid()
      modifies this, output
      ensures Valid()
      ensures if !messageEnd then text == old(text) + begin && start == old(start)
              else text == [] && start == output.contents
                   && output.contents == old(start) + Groups(old(text) + begin, m_groupSize, m_separator) + m_terminator
    {
      if m_groupSize != 0 {
        PutGroups(begin);
      } else {
        output.PutBytes(begin);
        text := text + begin;
      }
      if messageEnd {
        output.PutBytes(m_terminator);
        m_counter := 0;
        text, start := [], output.contents;
      }
    }

    /** The loop for a group size other than zero. */
    method PutGroups(begin: seq<Byte>)
      requires Valid() && m_groupSize > 0
      modifies this`m_counter, this`text, output
      ensures Valid() && text == old(text) + begin
    {
      hide Groups, LastLength;
      var m_inputPosition := 0;
      while m_inputPosition < |begin|
        invariant m_inputPosition <= |begin| && Valid() && text == old(text) + begin[..m_inputPosition]
      {
        var taken := PutGroup(begin[m_inputPosition..]);
        assert begin[..m_inputPosition + taken] == begin[..m_inputPosition] + begin[m_inputPosition..][..taken];
        m_inputPosition := m_inputPosition + taken;
      }
    }

    /** One round: as much as the current group takes. */
    method PutGroup(rest: seq<Byte>) returns (len: nat)
      requires Valid() && m_groupSize > 0 && rest != []
      modifies this`m_counter, this`text, output
      ensures 0 < len <= |rest| && Valid() && text == old(text) + rest[..len]
    {
      hide Groups, LastLength;
      if m_counter == m_groupSize {
        output.PutBytes(m_separator);
        m_counter := 0;
      }
      len := if |rest| < m_groupSize - m_counter then |rest| else m_groupSize - m_counter;
      GroupsNext(text, rest[..len], m_groupSize, m_separator);
      CounterNext(|text|, len, m_groupSize);
      output.PutBytes(rest[..len]);
      m_counter := m_counter + len;
      text := text + rest[..len];
    }
  }
}
