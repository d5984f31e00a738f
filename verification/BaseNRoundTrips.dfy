/** The decoding table of basecode.cpp, and decoding of what was encoded and grouped. */
module BaseNRoundTrips {
  import opened Numbers
  import opened Bytes
  import opened BitStrings
  import opened ByteQueues
  import opened BaseN
  import opened BaseNDecoding
  import opened Groupers

  // ---------- The decoding table ----------

  /** `isalpha`, `toupper` and `tolower` for ASCII. */
  predicate IsAlpha(c: Byte) {
    65 <= c <= 90 || 97 <= c <= 122
  }

  function ToUpper(c: Byte): Byte {
    if 97 <= c <= 122 then c - 32 else c
  }

  function ToLower(c: Byte): Byte {
    if 65 <= c <= 90 then c + 32 else c
  }

  /** c is read as the digit of which the alphabet has the character a. */
  predicate ReadAs(a: Byte, c: Byte, caseInsensitive: bool) {
    c == a || (caseInsensitive && IsAlpha(a) && (c == ToUpper(a) || c == ToLower(a)))
  }

  /** An entry of the table is the last digit that its byte is read as, and -1 if there is none. */
  predicate EntryFor(entry: int, c: Byte, alphabet: seq<Byte>, caseInsensitive: bool) {
    && -1 <= entry < |alphabet|
    && (entry >= 0 ==> ReadAs(alphabet[entry], c, caseInsensitive))
    && forall i :: entry < i < |alphabet| ==> !ReadAs(alphabet[i], c, caseInsensitive)
  }

  predicate TableFor(lookup: seq<int>, alphabet: seq<Byte>, caseInsensitive: bool) {
    |lookup| == 256 && forall c :: 0 <= c < 256 ==> EntryFor(lookup[c], c, alphabet, caseInsensitive)
  }

  /** What the assertions of the source ask for: no byte is read as two digits. */
  predicate Unambiguous(alphabet: seq<Byte>, caseInsensitive: bool) {
    forall i, j, c: Byte :: 0 <= i < j < |alphabet| ==>
      !(ReadAs(alphabet[i], c, caseInsensitive) && ReadAs(alphabet[j], c, caseInsensitive))
  }

  method InitializeDecodingLookupArray(lookup: array<int>, alphabet: seq<Byte>, caseInsensitive: bool)
    requires lookup.Length == 256
    modifies lookup
    ensures TableFor(lookup[..], alphabet, caseInsensitive)
  {
    hide ReadAs;
    forall c | 0 <= c < 256 {
      lookup[c] := -1;
    }
    for i := 0 to |alphabet|
      invariant forall c :: 0 <= c < 256 ==> EntryFor(lookup[c], c, alphabet[..i], caseInsensitive)
    {
      ghost var before := lookup[..];
      var a := alphabet[i];
      if caseInsensitive && IsAlpha(a) {
        lookup[ToUpper(a)] := i;
        lookup[ToLower(a)] := i;
      } else {
        lookup[a] := i;
      }
      forall c: Byte | 0 <= c < 256 ensures EntryFor(lookup[c], c, alphabet[..i + 1], caseInsensitive) {
        NextEntry(before[c], c, alphabet, i, caseInsensitive);
        WhichEntries(a, c, caseInsensitive);
      }
    }
    assert alphabet[..|alphabet|] == alphabet;
  }

  lemma WhichEntries(a: Byte, c: Byte, caseInsensitive: bool)
    ensures ReadAs(a, c, caseInsensitive)
            <==> if caseInsensitive && IsAlpha(a) then c == ToUpper(a) || c == ToLower(a) else c == a
  {
  }

  lemma NextEntry(entry: int, c: Byte, alphabet: seq<Byte>, i: nat, caseInsensitive: bool)
    requires i < |alphabet| && EntryFor(entry, c, alphabet[..i], caseInsensitive)
    ensures EntryFor(if ReadAs(alphabet[i], c, caseInsensitive) then i else entry, c, alphabet[..i + 1], caseInsensitive)
  {
    hide ReadAs;
  }

  // ---------- Round trip ----------

  /** None of the bytes is read as a digit. */
  predicate Foreign(s: seq<Byte>, alphabet: seq<Byte>, caseInsensitive: bool) {
    forall i, j :: 0 <= i < |s| && 0 <= j < |alphabet| ==> !ReadAs(alphabet[j], s[i], caseInsensitive)
  }

  lemma {:induction false} ValuesAppend(lookup: seq<int>, a: seq<Byte>, b: seq<Byte>)
    requires |lookup| == 256
    ensures Values(lookup, a + b) == Values(lookup, a) + Values(lookup, b)
    decreases |b|
  {
    if b == [] {
      assert a + b == a;
    } else {
      ValuesAppend(lookup, a, b[..|b| - 1]);
      assert (a + b)[..|a + b| - 1] == a + b[..|b| - 1];
    }
  }

  /** Bytes outside the alphabet are skipped. */
  lemma {:induction false} ForeignValues(lookup: seq<int>, alphabet: seq<Byte>, caseInsensitive: bool, s: seq<Byte>)
    requires TableFor(lookup, alphabet, caseInsensitive) && Foreign(s, alphabet, caseInsensitive)
    ensures Values(lookup, s) == []
  {
    hide ReadAs;
    if s != [] {
      ForeignValues(lookup, alphabet, caseInsensitive, s[..|s| - 1]);
      assert EntryFor(lookup[s[|s| - 1]], s[|s| - 1], alphabet, caseInsensitive);
    }
  }

  /** A character of the alphabet is read as its own digit. */
  lemma OwnEntry(lookup: seq<int>, alphabet: seq<Byte>, caseInsensitive: bool, d: nat)
    requires TableFor(lookup, alphabet, caseInsensitive) && Unambiguous(alphabet, caseInsensitive)
    requires d < |alphabet| <= 256
    ensures |lookup| == 256 && lookup[alphabet[d]] == d && IsDigit(d)
  {
    hide ReadAs;
    var c := alphabet[d];
    ReadAsItself(c, caseInsensitive);
    assert EntryFor(lookup[c], c, alphabet, caseInsensitive);
  }

  lemma ReadAsItself(c: Byte, caseInsensitive: bool)
    ensures ReadAs(c, c, caseInsensitive)
  {
  }

  /** The characters of digits are read as these digits. */
  lemma {:induction false} TranslatedValues(lookup: seq<int>, alphabet: seq<Byte>, caseInsensitive: bool, digits: seq<nat>)
    requires TableFor(lookup, alphabet, caseInsensitive) && Unambiguous(alphabet, caseInsensitive) && |alphabet| <= 256
    requires forall i :: 0 <= i < |digits| ==> digits[i] < |alphabet|
    ensures Values(lookup, Translate(alphabet, digits)) == digits
  {
    hide TableFor, Unambiguous, Values, IsDigit;
    if digits == [] {
      TranslateNothing(alphabet);
      TableSize(lookup, alphabet, caseInsensitive);
      ValuesNothing(lookup);
    } else {
      var ds, d := digits[..|digits| - 1], digits[|digits| - 1];
      var c := alphabet[d];
      TranslatedValues(lookup, alphabet, caseInsensitive, ds);
      assert Translate(alphabet, digits) == Translate(alphabet, ds) + [c];
      OwnEntry(lookup, alphabet, caseInsensitive, d);
      ValuesNext(lookup, Translate(alphabet, ds), c);
      assert digits == ds + [d];
    }
  }

  /** Separators do not change what the characters are read as. */
  lemma {:induction false} GroupedValues(lookup: seq<int>, s: seq<Byte>, n: nat, separator: seq<Byte>)
    requires |lookup| == 256 && Values(lookup, separator) == []
    ensures Values(lookup, Groups(s, n, separator)) == Values(lookup, s)
    decreases |s|
  {
    if n > 0 && |s| > n {
      var rest := Groups(s[n..], n, separator);
      GroupedValues(lookup, s[n..], n, separator);
      ValuesAppend(lookup, s[..n] + separator, rest);
      ValuesAppend(lookup, s[..n], separator);
      ValuesAppend(lookup, s[..n], s[n..]);
      assert s == s[..n] + s[n..];
      assert Values(lookup, s[..n]) + Values(lookup, separator) == Values(lookup, s[..n]);
    }
  }

  /** Decoding undoes encoding, with any bytes of no meaning in between and at the end. */
  lemma DecodingUndoesEncoding(lookup: seq<int>, alphabet: seq<Byte>, caseInsensitive: bool, w: nat, padding: int,
                               groupSize: nat, separator: seq<Byte>, terminator: seq<Byte>, input: seq<Byte>)
    requires 1 <= w <= 7 && |alphabet| == Pow2(w) && -1 <= padding < 256
    requires TableFor(lookup, alphabet, caseInsensitive) && Unambiguous(alphabet, caseInsensitive)
    requires Foreign(separator, alphabet, caseInsensitive) && Foreign(terminator, alphabet, caseInsensitive)
    requires padding >= 0 ==> Foreign([padding], alphabet, caseInsensitive)
    ensures |lookup| == 256
    ensures
      var encoded := Groups(Encoding(alphabet, w, padding, input), groupSize, separator) + terminator;
      Decoding(lookup, w, encoded) == input
  {
    hide BitString, Divide, DivideAll, ReadAs, Groups, Values, Missing, TableFor, Unambiguous;
    DivideAllDigits(BitString(input, 8), w);
    SmallAlphabet(w);
    var digits := DivideAll(BitString(input, 8), w);
    var chars, encoding := Translate(alphabet, digits), Encoding(alphabet, w, padding, input);
    TableSize(lookup, alphabet, caseInsensitive);
    TranslatedValues(lookup, alphabet, caseInsensitive, digits);
    ForeignValues(lookup, alphabet, caseInsensitive, separator);
    ForeignValues(lookup, alphabet, caseInsensitive, terminator);
    if padding >= 0 {
      var pad := Repeat(padding, Missing(|chars|, BlockSize(w)));
      assert forall i :: 0 <= i < |pad| ==> pad[i] == [padding][0];
      ForeignValues(lookup, alphabet, caseInsensitive, pad);
      ValuesAppend(lookup, chars, pad);
    }
    assert Values(lookup, encoding) == digits;
    GroupedValues(lookup, encoding, groupSize, separator);
    ValuesAppend(lookup, Groups(encoding, groupSize, separator), terminator);
    assert digits + [] == digits;
    assert Values(lookup, Groups(encoding, groupSize, separator) + terminator) == digits;
    assert Digits(input, 8) by { assert Pow2(8) == 256; }
    Regrouping(input, w);
  }

  lemma TableSize(lookup: seq<int>, alphabet: seq<Byte>, caseInsensitive: bool)
    requires TableFor(lookup, alphabet, caseInsensitive)
    ensures |lookup| == 256
  {
  }

  lemma SmallAlphabet(w: nat)
    requires w <= 7
    ensures Pow2(w) <= 128
  {
    Pow2Mono(w, 7);
    assert Pow2(7) == 128;
  }

  lemma TableIsLookup(lookup: seq<int>, alphabet: seq<Byte>, caseInsensitive: bool, w: nat)
    requires TableFor(lookup, alphabet, caseInsensitive) && |alphabet| == Pow2(w)
    ensures Lookup(lookup, w)
  {
    forall c | 0 <= c < 256 ensures IsDigit(lookup[c]) ==> lookup[c] < Pow2(w) {
      assert EntryFor(lookup[c], c, alphabet, caseInsensitive);
    }
  }

  /** The three filters in a row, each fed in pieces cut anywhere. */
  method RoundTrip(alphabet: seq<Byte>, caseInsensitive: bool, w: nat, padding: int,
                   groupSize: nat, separator: seq<Byte>, terminator: seq<Byte>,
                   pieces: seq<seq<Byte>>, cuts: seq<nat>, cuts': seq<nat>) returns (decoded: seq<Byte>)
    requires 1 <= w <= 7 && |alphabet| == Pow2(w) && -1 <= padding < 256 && Unambiguous(alphabet, caseInsensitive)
    requires Foreign(separator, alphabet, caseInsensitive) && Foreign(terminator, alphabet, caseInsensitive)
    requires padding >= 0 ==> Foreign([padding], alphabet, caseInsensitive)
    ensures decoded == Join(pieces)
  {
    hide Pow2, Unambiguous, Foreign, TableFor, Lookup, Encoding, Decoding, Groups, Cut;
    var lookup := new int[256];
    InitializeDecodingLookupArray(lookup, alphabet, caseInsensitive);
    ghost var table := lookup[..];
    TableIsLookup(table, alphabet, caseInsensitive, w);
    DecodingUndoesEncoding(table, alphabet, caseInsensitive, w, padding, groupSize, separator, terminator, Join(pieces));
    var encoded := EncodePieces(alphabet, w, padding, pieces);
    var grouped := GroupPieces(groupSize, separator, terminator, Cut(encoded, cuts));
    decoded := DecodePieces(lookup[..], w, Cut(grouped, cuts'));
  }

  method EncodePieces(alphabet: seq<Byte>, w: nat, padding: int, pieces: seq<seq<Byte>>) returns (s: seq<Byte>)
    requires 1 <= w <= 7 && |alphabet| == Pow2(w) && -1 <= padding < 256
    ensures s == Encoding(alphabet, w, padding, Join(pieces))
  {
    hide Pow2, Encoding, Join;
    var output := new ByteQueue([]);
    var encoder := new Encoder(alphabet, w, padding, output);
    JoinEnds(pieces);
    for i := 0 to |pieces|
      invariant encoder.Valid() && encoder.Input() == Join(pieces[..i]) && encoder.start == []
    {
      JoinNext(pieces, i);
      encoder.Put2(pieces[i], false);
    }
    encoder.Put2([], true);
    assert Join(pieces) + [] == Join(pieces);
    return output.contents;
  }

  method GroupPieces(groupSize: nat, separator: seq<Byte>, terminator: seq<Byte>, pieces: seq<seq<Byte>>) returns (s: seq<Byte>)
    ensures s == Groups(Join(pieces), groupSize, separator) + terminator
  {
    hide Groups, Join;
    var output := new ByteQueue([]);
    var grouper := new Grouper(groupSize, separator, terminator, output);
    JoinEnds(pieces);
    for i := 0 to |pieces|
      invariant grouper.Valid() && grouper.text == Join(pieces[..i]) && grouper.start == []
    {
      JoinNext(pieces, i);
      grouper.Put2(pieces[i], false);
    }
    grouper.Put2([], true);
    assert Join(pieces) + [] == Join(pieces);
    return output.contents;
  }

  method DecodePieces(lookup: seq<int>, w: nat, pieces: seq<seq<Byte>>) returns (s: seq<Byte>)
    requires 1 <= w <= 7 && Lookup(lookup, w)
    ensures s == Decoding(lookup, w, Join(pieces))
  {
    hide Decoding, Join, Pow2;
    var output := new ByteQueue([]);
    var decoder := new Decoder(lookup, w, output);
    JoinEnds(pieces);
    for i := 0 to |pieces|
      invariant decoder.Valid() && decoder.chars == Join(pieces[..i]) && decoder.start == []
    {
      JoinNext(pieces, i);
      decoder.Put2(pieces[i], false);
    }
    decoder.Put2([], true);
    assert Join(pieces) + [] == Join(pieces);
    return output.contents;
  }
}
