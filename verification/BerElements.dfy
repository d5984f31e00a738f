/** What re-encoding means for the elements of ITU-T X.690: the tree stays the same. */
module BerElements {
  import opened Bytes
  import opened ByteQueues
  import opened BerLengths
  import opened DerReencoding

  /** The meaning of an element: a tree of tags and primitive contents. */
  datatype Tree = Leaf(tag: Byte, contents: seq<Byte>) | Node(tag: Byte, children: seq<Tree>)

  /** One of its encodings (section 8.1): every length is definite in a form of the sender's
      choice, or indefinite. */
  datatype Element =
    | Primitive(tag: Byte, length: seq<Byte>, contents: seq<Byte>)
    | Sized(tag: Byte, length: seq<Byte>, children: seq<Element>)
    | Unsized(tag: Byte, children: seq<Element>)

  /** Single-byte tags only; the tag of end-of-contents octets is reserved. */
  predicate SingleByteTag(tag: Byte) {
    tag % 32 != 31 && tag != 0
  }

  predicate Valid(x: Element) {
    SingleByteTag(x.tag) &&
    match x
    case Primitive(tag, length, contents) => !Constructed(tag) && ReadLength(length) == Definite(|contents|, |length|)
    case Sized(tag, length, children) =>
      Constructed(tag) && AllValid(children) && ReadLength(length) == Definite(|AllOctets(Encodings(children))|, |length|)
    case Unsized(tag, children) => Constructed(tag) && AllValid(children)
  }

  predicate AllValid(xs: seq<Element>) {
    xs == [] || (Valid(xs[0]) && AllValid(xs[1..]))
  }

  function Meaning(x: Element): Tree {
    match x
    case Primitive(tag, _, contents) => Leaf(tag, contents)
    case Sized(tag, _, children) => Node(tag, Meanings(children))
    case Unsized(tag, children) => Node(tag, Meanings(children))
  }

  function Meanings(xs: seq<Element>): seq<Tree> {
    if xs == [] then [] else [Meaning(xs[0])] + Meanings(xs[1..])
  }

  /** What `DERReencode` sees of it. */
  function EncodingOf(x: Element): (e: Encoding) {
    match x
    case Primitive(tag, length, contents) => Closed(tag, length, contents)
    case Sized(tag, length, children) => Closed(tag, length, AllOctets(Encodings(children)))
    case Unsized(tag, children) => Open(tag, Encodings(children))
  }

  function Encodings(xs: seq<Element>): seq<Encoding> {
    if xs == [] then [] else [EncodingOf(xs[0])] + Encodings(xs[1..])
  }

  lemma {:induction false} ValidIsWellFormed(x: Element)
    requires Valid(x)
    ensures WellFormed(EncodingOf(x)) && !IsEnd(EncodingOf(x))
    decreases x
  {
    if x.Unsized? { AllValidAreWellFormed(x.children); }
  }

  lemma {:induction false} AllValidAreWellFormed(xs: seq<Element>)
    requires AllValid(xs)
    ensures AllWellFormed(Encodings(xs))
    decreases xs
  {
    if xs != [] {
      ValidIsWellFormed(xs[0]);
      AllValidAreWellFormed(xs[1..]);
      assert Encodings(xs)[1..] == Encodings(xs[1..]);
    }
  }

  /** The element that comes out: lengths shortest and definite, down to elements that had a
      definite length already. */
  function Output(x: Element): (y: Element)
    requires Valid(x) && 3 * |Octets(EncodingOf(x))| < LWORD_LIMIT
    ensures y.tag == x.tag && !y.Unsized? && Valid(y) && Meaning(y) == Meaning(x)
    ensures WellFormed(EncodingOf(x)) && EncodingOf(y) == Reencoded(EncodingOf(x))
    decreases x
  {
    ValidIsWellFormed(x);
    match x
    case Primitive(tag, length, contents) =>
      ShortestLength(EncodingOf(x));
      Primitive(tag, DerLength(|contents|), contents)
    case Sized(tag, length, children) =>
      ShortestLength(EncodingOf(x));
      Sized(tag, DerLength(|AllOctets(Encodings(children))|), children)
    case Unsized(tag, children) =>
      var ys := Outputs(children);
      ShortLength(|AllOctets(Encodings(ys))|);
      Sized(tag, DerLength(|AllOctets(Encodings(ys))|), ys)
  }

  function Outputs(xs: seq<Element>): (ys: seq<Element>)
    requires AllValid(xs) && 3 * |AllOctets(Encodings(xs))| < LWORD_LIMIT
    ensures AllValid(ys) && Meanings(ys) == Meanings(xs)
    ensures AllWellFormed(Encodings(xs)) && AllOctets(Encodings(ys)) == AllReencoded(Encodings(xs))
    decreases xs
  {
    AllValidAreWellFormed(xs);
    if xs == [] then []
    else
      var es := Encodings(xs);
      assert es[0] == EncodingOf(xs[0]) && es[1..] == Encodings(xs[1..]);
      var y, ys := Output(xs[0]), Outputs(xs[1..]);
      var all := [y] + ys;
      assert all[1..] == ys;
      assert Encodings(all)[1..] == Encodings(ys);
      all
  }

  /** `DERReencode` takes any element off its source, exactly, and puts out one with the same
      tree whose own length is definite and as short as can be. */
  method ReencodeElement(x: Element, rest: seq<Byte>) returns (ok: bool, output: seq<Byte>, left: seq<Byte>)
    requires Valid(x) && 3 * (|Octets(EncodingOf(x))| + |rest|) < LWORD_LIMIT
    ensures ok && left == rest
    ensures
      var y := Output(x);
      && Meaning(y) == Meaning(x) && output == Octets(EncodingOf(y))
      && EncodingOf(y).Closed? && EncodingOf(y).length == DerLength(|EncodingOf(y).contents|)
  {
    hide Octets, EncodingOf, Valid;
    ValidIsWellFormed(x);
    ParseComplete(EncodingOf(x), rest);
    var source := new ByteQueue(Octets(EncodingOf(x)) + rest);
    var dest := new ByteQueue([]);
    ok := DERReencode(source, dest);
    output, left := dest.contents, source.contents;
  }

  // ---------- Section 10.1: definite lengths with the fewest octets ----------

  predicate ShortestLengths(x: Element) {
    match x
    case Primitive(_, length, contents) => |contents| < LWORD_LIMIT && length == DerLength(|contents|)
    case Sized(_, length, children) =>
      var n := |AllOctets(Encodings(children))|;
      n < LWORD_LIMIT && length == DerLength(n) && AllShortestLengths(children)
    case Unsized(_, _) => false
  }

  predicate AllShortestLengths(xs: seq<Element>) {
    xs == [] || (ShortestLengths(xs[0]) && AllShortestLengths(xs[1..]))
  }

  /** Below an element of definite length nothing is changed, so every length there has to have
      been the shortest before. */
  predicate Convertible(x: Element) {
    match x
    case Primitive(_, _, _) => true
    case Sized(_, _, children) => AllShortestLengths(children)
    case Unsized(_, children) => AllConvertible(children)
  }

  predicate AllConvertible(xs: seq<Element>) {
    xs == [] || (Convertible(xs[0]) && AllConvertible(xs[1..]))
  }

  /** Every length in the output is definite and shortest exactly when none needed changing below
      an element of definite length. */
  lemma {:induction false} ShortestOutput(x: Element)
    requires Valid(x) && 3 * |Octets(EncodingOf(x))| < LWORD_LIMIT
    ensures ShortestLengths(Output(x)) <==> Convertible(x)
    decreases x
  {
    ValidIsWellFormed(x);
    match x
    case Primitive(_, _, _) => ShortestLength(EncodingOf(x));
    case Sized(_, _, _) => ShortestLength(EncodingOf(x));
    case Unsized(_, children) => ShortestOutputs(children);
  }

  lemma {:induction false} ShortestOutputs(xs: seq<Element>)
    requires AllValid(xs) && 3 * |AllOctets(Encodings(xs))| < LWORD_LIMIT
    ensures AllShortestLengths(Outputs(xs)) <==> AllConvertible(xs)
    decreases xs
  {
    if xs != [] {
      var es := Encodings(xs);
      assert es[0] == EncodingOf(xs[0]) && es[1..] == Encodings(xs[1..]);
      ShortestOutput(xs[0]);
      ShortestOutputs(xs[1..]);
      assert Outputs(xs)[1..] == Outputs(xs[1..]);
    }
  }

  lemma InnerElement()
    ensures
      var inner := Unsized(0x30, []);
      && Valid(inner) && AllValid([inner])
      && Octets(EncodingOf(inner)) == [0x30, 0x80, 0, 0] && AllOctets(Encodings([inner])) == [0x30, 0x80, 0, 0]
  {
    var inner := Unsized(0x30, []);
    assert Constructed(0x30) && AllValid([]) && Valid(inner);
    assert [inner][0] == inner && [inner][1..] == [];
    assert Encodings([]) == [] && EncodingOf(inner) == Open(0x30, []);
    assert AllOctets([]) == [] && Octets(Open(0x30, [])) == [0x30, 0x80, 0, 0];
    assert Encodings([inner]) == [Open(0x30, [])];
    assert [Open(0x30, [])][1..] == [];
  }

  /** A sequence of definite length around an empty one of indefinite length: the code copies it. */
  lemma InnerLengthIsKept()
    ensures
      var inner := Unsized(0x30, []);
      var x := Sized(0x30, [4], [inner]);
      && Valid(x) && Octets(EncodingOf(x)) == [0x30, 4, 0x30, 0x80, 0, 0]
      && Output(x) == x && !ShortestLengths(Output(x))
  {
    var inner := Unsized(0x30, []);
    var x := Sized(0x30, [4], [inner]);
    InnerElement();
    assert DerLength(4) == [4];
    assert !ShortestLengths(inner) && !AllShortestLengths([inner]);
  }

  /** Re-encoding what has been re-encoded changes nothing. */
  lemma OutputIsFixed(x: Element)
    requires Valid(x) && 9 * |Octets(EncodingOf(x))| < LWORD_LIMIT
    ensures Output(Output(x)) == Output(x)
  {
    ShortestLength(EncodingOf(Output(x)));
  }
}
