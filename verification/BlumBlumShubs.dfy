/** The Blum Blum Shub generator of blumshub.cpp and its random access. */
module BlumBlumShubs {
  import opened Arithmetic
  import opened Numbers
  import opened Divisibility
  import opened NumberTheory

  /** The sequence the generator is defined by: the seed squared modulo n, again and again. */
  ghost function Iterate(n: int, seed: nat, k: nat): (r: nat)
    requires n > 0
    ensures r < n
  {
    if k == 0 then seed * seed % n
    else Iterate(n, seed, k - 1) * Iterate(n, seed, k - 1) % n
  }

  /** How many bits of each iterate are output. */
  function MaxBits(n: nat): int {
    BitCount(BitCount(n)) - 1
  }

  /** Bit t of the output: bits `maxBits - 1` down to 0 of one iterate after another,
      starting with the second. */
  ghost function StreamBit(n: int, seed: nat, t: nat): nat
    requires n > 0 && MaxBits(n) > 0
  {
    GetBit(Iterate(n, seed, t / MaxBits(n) + 1), MaxBits(n) - 1 - t % MaxBits(n))
  }

  /** The byte that starts at bit t, most significant bit first. */
  ghost function StreamByte(n: int, seed: nat, t: nat, bits: nat): nat
    requires n > 0 && MaxBits(n) > 0
    decreases bits
  {
    if bits == 0 then 0 else 2 * StreamByte(n, seed, t, bits - 1) + StreamBit(n, seed, t + bits - 1)
  }

  /** `size` bytes from bit t on. */
  ghost function StreamBytes(n: int, seed: nat, t: nat, size: nat): seq<nat>
    requires n > 0 && MaxBits(n) > 0
  {
    if size == 0 then [] else StreamBytes(n, seed, t, size - 1) + [StreamByte(n, seed, t + 8 * (size - 1), 8)]
  }

  /** The iterates are the powers of x0 with exponents 2^k. */
  lemma {:induction false} IterateIsPower(n: int, seed: nat, k: nat)
    requires n > 0
    ensures Power(seed * seed % n, Pow2(k)) >= 0
    ensures Iterate(n, seed, k) == Power(seed * seed % n, Pow2(k)) % n
  {
    var x0 := seed * seed % n;
    PowerNonNegative(x0, Pow2(k));
    if k == 0 {
      assert Power(x0, 1) == x0 * Power(x0, 0) == x0;
      CongruentRemainder(seed * seed, n);
      CongruentByRemainders(x0, seed * seed, n);
    } else {
      IterateIsPower(n, seed, k - 1);
      var y := Power(x0, Pow2(k - 1));
      PowerAdd(x0, Pow2(k - 1), Pow2(k - 1));
      CongruentRemainder(y, n);
      CongruentMul(y % n, y, y % n, y, n);
      CongruentByRemainders((y % n) * (y % n), y * y, n);
    }
  }

  lemma {:induction false} PowerNonNegative(x: nat, e: nat)
    ensures Power(x, e) >= 0
  {
    if e > 0 { PowerNonNegative(x, e - 1); }
  }

  /** Squaring modulo n does not change which prime factors of n divide. */
  lemma SquareDivisors(p: int, n: int, seed: nat)
    requires Prime(p) && n > 0 && Divides(p, n)
    ensures Divides(p, seed * seed % n) <==> Divides(p, seed)
  {
    var s := seed * seed;
    var k := s / n;
    if Divides(p, seed) {
      DividesMultiple(p, seed, seed);
      DividesCombination(p, s, n, -k);
      Remainder(s, n, k);
    }
    if Divides(p, s % n) {
      DividesCombination(p, s % n, n, k);
      Remainder(s, n, k);
      Euclid(p, seed, seed);
    }
  }

  lemma Remainder(s: nat, n: int, k: int)
    requires n > 0 && k == s / n
    ensures s + -k * n == s % n && s % n + k * n == s
  {
  }

  lemma NextIterate(n: int, seed: nat, k: nat, maxBits: nat)
    requires n > 0
    ensures Iterate(n, seed, k + 2) == Iterate(n, seed, k + 1) * Iterate(n, seed, k + 1) % n
    ensures (k + 1) * maxBits == k * maxBits + maxBits
  {
  }

  class BlumBlumShub {
    const p: int
    const q: int
    const n: int
    const x0: nat
    const maxBits: nat
    var current: nat
    var bitsLeft: nat

    ghost const seed: nat
    // The number of output bits before the next one.
    ghost var position: nat

    ghost predicate Fixed() {
      && Prime(p) && Prime(q) && p != q
      && n == p * q && n > 0
      && maxBits == MaxBits(n) && maxBits > 0
      && x0 == seed * seed % n
    }

    /** `current` is iterate k + 1 with `bitsLeft` bits still to come. */
    ghost predicate OnIterate(k: nat)
      requires Fixed()
      reads this
    {
      && current == Iterate(n, seed, k + 1)
      && bitsLeft <= maxBits
      && position == k * maxBits + maxBits - bitsLeft
    }

    /** The state is that of a generator that has output the first `position` bits. */
    ghost predicate Valid()
      reads this
    {
      Fixed() && exists k :: OnIterate(k)
    }

    constructor (p: int, q: int, seed: nat)
      requires Prime(p) && Prime(q) && p != q
      ensures Valid() && position == 0
      ensures this.p == p && this.q == q && this.seed == seed && n == p * q
    {
      ProductOfPrimes(p, q);
      this.p := p;
      this.q := q;
      n := p * q;
      x0 := seed * seed % (p * q);
      maxBits := MaxBits(p * q);
      current := seed * seed % (p * q) * (seed * seed % (p * q)) % (p * q);
      bitsLeft := MaxBits(p * q);
      this.seed := seed;
      position := 0;
      new;
      assert Iterate(n, seed, 1) == Iterate(n, seed, 0) * Iterate(n, seed, 0) % n;
      assert OnIterate(0);
    }

    method GenerateBit() returns (b: nat)
      requires Valid()
      modifies this
      ensures Valid() && position == old(position) + 1
      ensures b < 2 && b == StreamBit(n, seed, old(position))
    {
      hide MaxBits, Prime, Iterate, GetBit;
      ghost var k :| OnIterate(k);
      if bitsLeft == 0 {
        NextIterate(n, seed, k, maxBits);
        current := current * current % n;
        bitsLeft := maxBits;
        k := k + 1;
        assert OnIterate(k);
      }
      DivModUnique(position, maxBits, k, maxBits - bitsLeft);
      bitsLeft := bitsLeft - 1;
      b := GetBit(current, bitsLeft);
      position := position + 1;
      assert OnIterate(k);
    }

    method GenerateByte() returns (b: nat)
      requires Valid()
      modifies this
      ensures Valid() && position == old(position) + 8
      ensures b == StreamByte(n, seed, old(position), 8) && b < 256
    {
      hide StreamBit, OnIterate;
      b := 0;
      for i := 0 to 8
        invariant Valid() && position == old(position) + i
        invariant b == StreamByte(n, seed, old(position), i) && b < Pow2(i)
      {
        var bit := GenerateBit();
        b := 2 * b + bit;
      }
      assert Pow2(8) == 256;
    }

    method GenerateBlock(size: nat) returns (output: seq<nat>)
      requires Valid()
      modifies this
      ensures Valid() && position == old(position) + 8 * size
      ensures |output| == size && output == StreamBytes(n, seed, old(position), size)
    {
      hide StreamByte, OnIterate;
      output := [];
      while |output| < size
        invariant Valid() && |output| <= size && position == old(position) + 8 * |output|
        invariant output == StreamBytes(n, seed, old(position), |output|)
      {
        var b := GenerateByte();
        output := output + [b];
      }
    }

    /** Jumps to byte `index` of the stream. The state is the sequential one exactly when the
        reduced exponent is not zero or the seed shares no factor with the modulus. */
    method Seek(index: nat)
      requires Fixed()
      modifies this
      ensures position == 8 * index
      ensures Valid() <==> SeekExponent(p, q, maxBits, index) != 0 || (!Divides(p, seed) && !Divides(q, seed))
    {
      ProductOfPrimes(p, q);
      var i := 8 * index;
      var e := Power(2, i / maxBits + 1) % ((p - 1) * (q - 1));
      PowerNonNegative(x0, e);
      current := Power(x0, e) % n;
      bitsLeft := maxBits - i % maxBits;
      position := i;
      Landing(p, q, seed, i / maxBits + 1);
      Fundamental(i, maxBits);
      ghost var k := i / maxBits;
      assert k * maxBits == maxBits * k;
      assert OnIterate(k) <==> current == Iterate(n, seed, k + 1);
      if Valid() {
        var j :| OnIterate(j);
        OneRepresentation(maxBits, j, maxBits - bitsLeft, i);
      }
    }
  }

  /** The exponent `Seek` raises x0 to. */
  ghost function SeekExponent(p: int, q: int, maxBits: nat, index: nat): int
    requires p > 1 && q > 1 && maxBits > 0
  {
    assert (p - 1) * (q - 1) > 0;
    Power(2, 8 * index / maxBits + 1) % ((p - 1) * (q - 1))
  }

  /** For the primes the class asks for, distinct and 3 modulo 4, the exponent is never
      zero: seeking is right whatever the seed. */
  lemma BlumPrimesNeverReduceToZero(p: int, q: int, maxBits: nat, index: nat)
    requires Prime(p) && Prime(q) && p != q && p % 4 == 3 && q % 4 == 3 && maxBits > 0
    ensures SeekExponent(p, q, maxBits, index) != 0
  {
    PowersOfTwo(8 * index / maxBits + 1);
    PhiDividesNoPower(p, q, 8 * index / maxBits + 1);
  }

  lemma PhiDividesNoPower(p: int, q: int, k: nat)
    requires p > 1 && q > 1 && p != q && p % 4 == 3 && q % 4 == 3
    ensures (p - 1) * (q - 1) > 0 && Pow2(k) % ((p - 1) * (q - 1)) != 0
  {
    hide Pow2;
    MulAtLeast(p - 1, q - 1, 1);
    var phi := (p - 1) * (q - 1);
    MulCommutes(p - 1, q - 1);
    if Pow2(k) % phi == 0 {
      DividesByRemainder(phi, Pow2(k));
      OddPart(phi, p - 1, q - 1, k);
      OddPart(phi, q - 1, p - 1, k);
    }
  }

  /** A divisor xy of a power of two, with x twice an odd number, has x = 2. */
  lemma OddPart(phi: int, x: int, y: int, k: nat)
    requires phi == x * y && x > 0 && x % 4 == 2 && Divides(phi, Pow2(k))
    ensures x == 2
  {
    var h := x / 2;
    MulAssoc(h, 2, y);
    assert Multiple(phi, h, 2 * y);
    DividesTransitive(h, phi, Pow2(k));
    OddDivisorOfPowerOfTwo(h, k);
  }

  lemma {:induction false} OddDivisorOfPowerOfTwo(m: int, k: nat)
    requires m > 0 && m % 2 == 1 && Divides(m, Pow2(k))
    ensures m == 1
  {
    var j :| Multiple(Pow2(k), m, j);
    if k == 0 {
      DividesByRemainder(m, 1);
    } else {
      HalfMultiple(m, j, Pow2(k - 1));
      assert Multiple(Pow2(k - 1), m, j / 2);
      OddDivisorOfPowerOfTwo(m, k - 1);
    }
  }

  lemma HalfMultiple(m: int, j: int, w: int)
    requires m % 2 == 1 && m * j == 2 * w
    ensures m * (j / 2) == w
  {
    var h, i := m / 2, j / 2;
    assert (2 * h + 1) * j == 2 * (h * j) + j;
    assert j == 2 * i;
    assert m * (2 * i) == 2 * (m * i);
  }

  /** Other primes can fail: with 3, 5 and a seed divisible by 3, seeking to byte 1 gives 1
      where the sequence has a multiple of 3. */
  lemma SeekCanMiss()
    ensures Prime(3) && Prime(5) && Divides(3, 3) && MaxBits(3 * 5) == 2
    ensures SeekExponent(3, 5, 2, 1) == 0
  {
    DividesByRemainder(2, 3);
    DividesByRemainder(2, 5);
    DividesByRemainder(3, 5);
    DividesByRemainder(4, 5);
    DividesByRemainder(3, 3);
    assert MaxBits(15) == 2;
    PowersOfTwo(5);
    assert Pow2(5) == 32;
  }

  lemma OneRepresentation(maxBits: nat, j: nat, r: nat, i: nat)
    requires maxBits > 0 && i == j * maxBits + r && r < maxBits
    ensures j == i / maxBits
  {
    assert j * maxBits == maxBits * j;
    DivModUnique(i, maxBits, j, r);
  }

  lemma {:induction false} PowersOfTwo(k: nat)
    ensures Power(2, k) == Pow2(k)
  {
    if k > 0 { PowersOfTwo(k - 1); }
  }

  /** x0 to the reduced exponent is iterate k exactly under the condition of `Seek`. */
  lemma Landing(p: int, q: int, seed: nat, k: nat)
    requires Prime(p) && Prime(q) && p != q
    ensures (p - 1) * (q - 1) > 0 && p * q > 0
    ensures var e := Power(2, k) % ((p - 1) * (q - 1));
      Power(seed * seed % (p * q), e) % (p * q) == Iterate(p * q, seed, k)
      <==> e != 0 || (!Divides(p, seed) && !Divides(q, seed))
  {
    assert p * q > 0;
    PowersOfTwo(k);
    IterateIsPower(p * q, seed, k);
    ReducedExponent(seed * seed % (p * q), p, q, Pow2(k));
    assert Multiple(p * q, p, q) && Multiple(p * q, q, p);
    SquareDivisors(p, p * q, seed);
    SquareDivisors(q, p * q, seed);
  }

  /** Distinct primes make a modulus with enough bits for some output. */
  lemma ProductOfPrimes(p: int, q: int)
    requires Prime(p) && Prime(q) && p != q
    ensures p * q >= 4 && MaxBits(p * q) > 0 && (p - 1) * (q - 1) > 0
  {
    MulAtLeast(p, q, 2);
    MulAtLeast(p - 1, q - 1, 1);
    EnoughBits(p * q);
  }

  lemma EnoughBits(n: nat)
    requires n >= 4
    ensures MaxBits(n) > 0
  {
    assert BitCount(n) == 2 + BitCount(n / 2 / 2);
    assert BitCount(BitCount(n)) == 2 + BitCount(BitCount(n) / 2 / 2);
  }

  /** Random access: seeking to a byte and discarding everything before it leave generators
      that output the same from then on. For the primes the class asks for, distinct and 3
      modulo 4, this is so for every seed; for others if the seed shares no factor with them. */
  method SeekOrDiscard(p: int, q: int, seed: nat, index: nat, size: nat) returns (sought: seq<nat>, discarded: seq<nat>)
    requires Prime(p) && Prime(q) && p != q
    requires (p % 4 == 3 && q % 4 == 3) || (!Divides(p, seed) && !Divides(q, seed))
    ensures sought == discarded && |sought| == size
  {
    hide Prime, Divides, StreamBytes, Iterate, SeekExponent;
    ProductOfPrimes(p, q);
    if p % 4 == 3 && q % 4 == 3 {
      BlumPrimesNeverReduceToZero(p, q, MaxBits(p * q), index);
    }
    var a := new BlumBlumShub(p, q, seed);
    a.Seek(index);
    sought := a.GenerateBlock(size);
    var b := new BlumBlumShub(p, q, seed);
    var before := b.GenerateBlock(index);
    discarded := b.GenerateBlock(size);
  }

  // ---------- How many bits, and which ----------

  /** The number of bits of an iterate that are output is the logarithm of the length of the
      modulus, to base two and rounded down. */
  lemma MaxBitsIsLogarithm(n: nat)
    requires n >= 4
    ensures MaxBits(n) > 0 && Pow2(MaxBits(n)) <= BitCount(n) < Pow2(MaxBits(n) + 1)
    ensures Pow2(BitCount(n) - 1) <= n < Pow2(BitCount(n))
  {
    hide Pow2, BitCount;
    EnoughBits(n);
    BitCountBounds(n);
    BitCountBounds(BitCount(n));
  }

  /** One bit of the stream by division: number i of an iterate from the top of those output. */
  ghost function OutputBit(n: int, seed: nat, bits: nat, t: nat): nat
    requires n > 0 && bits > 0
  {
    Iterate(n, seed, t / bits + 1) / Pow2(bits - 1 - t % bits) % 2
  }

  lemma StreamBitIs(n: int, seed: nat, t: nat)
    requires n >= 4 && MaxBits(n) > 0
    ensures StreamBit(n, seed, t) == OutputBit(n, seed, MaxBits(n), t)
  {
    hide Iterate, GetBit, Pow2, MaxBits;
    BitByDivision(Iterate(n, seed, t / MaxBits(n) + 1), MaxBits(n) - 1 - t % MaxBits(n));
  }

  lemma BitByDivision(x: nat, k: nat)
    ensures GetBit(x, k) == x / Pow2(k) % 2
  {
    hide Shr, Pow2;
    ShiftsAreDivisions(x, k);
  }

  lemma StreamByteNext(n: int, seed: nat, t: nat, bits: nat)
    requires n > 0 && MaxBits(n) > 0 && bits > 0
    ensures StreamByte(n, seed, t, bits) == 2 * StreamByte(n, seed, t, bits - 1) + StreamBit(n, seed, t + bits - 1)
  {
  }

  lemma StreamByteEmpty(n: int, seed: nat, t: nat)
    requires n > 0 && MaxBits(n) > 0
    ensures StreamByte(n, seed, t, 0) == 0
  {
  }

  lemma StreamByteIs(n: int, seed: nat, t: nat)
    requires n >= 4 && MaxBits(n) > 0
    ensures
      StreamByte(n, seed, t, 8)
      == 128 * StreamBit(n, seed, t) + 64 * StreamBit(n, seed, t + 1) + 32 * StreamBit(n, seed, t + 2)
         + 16 * StreamBit(n, seed, t + 3) + 8 * StreamBit(n, seed, t + 4) + 4 * StreamBit(n, seed, t + 5)
         + 2 * StreamBit(n, seed, t + 6) + StreamBit(n, seed, t + 7)
  {
    hide StreamByte, StreamBit, MaxBits;
    StreamByteEmpty(n, seed, t);
    StreamByteNext(n, seed, t, 1);
    StreamByteNext(n, seed, t, 2);
    StreamByteNext(n, seed, t, 3);
    StreamByteNext(n, seed, t, 4);
    StreamByteNext(n, seed, t, 5);
    StreamByteNext(n, seed, t, 6);
    StreamByteNext(n, seed, t, 7);
    StreamByteNext(n, seed, t, 8);
  }

  /** A byte of the output: its eight bits, the first one highest, each from the second or a later
      iterate, `bits` of them from each, where 2^bits is at most the number of binary digits of the
      modulus and 2^(bits + 1) more than that. */
  lemma GeneratedByte(n: int, seed: nat, bits: nat, t: nat)
    requires n >= 4 && bits > 0 && Pow2(bits) <= BitCount(n) < Pow2(bits + 1)
    ensures MaxBits(n) > 0
    ensures
      StreamByte(n, seed, t, 8)
      == 128 * OutputBit(n, seed, bits, t) + 64 * OutputBit(n, seed, bits, t + 1) + 32 * OutputBit(n, seed, bits, t + 2)
         + 16 * OutputBit(n, seed, bits, t + 3) + 8 * OutputBit(n, seed, bits, t + 4) + 4 * OutputBit(n, seed, bits, t + 5)
         + 2 * OutputBit(n, seed, bits, t + 6) + OutputBit(n, seed, bits, t + 7)
  {
    hide StreamBit, StreamByte, OutputBit, Pow2, BitCount, MaxBits;
    MaxBitsIsLogarithm(n);
    OneLogarithm(BitCount(n), bits, MaxBits(n));
    StreamByteIs(n, seed, t);
    StreamBitIs(n, seed, t);
    StreamBitIs(n, seed, t + 1);
    StreamBitIs(n, seed, t + 2);
    StreamBitIs(n, seed, t + 3);
    StreamBitIs(n, seed, t + 4);
    StreamBitIs(n, seed, t + 5);
    StreamBitIs(n, seed, t + 6);
    StreamBitIs(n, seed, t + 7);
  }

  /** The byte of a new generator after `skipped` others. */
  method ByteAt(p: int, q: int, seed: nat, ghost bits: nat, skipped: nat) returns (b: nat)
    requires Prime(p) && Prime(q) && p != q
    requires bits > 0 && Pow2(bits) <= BitCount(p * q) < Pow2(bits + 1)
    ensures
      var n, t := p * q, 8 * skipped;
      n > 0 &&
      b == 128 * OutputBit(n, seed, bits, t) + 64 * OutputBit(n, seed, bits, t + 1) + 32 * OutputBit(n, seed, bits, t + 2)
         + 16 * OutputBit(n, seed, bits, t + 3) + 8 * OutputBit(n, seed, bits, t + 4) + 4 * OutputBit(n, seed, bits, t + 5)
         + 2 * OutputBit(n, seed, bits, t + 6) + OutputBit(n, seed, bits, t + 7)
  {
    hide Prime, StreamBit, StreamByte, StreamBytes, OutputBit, Pow2, BitCount, MaxBits;
    ProductOfPrimes(p, q);
    GeneratedByte(p * q, seed, bits, 8 * skipped);
    var generator := new BlumBlumShub(p, q, seed);
    var before := generator.GenerateBlock(skipped);
    b := generator.GenerateByte();
  }

  lemma OneLogarithm(c: nat, i: nat, j: nat)
    requires Pow2(i) <= c < Pow2(i + 1) && Pow2(j) <= c < Pow2(j + 1)
    ensures i == j
  {
    hide Pow2;
    if i < j {
      Pow2Mono(i + 1, j);
    } else if j < i {
      Pow2Mono(j + 1, i);
    }
  }

  lemma SmallPrimes()
    ensures Prime(7) && Prime(11)
  {
    DividesByRemainder(2, 7);
    DividesByRemainder(3, 7);
    DividesByRemainder(4, 7);
    DividesByRemainder(5, 7);
    DividesByRemainder(6, 7);
    DividesByRemainder(2, 11);
    DividesByRemainder(3, 11);
    DividesByRemainder(4, 11);
    DividesByRemainder(5, 11);
    DividesByRemainder(6, 11);
    DividesByRemainder(7, 11);
    DividesByRemainder(8, 11);
    DividesByRemainder(9, 11);
    DividesByRemainder(10, 11);
  }

  lemma IteratesOfTwo()
    ensures Iterate(77, 2, 1) == 16 && Iterate(77, 2, 2) == 25 && Iterate(77, 2, 3) == 9 && Iterate(77, 2, 4) == 4
  {
    assert Iterate(77, 2, 0) == 4;
    assert Iterate(77, 2, 1) == 16;
    assert Iterate(77, 2, 2) == 25;
    assert Iterate(77, 2, 3) == 9;
  }

  lemma TwoBits(n: int, seed: nat, k: nat, x: nat)
    requires n > 0 && k > 0 && Iterate(n, seed, k) == x
    ensures OutputBit(n, seed, 2, 2 * k - 2) == x / 2 % 2 && OutputBit(n, seed, 2, 2 * k - 1) == x % 2
  {
    hide Iterate;
    assert (2 * k - 2) / 2 == k - 1 && (2 * k - 1) / 2 == k - 1 && (2 * k - 2) % 2 == 0 && (2 * k - 1) % 2 == 1;
    assert Pow2(0) == 1 && Pow2(1) == 2;
  }

  lemma BitsOfIterates()
    ensures OutputBit(77, 2, 2, 0) == 0 && OutputBit(77, 2, 2, 1) == 0 && OutputBit(77, 2, 2, 2) == 0 && OutputBit(77, 2, 2, 3) == 1
    ensures OutputBit(77, 2, 2, 4) == 0 && OutputBit(77, 2, 2, 5) == 1 && OutputBit(77, 2, 2, 6) == 0 && OutputBit(77, 2, 2, 7) == 0
  {
    hide Iterate, OutputBit;
    IteratesOfTwo();
    TwoBits(77, 2, 1, 16);
    TwoBits(77, 2, 2, 25);
    TwoBits(77, 2, 3, 9);
    TwoBits(77, 2, 4, 4);
  }

  /** The primes 7 and 11 and the seed 2: two bits of each of 16, 25, 9 and 4. */
  method FirstByteOfSeven() returns (b: nat)
    ensures b == 0x14
  {
    hide Iterate, OutputBit, Prime;
    SmallPrimes();
    assert BitCount(77) == 7 && Pow2(2) == 4 && Pow2(3) == 8;
    BitsOfIterates();
    b := ByteAt(7, 11, 2, 2, 0);
  }
}
