/** Entries of the tables in crc.cpp, which linearity extends to all of them, and a checksum. */
module CrcExamples {
  import opened Numbers
  import opened Bytes
  import opened BitwiseXor
  import opened Crcs

  lemma {:induction false} StepsNext(poly: nat, c: nat, n: nat)
    ensures BitSteps(poly, c, n + 1) == BitStep(poly, BitSteps(poly, c, n))
    decreases n
  {
    hide BitStep;
    if n > 0 {
      StepsNext(poly, BitStep(poly, c), n - 1);
    }
  }

  lemma {:induction false} ShiftsFirst(poly: nat, k: nat, n: nat)
    requires k <= n
    ensures BitSteps(poly, Pow2(k), n) == BitSteps(poly, 1, n - k)
    decreases k
  {
    if k > 0 {
      hide BitStep;
      assert Pow2(k) == 2 * Pow2(k - 1);
      EvenStep(poly, Pow2(k));
      ShiftsFirst(poly, k - 1, n - 1);
    }
  }

  lemma EvenStep(poly: nat, c: nat)
    requires c % 2 == 0
    ensures BitStep(poly, c) == c / 2
  {
    hide XorWord;
    XorZeroWord(c / 2);
  }

  lemma Powers()
    ensures Pow2(0) == 1 && Pow2(1) == 2 && Pow2(2) == 4 && Pow2(3) == 8 && Pow2(4) == 16 && Pow2(5) == 32 && Pow2(6) == 64 && Pow2(7) == 128
  {
  }

  /** What eight bits make of each single bit, one after the other. */
  lemma SingleBits(poly: nat)
    ensures BitSteps(poly, 128, 8) == poly
    ensures BitSteps(poly, 64, 8) == BitStep(poly, BitSteps(poly, 128, 8))
    ensures BitSteps(poly, 32, 8) == BitStep(poly, BitSteps(poly, 64, 8))
    ensures BitSteps(poly, 16, 8) == BitStep(poly, BitSteps(poly, 32, 8))
    ensures BitSteps(poly, 8, 8) == BitStep(poly, BitSteps(poly, 16, 8))
    ensures BitSteps(poly, 4, 8) == BitStep(poly, BitSteps(poly, 8, 8))
    ensures BitSteps(poly, 2, 8) == BitStep(poly, BitSteps(poly, 4, 8))
    ensures BitSteps(poly, 1, 8) == BitStep(poly, BitSteps(poly, 2, 8))
  {
    hide BitSteps, BitStep, Pow2;
    Powers();
    OneStep(poly);
    ShiftsFirst(poly, 7, 8);
    ShiftsFirst(poly, 6, 8);
    ShiftsFirst(poly, 5, 8);
    ShiftsFirst(poly, 4, 8);
    ShiftsFirst(poly, 3, 8);
    ShiftsFirst(poly, 2, 8);
    ShiftsFirst(poly, 1, 8);
    StepsNext(poly, 1, 1);
    StepsNext(poly, 1, 2);
    StepsNext(poly, 1, 3);
    StepsNext(poly, 1, 4);
    StepsNext(poly, 1, 5);
    StepsNext(poly, 1, 6);
    StepsNext(poly, 1, 7);
  }

  lemma OneStep(poly: nat)
    ensures BitSteps(poly, 1, 1) == poly
  {
    XorZeroWord(poly);
    assert BitStep(poly, 1) == poly;
    assert BitSteps(poly, BitStep(poly, 1), 0) == poly;
  }

  lemma TableOfCrc32Xor1()
    ensures XorWord(0x3b6e20c, 0xedb88320) == 0xee0e612c
  {
    hide XorWord, XorByte;
    XorOctets(0x3, 0xed);
    XorByteIs(0x3, 0xed);
    XorOctets(0xb6, 0xb8);
    XorMore(0x3b6, 0xedb8, 0xee0e);
    XorOctets(0xe2, 0x83);
    XorMore(0x3b6e2, 0xedb883, 0xee0e61);
    XorOctets(0xc, 0x20);
    XorMore(0x3b6e20c, 0xedb88320, 0xee0e612c);
  }

  /** The entries of the table of CRC-32 for single bits. */
  lemma TableOfCrc32()
    ensures BitSteps(0xedb88320, 1, 8) == 0x77073096
    ensures BitSteps(0xedb88320, 2, 8) == 0xee0e612c
    ensures BitSteps(0xedb88320, 4, 8) == 0x076dc419
    ensures BitSteps(0xedb88320, 8, 8) == 0x0edb8832
    ensures BitSteps(0xedb88320, 16, 8) == 0x1db71064
    ensures BitSteps(0xedb88320, 32, 8) == 0x3b6e20c8
    ensures BitSteps(0xedb88320, 64, 8) == 0x76dc4190
    ensures BitSteps(0xedb88320, 128, 8) == 0xedb88320
  {
    hide BitSteps, XorWord;
    SingleBits(0xedb88320);
    EvenStep(0xedb88320, 0xedb88320);
    EvenStep(0xedb88320, 0x76dc4190);
    EvenStep(0xedb88320, 0x3b6e20c8);
    EvenStep(0xedb88320, 0x1db71064);
    EvenStep(0xedb88320, 0xedb8832);
    TableOfCrc32Xor1();
    EvenStep(0xedb88320, 0xee0e612c);
  }

  lemma TableOfCrc32CXor1()
    ensures XorWord(0x82f63b7, 0x82f63b78) == 0x8ad958cf
  {
    hide XorWord, XorByte;
    XorOctets(0x8, 0x82);
    XorByteIs(0x8, 0x82);
    XorOctets(0x2f, 0xf6);
    XorMore(0x82f, 0x82f6, 0x8ad9);
    XorOctets(0x63, 0x3b);
    XorMore(0x82f63, 0x82f63b, 0x8ad958);
    XorOctets(0xb7, 0x78);
    XorMore(0x82f63b7, 0x82f63b78, 0x8ad958cf);
  }

  lemma TableOfCrc32CXor2()
    ensures XorWord(0x456cac67, 0x82f63b78) == 0xc79a971f
  {
    hide XorWord, XorByte;
    XorOctets(0x45, 0x82);
    XorByteIs(0x45, 0x82);
    XorOctets(0x6c, 0xf6);
    XorMore(0x456c, 0x82f6, 0xc79a);
    XorOctets(0xac, 0x3b);
    XorMore(0x456cac, 0x82f63b, 0xc79a97);
    XorOctets(0x67, 0x78);
    XorMore(0x456cac67, 0x82f63b78, 0xc79a971f);
  }

  lemma TableOfCrc32CXor3()
    ensures XorWord(0x63cd4b8f, 0x82f63b78) == 0xe13b70f7
  {
    hide XorWord, XorByte;
    XorOctets(0x63, 0x82);
    XorByteIs(0x63, 0x82);
    XorOctets(0xcd, 0xf6);
    XorMore(0x63cd, 0x82f6, 0xe13b);
    XorOctets(0x4b, 0x3b);
    XorMore(0x63cd4b, 0x82f63b, 0xe13b70);
    XorOctets(0x8f, 0x78);
    XorMore(0x63cd4b8f, 0x82f63b78, 0xe13b70f7);
  }

  lemma TableOfCrc32CXor4()
    ensures XorWord(0x709db87b, 0x82f63b78) == 0xf26b8303
  {
    hide XorWord, XorByte;
    XorOctets(0x70, 0x82);
    XorByteIs(0x70, 0x82);
    XorOctets(0x9d, 0xf6);
    XorMore(0x709d, 0x82f6, 0xf26b);
    XorOctets(0xb8, 0x3b);
    XorMore(0x709db8, 0x82f63b, 0xf26b83);
    XorOctets(0x7b, 0x78);
    XorMore(0x709db87b, 0x82f63b78, 0xf26b8303);
  }

  /** Those of the table of CRC-32C. */
  lemma TableOfCrc32C()
    ensures BitSteps(0x82f63b78, 1, 8) == 0xf26b8303
    ensures BitSteps(0x82f63b78, 2, 8) == 0xe13b70f7
    ensures BitSteps(0x82f63b78, 4, 8) == 0xc79a971f
    ensures BitSteps(0x82f63b78, 8, 8) == 0x8ad958cf
    ensures BitSteps(0x82f63b78, 16, 8) == 0x105ec76f
    ensures BitSteps(0x82f63b78, 32, 8) == 0x20bd8ede
    ensures BitSteps(0x82f63b78, 64, 8) == 0x417b1dbc
    ensures BitSteps(0x82f63b78, 128, 8) == 0x82f63b78
  {
    hide BitSteps, XorWord;
    SingleBits(0x82f63b78);
    EvenStep(0x82f63b78, 0x82f63b78);
    EvenStep(0x82f63b78, 0x417b1dbc);
    EvenStep(0x82f63b78, 0x20bd8ede);
    TableOfCrc32CXor1();
    TableOfCrc32CXor2();
    TableOfCrc32CXor3();
    TableOfCrc32CXor4();
  }

  lemma Entry1()
    ensures XorWord(0xedb88320, 0x1db71064) == 0xf00f9344
  {
    hide XorWord, XorByte;
    XorOctets(0xed, 0x1d);
    XorByteIs(0xed, 0x1d);
    XorOctets(0xb8, 0xb7);
    XorMore(0xedb8, 0x1db7, 0xf00f);
    XorOctets(0x83, 0x10);
    XorMore(0xedb883, 0x1db710, 0xf00f93);
    XorOctets(0x20, 0x64);
    XorMore(0xedb88320, 0x1db71064, 0xf00f9344);
  }

  lemma Index1()
    ensures XorWord(0x80, 0x10) == 0x90
  {
    hide XorWord, XorByte;
    XorOctets(0x80, 0x10);
    XorByteIs(0x80, 0x10);
  }

  lemma Entry2()
    ensures XorWord(0xf00f9344, 0xedb8832) == 0xfed41b76
  {
    hide XorWord, XorByte;
    XorOctets(0xf0, 0xe);
    XorByteIs(0xf0, 0xe);
    XorOctets(0xf, 0xdb);
    XorMore(0xf00f, 0xedb, 0xfed4);
    XorOctets(0x93, 0x88);
    XorMore(0xf00f93, 0xedb88, 0xfed41b);
    XorOctets(0x44, 0x32);
    XorMore(0xf00f9344, 0xedb8832, 0xfed41b76);
  }

  lemma Index2()
    ensures XorWord(0x90, 0x8) == 0x98
  {
    hide XorWord, XorByte;
    XorOctets(0x90, 0x8);
    XorByteIs(0x90, 0x8);
  }

  lemma Entry3()
    ensures XorWord(0xfed41b76, 0x76dc419) == 0xf9b9df6f
  {
    hide XorWord, XorByte;
    XorOctets(0xfe, 0x7);
    XorByteIs(0xfe, 0x7);
    XorOctets(0xd4, 0x6d);
    XorMore(0xfed4, 0x76d, 0xf9b9);
    XorOctets(0x1b, 0xc4);
    XorMore(0xfed41b, 0x76dc4, 0xf9b9df);
    XorOctets(0x76, 0x19);
    XorMore(0xfed41b76, 0x76dc419, 0xf9b9df6f);
  }

  lemma Index3()
    ensures XorWord(0x98, 0x4) == 0x9c
  {
    hide XorWord, XorByte;
    XorOctets(0x98, 0x4);
    XorByteIs(0x98, 0x4);
  }

  lemma Entry4()
    ensures XorWord(0xf9b9df6f, 0xee0e612c) == 0x17b7be43
  {
    hide XorWord, XorByte;
    XorOctets(0xf9, 0xee);
    XorByteIs(0xf9, 0xee);
    XorOctets(0xb9, 0xe);
    XorMore(0xf9b9, 0xee0e, 0x17b7);
    XorOctets(0xdf, 0x61);
    XorMore(0xf9b9df, 0xee0e61, 0x17b7be);
    XorOctets(0x6f, 0x2c);
    XorMore(0xf9b9df6f, 0xee0e612c, 0x17b7be43);
  }

  lemma Index4()
    ensures XorWord(0x9c, 0x2) == 0x9e
  {
    hide XorWord, XorByte;
    XorOctets(0x9c, 0x2);
    XorByteIs(0x9c, 0x2);
  }

  /** The entry for 9E is made of those for 80, 10, 8, 4 and 2. */
  lemma Entry9E()
    ensures BitSteps(0xedb88320, 0x9e, 8) == 0x17b7be43
  {
    hide BitSteps, XorWord;
    TableOfCrc32();
    Entry1();
    Index1();
    BitStepsXor(0xedb88320, 0x80, 0x10, 8);
    Entry2();
    Index2();
    BitStepsXor(0xedb88320, 0x90, 0x8, 8);
    Entry3();
    Index3();
    BitStepsXor(0xedb88320, 0x98, 0x4, 8);
    Entry4();
    Index4();
    BitStepsXor(0xedb88320, 0x9c, 0x2, 8);
  }

  lemma TakeIn()
    ensures XorWord(0xffffffff, 0x61) == 0xffffff9e
  {
    hide XorWord, XorByte;
    XorOctets(0xff, 0x0);
    XorByteIs(0xff, 0x0);
    XorOctets(0xff, 0x0);
    XorMore(0xffff, 0x0, 0xffff);
    XorOctets(0xff, 0x0);
    XorMore(0xffffff, 0x0, 0xffffff);
    XorOctets(0xff, 0x61);
    XorMore(0xffffffff, 0x61, 0xffffff9e);
  }

  lemma TakeOut()
    ensures XorWord(0x17b7be43, 0xffffff) == 0x174841bc
  {
    hide XorWord, XorByte;
    XorOctets(0x17, 0x0);
    XorByteIs(0x17, 0x0);
    XorOctets(0xb7, 0xff);
    XorMore(0x17b7, 0xff, 0x1748);
    XorOctets(0xbe, 0xff);
    XorMore(0x17b7be, 0xffff, 0x174841);
    XorOctets(0x43, 0xff);
    XorMore(0x17b7be43, 0xffffff, 0x174841bc);
  }

  lemma Complement()
    ensures XorWord(0x174841bc, 0xffffffff) == 0xe8b7be43
  {
    hide XorWord, XorByte;
    XorOctets(0x17, 0xff);
    XorByteIs(0x17, 0xff);
    XorOctets(0x48, 0xff);
    XorMore(0x1748, 0xffff, 0xe8b7);
    XorOctets(0x41, 0xff);
    XorMore(0x174841, 0xffffff, 0xe8b7be);
    XorOctets(0xbc, 0xff);
    XorMore(0x174841bc, 0xffffffff, 0xe8b7be43);
  }

  lemma RegisterOfA()
    ensures Register(0xedb88320, NEGL, [0x61]) == 0x174841bc
  {
    hide BitSteps, XorWord;
    TakeIn();
    Entry9E();
    TakeOut();
    EightSteps(0xedb88320, 0xffffff9e);
    RegisterNext(0xedb88320, NEGL, [], 0x61);
    assert [] + [0x61] == [0x61];
    assert Register(0xedb88320, NEGL, []) == NEGL;
  }

  lemma BytesOfA()
    ensures LittleEndian(0xe8b7be43, 4) == [0x43, 0xbe, 0xb7, 0xe8]
  {
    assert LittleEndian(0xe8, 1) == [0xe8] + LittleEndian(0, 0);
    assert LittleEndian(0xe8b7, 2) == [0xb7] + LittleEndian(0xe8, 1);
    assert LittleEndian(0xe8b7be, 3) == [0xbe] + LittleEndian(0xe8b7, 2);
  }

  /** CRC-32 of the letter a. */
  method CrcOfA(address: nat) returns (hash: seq<Byte>)
    ensures hash == [0x43, 0xbe, 0xb7, 0xe8]
  {
    hide XorWord, Register, LittleEndian, Join;
    RegisterOfA();
    Complement();
    BytesOfA();
    JoinNext([[0x61]], 0);
    JoinEnds([[0x61]]);
    assert [] + [0x61] == [0x61];
    hash := CrcOfPieces(0xedb88320, [[0x61]], [address]);
  }
}
