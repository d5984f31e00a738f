# Crypto++ algorithms and the client session, modelled and proved

This project models the algorithmic core of the Crypto++ sources under `source/Cryptopp` and the
framing and queues of the client under `project/dummy`, and proves what these algorithms are for.
`dafny verify dfyconfig.toml` checks all of it.

| part | modules |
|---|---|
| multi-exponentiation in any abelian group | `Groups`, `WindowSliders`, `ScalarMultiplication`, `CascadeMultiplication`, `GeneralCascade` |
| Euclid and the modular inverse | `Divisibility`, `QuotientRings` |
| Blum Blum Shub and its jump | `NumberTheory`, `BlumBlumShubs` |
| counter mode and CCM | `BlockCiphers`, `CtrModes`, `CcmSpec`, `CcmCipher`, `CcmExamples` |
| CMAC and BLAKE2 | `HeldBack`, `Cmacs`, `CmacFields`, `Blake2`, `Blake2Examples` |
| BER and DER | `ByteQueues`, `BerLengths`, `DerReencoding`, `BerElements`, `ObjectIdentifiers`, `DerIntegers`, `DerExamples` |
| base-N codecs | `BitStrings`, `BaseN`, `BaseNDecoding`, `Groupers`, `BaseNRoundTrips`, `BaseNExamples` |
| the client session | `Frames`, `TcpSessions` |
| checksums | `Adler32s`, `Crcs`, `CrcExamples` |
| ciphers that invert by key reversal | `Feistels`, `DesCiphers`, `BlowfishCiphers`, `CastCiphers` |
| arithmetic, bits and bytes | `Arithmetic`, `Numbers`, `Bytes`, `BitwiseXor` |

Objects whose methods update fields are classes, with ghost fields for what has been fed to them;
their methods are proved against functions that state the standard or the mathematics directly.
Where input arrives in pieces, a method over an arbitrary list of pieces shows that cutting does not
matter. What the formats of the standards are is stated a second time, octet by octet, bit by bit or
by the published examples, in terms that do not use the definitions of the model. `Integer` is an unbounded integer; 16-, 32- and 64-bit limits are written out where the
result depends on them. Block ciphers, compression functions, S-boxes, round keys and the group
are arbitrary. An exception is an outcome or a failure result.

Where the code does not do what it is for, the condition under which it does is proved, and an
input that fails is given:

- the modular inverse compares with zero modulo the modulus, so an argument that is not reduced can
  end its loop too soon (`QuotientRings.QuotientRing.MultiplicativeInverse`, `UnreducedArgumentFails`);
- the jump of Blum Blum Shub misses when the exponent reduces to zero and the seed shares a factor
  with the modulus; distinct primes that are 3 modulo 4, as the header asks for, exclude this
  (`BlumBlumShubs.BlumBlumShub.Seek`, `SeekCanMiss`, `BlumPrimesNeverReduceToZero`);
- the BLAKE2 constructor for hashing without a key does not put its digest size into the parameter
  block, so a shorter hash is the longest one cut short (`Blake2.HashStart`, `TwentyByteHashDiffers`);
- `BLAKE2_Base::Restart` with a caller's parameter block writes the length of the key block where
  the length of the key belongs, and the digest size for the digest length (`Blake2.RestartLengths`,
  `RestartHash`, `RestartKeyed`, `RestartOfOneByteKey`);
- `SetKey` on a BLAKE2 object does not restart it, so the hash under way ignores the key
  (`Blake2.HashAfterSetKey`, `LateKey`);
- `DERReencode` leaves everything below an element of definite length as it is
  (`BerElements.ShortestOutput`, `InnerLengthIsKept`);
- an object identifier keeps its first two arcs only if they fit one octet
  (`ObjectIdentifiers.IdentifierRoundTrip`, `LargeSecondArcIsLost`).

The client's handler (`project/dummy/tcp_handler.ipp:41`) makes a new session for each attempt to
connect and binds its route. Such a session, while connected, never has a buffer queued without a
write under way, and hands on every packet that it polls (`TcpSessions.Run`). The class by itself
does not require this. What happens when `tcp_session::on_connect` is called again on the same
session, which no caller in the repository does, is stated beside it: a buffer left in the queue
blocks all later ones (`ReconnectCanBlock`), and after a failed attempt packets are dropped
(`FailedAttemptDropsPackets`).

The code accepts a first length octet of 0xFF, which section 8.1.3.5 of ITU-T X.690 reserves; the
model does the same.

## Model

| member | source | states |
|---|---|---|
| WindowSliders.WindowSlider.FindNextWindow | source/Cryptopp/algebra.cpp:220-247 | what was still owed beyond the old digit is exactly what is owed at the new position, so that the signed digits sum to the exponent although a negative digit adds to what remains; finished exactly when nothing is owed; each digit at least a window above the one before; the search ends |
| WindowSliders.WindowSlider.TakeDigit | source/Cryptopp/algebra.cpp:237-246 | the digit is odd, below two to the window size and negative only where inversion is cheap; with the rest it is the value it was taken from, and the rest stays within the length of the exponent |
| ScalarMultiplication.Collapse | source/Cryptopp/algebra.cpp:302-312 | the suffix-sum pass turns the buckets b_k into the sum of (2k+1) b_k |
| ScalarMultiplication.Start | source/Cryptopp/algebra.cpp:263-269 | an exponent begins with empty buckets and everything still to come |
| ScalarMultiplication.Deposit | source/Cryptopp/algebra.cpp:280-288 | putting a doubled base into the bucket of a signed digit keeps buckets plus what is to come equal to exponent times base |
| ScalarMultiplication.WeightedByTails | source/Cryptopp/algebra.cpp:305-311 | sum of suffix sums, doubled, plus the total is the sum weighted by 2k+1 |
| ScalarMultiplication.SimultaneousMultiply | source/Cryptopp/algebra.cpp:255-314 | in every abelian group, for all non-negative exponents and with or without cheap inversion, each result is its exponent times the base; terminates |
| ScalarMultiplication.ScalarMultiply | source/Cryptopp/algebra.cpp:90-95 | the single result is the exponent times the base |
| CascadeMultiplication.FillTable | source/Cryptopp/algebra.cpp:105-129 | every table entry that can be read, one with an odd row or column, holds the combination it stands for |
| CascadeMultiplication.TakeOutTwos | source/Cryptopp/algebra.cpp:142-151 | halving both digits while both are even keeps their value against the doublings before and after; the doublings before never go below zero |
| CascadeMultiplication.FlushWindow | source/Cryptopp/algebra.cpp:140-167 | after a window the result is the combination of the exponent bits read so far |
| CascadeMultiplication.CascadeScalarMultiply | source/Cryptopp/algebra.cpp:97-170 | e1 x + e2 y in every abelian group, for all non-negative exponents and all three window widths |
| GeneralCascade.SumPermuted | source/Cryptopp/algebra.cpp:184-185 | the sum of exponent times base does not depend on the order of the pairs |
| GeneralCascade.ReducedKeepsSum | source/Cryptopp/algebra.cpp:189-196 | dividing the largest exponent by the next and accumulating the quotient into the other base keeps the sum |
| GeneralCascade.RootIsLargest | source/Cryptopp/algebra.cpp:184-189 | the first element of a heap has the largest exponent |
| GeneralCascade.PushHeap | source/Cryptopp/algebra.cpp:198 | restores the heap and permutes the pairs |
| GeneralCascade.PopHeap | source/Cryptopp/algebra.cpp:185-199 | moves the largest pair to the end, leaves a heap before it, and permutes the pairs |
| GeneralCascade.Reorder | source/Cryptopp/algebra.cpp:198-199 | after a division the largest exponent is last and the next largest first again; the sum is kept |
| GeneralCascade.Divide | source/Cryptopp/algebra.cpp:189-196 | one division step keeps the sum and makes the sum of the exponents fall |
| GeneralCascade.GeneralCascadeMultiplication | source/Cryptopp/algebra.cpp:172-204 | the result for any number of pairs is the sum of exponent times base of all of them |
| QuotientRings.Gcd | source/Cryptopp/algebra.cpp:56-68 | a greatest common divisor: it divides both and every common divisor divides it; not negative for arguments that are not, and then one exactly if they are coprime; negative exactly for a zero and a negative argument in that order, or a negative first argument that divides the second |
| QuotientRings.RelativelyPrime | source/Cryptopp/nbtheory.h:107-108 | for arguments that are not negative, whether they are coprime |
| QuotientRings.QuotientRing.MultiplicativeInverse | source/Cryptopp/algebra.cpp:70-88 | returns an inverse modulo m, or zero without one, exactly when the argument is reduced in absolute value, the modulus is one or there is a common divisor; terminates; at most half of the modulus in absolute value for an argument from zero up to the modulus |
| QuotientRings.OneLeastInverse | source/Cryptopp/algebra.cpp:70-88 | the inverse of a reduced argument that is not negative is the one of least absolute value; there is only one such, apart from the two halves of the modulus |
| QuotientRings.InverseOfThree | source/Cryptopp/algebra.cpp:70-88 | it need not be a remainder: the inverse of 3 modulo 7 comes out as -2 |
| QuotientRings.Unreduced | source/Cryptopp/algebra.h:401-402 | why: the comparison with zero is modulo m, so a multiple of m ends the loop too soon |
| QuotientRings.UnreducedArgumentFails | source/Cryptopp/algebra.cpp:70-88 | a concrete unreduced argument that has an inverse and gets a wrong answer |
| NumberTheory.Fermat | source/Cryptopp/blumshub.cpp:55-61 | a to the p - 1 is 1 modulo a prime p that does not divide a; what the jump rests on |
| NumberTheory.ReducedExponent | source/Cryptopp/blumshub.cpp:59-60 | reducing the exponent modulo (p-1)(q-1) keeps the power modulo pq exactly when the reduced exponent is not zero or the base is coprime to pq |
| BlumBlumShubs.IterateIsPower | source/Cryptopp/blumshub.cpp:9-26 | the n-th square of the seed is a power of it with exponent a power of two |
| BlumBlumShubs.BlumBlumShub.constructor | source/Cryptopp/blumshub.cpp:9-15 | starts on the first iterate with all its bits to come |
| BlumBlumShubs.BlumBlumShub.GenerateBit | source/Cryptopp/blumshub.cpp:17-26 | the next bit of the stream defined by the iterates, although squaring is put off until a bit is needed |
| BlumBlumShubs.BlumBlumShub.GenerateByte | source/Cryptopp/blumshub.cpp:28-34 | the next eight bits of the stream, first bit highest |
| BlumBlumShubs.MaxBitsIsLogarithm | source/Cryptopp/blumshub.cpp:12 | the number of bits output of each iterate is the logarithm to base two, rounded down, of the number of binary digits of the modulus |
| BlumBlumShubs.GeneratedByte | source/Cryptopp/blumshub.cpp:17-34 | each bit of a byte of the stream by division from the iterate it belongs to |
| BlumBlumShubs.ByteAt | source/Cryptopp/blumshub.cpp:9-40 | the byte that a new generator gives after any number of others, in these terms |
| BlumBlumShubs.FirstByteOfSeven | source/Cryptopp/blumshub.cpp:9-34 | 0x14 for the primes 7 and 11 and the seed 2 |
| BlumBlumShubs.BlumBlumShub.GenerateBlock | source/Cryptopp/blumshub.cpp:36-40 | the next bytes of the stream |
| BlumBlumShubs.BlumBlumShub.Seek | source/Cryptopp/blumshub.cpp:55-62 | lands at the given byte of the stream exactly when the reduced exponent is not zero or the seed is coprime to pq |
| BlumBlumShubs.Landing | source/Cryptopp/blumshub.cpp:55-62 | the position and iterate after a jump are those after generating that many bytes |
| BlumBlumShubs.BlumPrimesNeverReduceToZero | source/Cryptopp/blumshub.h:45 | for distinct primes that are 3 modulo 4 the reduced exponent is never zero, so that every jump lands |
| BlumBlumShubs.SeekCanMiss | source/Cryptopp/blumshub.cpp:55-62 | concrete primes, not both 3 modulo 4, and an index where the reduced exponent is zero |
| BlumBlumShubs.SeekOrDiscard | source/Cryptopp/blumshub.cpp:55-62 | jumping to n and generating, or generating and discarding n bytes first, give the same bytes: for distinct primes that are 3 modulo 4 and every seed, and for other distinct primes with a coprime seed |
| BlockCiphers.ChainBlocks | source/Cryptopp/cryptlib.cpp:178-227 | the block driver with input xored in: chaining over the whole blocks, and the number of bytes left over |
| BlockCiphers.ChainAppend | source/Cryptopp/cryptlib.cpp:178-227 | chaining over two stretches of blocks is chaining over both together |
| CtrModes.CounterIsNumber | source/Cryptopp/modes.cpp:108-118 | adding to the counter byte by byte with a carry adds to the number that the block is, modulo its power of 256 |
| CtrModes.CarryFromLastByte | source/Cryptopp/modes.cpp:120-138 | where the last byte of the counter becomes zero, counting the bytes before it on by one gives the counter of the next block |
| CtrModes.IncrementCounterByOne | source/Cryptopp/misc.h:1026-1031 | adds one to the number although it stops at the first byte without a carry |
| CtrModes.CtrMode.SeekToIteration | source/Cryptopp/modes.cpp:108-118 | the register counted on, by the carry loop in place |
| CtrModes.CtrMode.AdvancedProcessBlocks | source/Cryptopp/cryptlib.cpp:178-227 | the blocks of the key stream, or the input masked with them, while the last byte alone counts |
| CtrModes.CtrMode.OperateKeystream | source/Cryptopp/modes.cpp:125-142 | in stretches of up to 256 blocks, with the carry between them: each counter block is the register counted on by its number |
| CtrModes.CtrMode.ProcessData | source/Cryptopp/strciphr.cpp:67-123 | masks with the key stream from the present position on, from what is left over of a block, whole blocks and the buffer |
| CtrModes.CtrMode.Seek | source/Cryptopp/strciphr.cpp:135-150 | the key stream goes on from the given position |
| CtrModes.RoundTrip | source/Cryptopp/strciphr.cpp:67-150 | what was masked in pieces of any size comes back from any position on |
| CcmSpec.CtrStreamIsKeyStream | source/Cryptopp/modes.cpp:108-118 | the key stream of counter mode from A_0 on is that of section 2.3 of RFC 3610 for as long as a message may be |
| CcmCipher.CtrCalls | source/Cryptopp/ccm.cpp:42-136 | the counter mode object of one message, moved past A_0 and back, gives the ciphertext and the masked tag of section 2.3 of RFC 3610 |
| CcmSpec.AuthenticationInStages | source/Cryptopp/ccm.cpp:93-130 | the CBC-MAC of section 2.2 of RFC 3610, computed over first block, header and message one after the other |
| CcmSpec.CryptTwice | source/Cryptopp/ccm.cpp:132-136 | masking twice gives the text back |
| CcmCipher.Ccm.AuthenticateData | source/Cryptopp/authenc.cpp:11-46 | however data is cut, everything fed is in the chaining value or in the buffer |
| CcmCipher.Ccm.SetKey | source/Cryptopp/ccm.cpp:11-26 | accepts block size 16 and even digest sizes from 4 to 16 only |
| CcmCipher.Ccm.Resynchronize | source/Cryptopp/authenc.cpp:62-73 | state error without a key; nonces of 7 to 13 bytes only; a fresh message otherwise |
| CcmCipher.Ccm.Resync | source/Cryptopp/ccm.cpp:28-49 | the first counter block of section 2.3 of RFC 3610, its counter past S_0 |
| CcmCipher.Ccm.SpecifyDataLengths | source/Cryptopp/ccm.cpp:51-91 | after it B_0 has been enciphered and the header length is encoded in front of the header, as in section 2.2 of RFC 3610; errors for a message too long for the length field and for a wrong state |
| CcmCipher.Ccm.PutFirstBlock | source/Cryptopp/ccm.cpp:62-65 | the three overlapping writes form B_0 |
| CcmCipher.Ccm.PutHeaderPrefix | source/Cryptopp/ccm.cpp:67-90 | the three encodings of the header length |
| CcmCipher.Ccm.AuthenticateLastHeaderBlock | source/Cryptopp/ccm.cpp:100-114 | the header padded with zeros, or an error if its length is not the announced one |
| CcmCipher.Ccm.AuthenticateLastConfidentialBlock | source/Cryptopp/ccm.cpp:116-130 | the message padded with zeros, or an error if its length is not the announced one |
| CcmCipher.Ccm.Update | source/Cryptopp/authenc.cpp:75-102 | header data before the message, footer data after it, state errors otherwise |
| CcmCipher.Ccm.ProcessData | source/Cryptopp/authenc.cpp:104-134 | the next piece of output is input masked with the key stream from where the message stands; the plaintext is authenticated in either direction; all five error conditions |
| CcmCipher.Ccm.TruncatedFinal | source/Cryptopp/authenc.cpp:136-176 | succeeds exactly when what was announced has been supplied, and then gives the tag of section 2.3 of RFC 3610 |
| CcmCipher.Ccm.TruncatedVerify | source/Cryptopp/cryptlib.cpp:408-414 | true exactly for the beginning of the tag |
| CcmExamples.CounterBlockOctets | source/Cryptopp/ccm.cpp:32-49 | A_i octet by octet: L - 1, the nonce, and i |
| CcmExamples.FirstBlockOctets | source/Cryptopp/ccm.cpp:62-64 | B_0 octet by octet: the four fields of its flags, the nonce, and the length of the message |
| CcmExamples.HeaderPrefixOctets | source/Cryptopp/ccm.cpp:67-90 | the length of the header in two octets, in four behind FF FE, or in eight behind FF FF |
| CcmExamples.HeaderPrefixExamples | source/Cryptopp/ccm.cpp:67-90 | none, eight, and the lengths on either side of the two limits |
| CcmExamples.Sizes | source/Cryptopp/ccm.cpp:11-26 | the sizes of nonces and tags that are accepted, one by one |
| CcmExamples.PacketVector | source/Cryptopp/cryptlib.cpp:268-275 | packet vector 1 of RFC 3610 for every cipher that agrees with AES where the vector uses it, in every cutting |
| CcmExamples.TinyExample | source/Cryptopp/cryptlib.cpp:268-275 | ciphertext and tag of one byte under the cipher that changes nothing |
| CcmCipher.Ccm.EncryptAndAuthenticate | source/Cryptopp/cryptlib.cpp:268-275 | ciphertext and tag of RFC 3610, however header and message are cut |
| CcmCipher.Ccm.DecryptAndVerify | source/Cryptopp/cryptlib.cpp:277-284 | the text masked back, and whether the tag is its tag, however header and ciphertext are cut |
| CcmCipher.RoundTrip | source/Cryptopp/cryptlib.cpp:268-284 | for every block cipher, nonce, header, message and cutting on both sides decryption recovers the message and the tag verifies |
| Cmacs.ShiftedBytesShift | source/Cryptopp/cmac.cpp:15-21 | shifting byte by byte with carries is shifting the number |
| Cmacs.ShiftInPlace | source/Cryptopp/cmac.cpp:15-21 | the loop over pairs of bytes carries right although it overwrites as it goes |
| Cmacs.MulU | source/Cryptopp/cmac.cpp:11-41 | doubling as in section 6.1 of NIST SP 800-38B; fails only for block sizes without a constant |
| CmacFields.DoubleOf16 | source/Cryptopp/cmac.cpp:11-34 | bit by bit: multiplication by x modulo x^128 + x^7 + x^2 + x + 1 for blocks of 16 bytes |
| CmacFields.DoubleOf8 | source/Cryptopp/cmac.cpp:11-31 | the same modulo x^64 + x^4 + x^3 + x + 1 for blocks of 8 bytes |
| CmacFields.DoubleOf32 | source/Cryptopp/cmac.cpp:11-37 | and modulo x^256 + x^10 + x^5 + x + 1 for blocks of 32 bytes |
| CmacFields.ExampleSubkeys | source/Cryptopp/cmac.cpp:43-57 | both subkeys of the AES-128 example of NIST SP 800-38B |
| CmacFields.ExampleTags | source/Cryptopp/cmac.cpp:43-122 | its tags of the empty message, of one block and of two blocks and a half, in every cutting |
| Cmacs.TagFromChain | source/Cryptopp/cmac.cpp:103-122 | the tag of section 6.2 of NIST SP 800-38B from the chaining value before the last block |
| Cmacs.Cmac.UncheckedSetKey | source/Cryptopp/cmac.cpp:43-57 | both subkeys and an empty message |
| Cmacs.Cmac.Update | source/Cryptopp/cmac.cpp:59-101 | adds to the message; its last block, even if complete, is held back |
| Cmacs.Cmac.CompleteBlock | source/Cryptopp/cmac.cpp:67-83 | a full register is enciphered only if more of the message follows |
| Cmacs.Cmac.ProcessAllButLast | source/Cryptopp/cmac.cpp:85-91 | all whole blocks but the last are chained |
| Cmacs.Cmac.TruncatedFinal | source/Cryptopp/cmac.cpp:103-122 | the tag of the message, and a fresh start |
| Cmacs.MacOfPieces | source/Cryptopp/cmac.cpp:43-122 | the tag of section 6.2 of NIST SP 800-38B for every way of cutting the message |
| Blake2.CounterCarry | source/Cryptopp/blake2.cpp:469-474 | the comparison used as a carry counts modulo the square of the word |
| Blake2.AbsorbAppend | source/Cryptopp/blake2.cpp:410-434 | compressing two stretches of blocks one after the other |
| Blake2.Blake2Base.Hash | source/Cryptopp/blake2.cpp:347-354 | the constructor for hashing: the digest length of its parameter block is the default one, whatever the digest size |
| Blake2.Blake2Base.WithKey | source/Cryptopp/blake2.cpp:356-369 | the constructor that takes a key: the parameter block has the digest size and the key length, the key is the beginning of the stream |
| Blake2.Blake2Base.UncheckedSetKey | source/Cryptopp/blake2.cpp:280-337 | the key filled up to a block, and the parameter block for the digest length given; the digest size of the object stays as it is |
| Blake2.Blake2Base.SetKey | source/Cryptopp/cryptlib.cpp:97-101 | rejects keys that are too long; sets key and parameter block and leaves the stream and the chaining value it started from |
| Blake2.HashAfterSetKey | source/Cryptopp/cryptlib.cpp:97-101 | a key set on any object counts exactly from the next restart or final on: the hash before it is that of the stream as it was |
| Blake2.LateKey | source/Cryptopp/cryptlib.cpp:97-101 | what a new hashing object goes on with after a key was set on it is what the key calls for exactly if the key is empty |
| Blake2.KeyLengths | source/Cryptopp/blake2.cpp:308 | two parameter blocks, and the chaining values they start with, agree exactly if their key lengths do |
| Blake2.DigestLengths | source/Cryptopp/blake2.cpp:309 | two parameter blocks, and the chaining values they start with, agree exactly if their digest lengths do |
| Blake2.HashStart | source/Cryptopp/blake2.cpp:347-354 | the constructor for hashing starts from the block of RFC 7693 exactly for the full digest size |
| Blake2.TwentyByteHashDiffers | source/Cryptopp/blake2.cpp:347-354 | a compression function for which its hash of 20 bytes is not that of RFC 7693 |
| Blake2.Blake2Base.Restart | source/Cryptopp/blake2.cpp:372-376 | the chaining value of the own parameter block; a key is the beginning of the stream |
| Blake2.Blake2Base.RestartWith | source/Cryptopp/blake2.cpp:379-407 | starts from a block and a counter of the caller's, with both length bytes replaced |
| Blake2.RestartLengths | source/Cryptopp/blake2.cpp:383-388 | the object's own block given back to it is kept exactly without a key and with the digest length equal to the digest size |
| Blake2.RestartHash | source/Cryptopp/blake2.cpp:347-388 | for an object of the constructor for hashing: exactly for the full digest size |
| Blake2.RestartKeyed | source/Cryptopp/blake2.cpp:356-388 | for an object of the constructor that takes a key: exactly for the empty key |
| Blake2.RestartOfOneByteKey | source/Cryptopp/blake2.cpp:383-388 | a key of one byte for which 64 or 128 is written |
| Blake2.Blake2Base.Update | source/Cryptopp/blake2.cpp:410-441 | adds to the stream; a full buffer is compressed only if more follows |
| Blake2.Blake2Base.IncrementCounter | source/Cryptopp/blake2.cpp:469-474 | the two words hold the number of bytes modulo the square of the word |
| Blake2.Blake2Base.TruncatedFinal | source/Cryptopp/blake2.cpp:444-466 | the hash of the stream, cut, and a fresh start; fails if more is asked for than the digest size |
| Blake2Examples.HashIsLoop | source/Cryptopp/blake2.cpp:410-474 | the loop of section 3.3 of RFC 7693: which bytes, counter words and finalization words go into each compression |
| Blake2Examples.ParameterOctets | source/Cryptopp/blake2.cpp:307-337 | the parameter block octet by octet |
| Blake2Examples.HashOfAbc | source/Cryptopp/blake2.cpp:347-474 | for every compression function and cutting, what is compressed for abc |
| Blake2Examples.MacOfAbc | source/Cryptopp/blake2.cpp:356-474 | the same with a key of one byte, which makes a block of its own |
| Blake2.MacOfPieces | source/Cryptopp/blake2.cpp:356-474 | blocks and counters of section 3.3 of RFC 7693 for every way of cutting the message, every key and every digest size |
| Blake2.HashOfPieces | source/Cryptopp/blake2.cpp:347-474 | for every way of cutting the message, the beginning of the unkeyed hash for the full digest size |
| BerLengths.BytePrecision | source/Cryptopp/misc.h:626-642 | the binary search finds the least number of bytes |
| BerLengths.DERLengthEncode | source/Cryptopp/asn.cpp:17-36 | the definite form with the fewest octets, and their number |
| BerLengths.BERLengthDecode | source/Cryptopp/asn.cpp:38-74 | definite lengths below 2^64 in any form, the indefinite form, failure for everything else |
| BerLengths.LengthRoundTrip | source/Cryptopp/asn.cpp:17-74 | decoding undoes encoding for every 64-bit length, whatever follows |
| BerLengths.DerLengthIsShortest | source/Cryptopp/asn.cpp:17-36 | no octets that decode to a length are fewer than those encoded (section 10.1 of ITU-T X.690) |
| DerReencoding.BERGeneralDecoder.Init | source/Cryptopp/asn.cpp:393-404 | tag and length, and no indefinite length for a primitive tag |
| DerReencoding.BERGeneralDecoder.TransferTo | source/Cryptopp/asn.cpp:460-486 | moves no more than the length that remains, and reduces it |
| DerReencoding.BERGeneralDecoder.MessageEnd | source/Cryptopp/asn.cpp:445-458 | succeeds at the end of the contents only, and takes end-of-contents octets |
| DerReencoding.DERGeneralEncoder.MessageEnd | source/Cryptopp/asn.cpp:513-519 | what was kept back becomes one element with the shortest length |
| DerReencoding.ParseComplete | source/Cryptopp/asn.cpp:202-217 | every well-formed element is read as itself, whatever follows |
| DerReencoding.Reencoded | source/Cryptopp/asn.cpp:202-217 | the element put out is well formed, has a definite length in the shortest form, and is at most three times as long |
| DerExamples.EmptyIndefinite | source/Cryptopp/asn.cpp:202-217 | for every tag: an element of indefinite length without contents is accepted exactly if bit 5 of the tag is set, and becomes one of length zero |
| DerExamples.ContextSpecific | source/Cryptopp/asn.cpp:202-217 | A0 80 04 01 05 00 00 becomes A0 03 04 01 05, and what follows is left |
| DerExamples.Nested | source/Cryptopp/asn.cpp:202-217 | two sequences of indefinite length around an integer with a long length |
| DerExamples.PrimitiveIndefinite | source/Cryptopp/asn.cpp:402-403 | 13 80 00 00 is refused |
| DerExamples.LengthExamples | source/Cryptopp/asn.cpp:17-36 | the octets of 0x7f, 0x80 and 0x1234 |
| DerExamples.LengthsRead | source/Cryptopp/asn.cpp:38-86 | a long form with a leading zero, and the indefinite form |
| DerExamples.IntegerExamples | source/Cryptopp/asn.h:442-468 | the octets of 127, 128 and 256 as INTEGER and of true as BOOLEAN |
| DerExamples.IdentifierExample | source/Cryptopp/asn.cpp:245-255 | the octets of 1.2.840.113549 |
| DerReencoding.DERReencode | source/Cryptopp/asn.cpp:202-217 | succeeds exactly on a well-formed element, takes exactly it, and appends its re-encoding; terminates on every input |
| BerElements.Output | source/Cryptopp/asn.cpp:202-217 | the output as an element of ITU-T X.690: valid, of the same tag and tree, its own length definite; and its octets are those of the code |
| BerElements.ReencodeElement | source/Cryptopp/asn.cpp:202-217 | for every encoding of every tree: consumed exactly, put out with the same tree |
| BerElements.ShortestOutput | source/Cryptopp/asn.cpp:207-212 | every length of the output is definite and the shortest (section 10.1 of ITU-T X.690) exactly when none below an element of definite length needed changing |
| BerElements.InnerLengthIsKept | source/Cryptopp/asn.cpp:207-208 | an element of six octets in which an indefinite length is kept |
| BerElements.OutputIsFixed | source/Cryptopp/asn.cpp:202-217 | re-encoding twice is re-encoding once |
| ObjectIdentifiers.EncodeValue | source/Cryptopp/asn.cpp:219-224 | seven bits an octet, as few octets as possible |
| ObjectIdentifiers.DecodeValue | source/Cryptopp/asn.cpp:226-243 | the number and the count of its octets; failure exactly for a number not complete or of more than 32 bits |
| ObjectIdentifiers.ArcRoundTrip | source/Cryptopp/asn.cpp:219-243 | decoding undoes encoding for every 32-bit arc |
| ObjectIdentifiers.ArcIsShortest | source/Cryptopp/asn.cpp:219-224 | no shorter octets denote the same number, and the first is not 0x80 (section 8.19 of ITU-T X.690) |
| ObjectIdentifiers.IdentifierRoundTrip | source/Cryptopp/asn.cpp:245-284 | decoding undoes encoding exactly when the second arc is below 40 and the first two fit their octet |
| ObjectIdentifiers.LargeSecondArcIsLost | source/Cryptopp/asn.cpp:249 | two identifiers with the same encoding |
| ObjectIdentifiers.OID.DEREncode | source/Cryptopp/asn.cpp:245-255 | the encoding of section 8.19 |
| ObjectIdentifiers.OID.BERDecode | source/Cryptopp/asn.cpp:257-284 | the identifier and what follows it, or failure |
| DerIntegers.DEREncodeUnsigned | source/Cryptopp/asn.h:442-468 | tag, shortest length and contents, and their number |
| DerIntegers.IntegerContents | source/Cryptopp/asn.h:451-461 | as few octets as hold the value and a clear sign bit |
| DerIntegers.ContentsAreShortest | source/Cryptopp/asn.h:451-461 | no shorter contents with a clear sign bit denote the value (section 8.3 of ITU-T X.690) |
| DerIntegers.BERDecodeUnsigned | source/Cryptopp/asn.h:478-510 | the value of any number of octets if it fits the type and the bounds, failure otherwise |
| DerIntegers.UnsignedRoundTrip | source/Cryptopp/asn.h:441-510 | decoding undoes encoding for every value in bounds, for BOOLEAN exactly for 0 and 255 |
| BitStrings.Regrouping | source/Cryptopp/basecode.cpp:48-178 | dividing bits into narrower digits and back gives the bytes |
| BaseN.FindBlockSize | source/Cryptopp/basecode.cpp:40-43 | the least number of characters that hold whole bytes |
| BaseN.Encoder.PutByte | source/Cryptopp/basecode.cpp:56-81 | the bits of a byte follow the bits in the buffer; indices stay inside |
| BaseNExamples.EncodingAt | source/Cryptopp/basecode.cpp:48-113 | character by character: which bits of the input character j stands for, and where padding begins |
| BaseNExamples.EncodingLength | source/Cryptopp/basecode.cpp:48-113 | as many characters as the bits need, and padding to the next whole block |
| BaseNExamples.Section10 | source/Cryptopp/basecode.cpp:48-113 | f, fo and foo of section 10 of RFC 4648 in characters of six bits, in every cutting |
| BaseNExamples.GroupsExample | source/Cryptopp/basecode.cpp:215-243 | two messages in groups of two, without a separator at the end |
| BaseNExamples.Letters | source/Cryptopp/basecode.cpp:178-201 | letters are read in both cases exactly if case does not matter |
| BaseN.Encoder.Put2 | source/Cryptopp/basecode.cpp:48-113 | however the input is cut, the output is that of section 4 of RFC 4648 for any width |
| BaseN.Encoder.EndMessage | source/Cryptopp/basecode.cpp:95-111 | zeros complete the last character, padding the last block |
| BaseNDecoding.FindDecodedSize | source/Cryptopp/basecode.cpp:125-128 | the least number of bytes that hold whole characters |
| BaseNDecoding.Decoder.PutDigit | source/Cryptopp/basecode.cpp:147-164 | the bits of a digit follow the bits in the buffer, across two bytes if need be; indices stay inside |
| BaseNDecoding.Decoder.Put2 | source/Cryptopp/basecode.cpp:133-176 | however the characters are cut, their digits in groups of eight bits; other bytes are skipped and an incomplete byte is dropped |
| BaseNRoundTrips.InitializeDecodingLookupArray | source/Cryptopp/basecode.cpp:179-198 | each byte is read as the last character of the alphabet it matches, and is skipped if there is none |
| Groupers.Grouper.Put2 | source/Cryptopp/basecode.cpp:215-243 | a separator after each full group that something follows, a terminator at the end, however the input is cut |
| BaseNRoundTrips.DecodingUndoesEncoding | source/Cryptopp/basecode.cpp:48-243 | for every input, width, padding and grouping, if the alphabet is unambiguous and padding, separator and terminator are outside it |
| BaseNRoundTrips.RoundTrip | source/Cryptopp/basecode.cpp:48-243 | the three filters in a row, each fed in any pieces, give the input back |
| Frames.FrameExample | project/dummy/outbound.h:19-54 | the octets of a packet of three bytes |
| Frames.Outbound.Encode | project/dummy/outbound.h:19-54 | header and body in the buffer; nothing for an empty body |
| Frames.Inbound.Decide | project/dummy/inbound.h:21-30 | the body size that the header declares, cut to 16 bits |
| Frames.Inbound.BodyDecode | project/dummy/inbound.h:32-48 | leaves the body as it is and fails for an empty one |
| Frames.FramesRoundTrip | project/dummy/tcp_session.cpp:234-479 | the packets in a stream of frames are the packets sent, in order and once each; what follows is kept |
| Frames.PartialFrame | project/dummy/tcp_session.cpp:234-479 | no part of a frame is taken for a packet |
| Frames.ReadPackets | project/dummy/tcp_session.cpp:234-479 | the read loop finds exactly the complete packets of any stream |
| Frames.Transmit | project/dummy/outbound.h:19-54 | every list of packets with bodies of 1 to 65519 bytes arrives as it was sent |
| TcpSessions.TcpSession.OnClose | project/dummy/tcp_session.cpp:39-114 | closes a connected session once |
| TcpSessions.TcpSession.OnSend | project/dummy/tcp_session.cpp:116-126 | refused unless connected |
| TcpSessions.TcpSession.RunSend | project/dummy/tcp_session.cpp:127-148 | queues the buffer and starts a write only into an empty queue |
| TcpSessions.TcpSession.Write | project/dummy/tcp_session.cpp:532-596 | releases the head; the queue is never empty then; writes the next one while connected |
| TcpSessions.TcpSession.Connect | project/dummy/tcp_session.cpp:153-232 | a failure is a closing without a disconnected and clears the route; after a success whatever is queued is being written, exactly if the queue was empty or a write under way |
| TcpSessions.TcpSession.ReadHeader | project/dummy/tcp_session.cpp:234-375 | keeps the packets routed equal to those complete in the bytes read; goes on reading exactly while connected |
| TcpSessions.TcpSession.ReadBody | project/dummy/tcp_session.cpp:377-479 | the same for bodies |
| TcpSessions.TcpSession.Route | project/dummy/tcp_session.cpp:481-502 | queues the packet and has it polled only if it is alone |
| TcpSessions.TcpSession.RoutePoll | project/dummy/tcp_session.cpp:504-530 | polls the first packet, the queue never being empty then, and hands it on exactly while the route is bound |
| TcpSessions.TcpSession.Step | project/dummy/tcp_session.cpp:39-596 | every step keeps the invariant; a queue that is not being written stays so until the session is closed; a session whose route is not bound never hands anything on |
| TcpSessions.ParseMore | project/dummy/tcp_session.cpp:234-479 | packets of a stream do not depend on how its bytes arrive |
| TcpSessions.Run | project/dummy/tcp_session.cpp:39-596 | in every reachable state: at most one write, of the head of the queue, and exactly one while a clean session is connected with something queued; buffers written and released in order, once each; exactly one poll while something is to be polled; packets polled in order, once each, and handed on up to the first failed attempt; closings are connections that ended and failed attempts, each of the former with one disconnected. A session that connects once is clean; one whose route is bound and that makes one attempt hands on all that it polls |
| TcpSessions.ReconnectCanBlock | project/dummy/tcp_session.cpp:116-148 | if on_connect is called twice on one session: a run after which nothing is ever written |
| TcpSessions.FailedAttemptDropsPackets | project/dummy/tcp_session.cpp:165-182 | if it is called again after a failure: a run in which a packet is polled and not handed on |
| TcpSessions.PacketsArriveInOrder | project/dummy/tcp_session.cpp:234-530 | if the peer sends frames, the packets complete in the bytes read are a beginning of those sent, and all of them once every byte is read |
| TcpSessions.PolledInOrder | project/dummy/tcp_session.cpp:234-596 | in every safe state of a first connection to such a peer, what is handed on is a beginning of what is polled and that of what was sent; all of it once every byte is read and the queue is empty |
| TcpSessions.RunInOrder | project/dummy/tcp_session.cpp:39-596 | the same for every run; a client, which binds the route and attempts once, hands on all that it polls |
| Adler32s.Adler32.Update | source/Cryptopp/adler32.cpp:8-54 | both sums of section 2.2 of RFC 1950, reduced; no intermediate value leaves 32 bits |
| Adler32s.UpdateBlocks | source/Cryptopp/adler32.cpp:30-47 | one subtraction reduces the first sum, and the second stays in range for 0x8000 bytes |
| Adler32s.Adler32.TruncatedFinal | source/Cryptopp/adler32.cpp:56-82 | the checksum, most significant byte first, cut |
| Adler32s.ChecksumOfAbc | source/Cryptopp/adler32.cpp:8-82 | the four bytes for abc |
| Adler32s.ChecksumOfPieces | source/Cryptopp/adler32.cpp:8-82 | the checksum of RFC 1950 for every way of cutting the data |
| Crcs.BitStepsXor | source/Cryptopp/crc.cpp:150-169 | bit-serial division is linear over exclusive or |
| Crcs.EightSteps | source/Cryptopp/crc.h:17-18 | eight bits of division are one table entry and a shift |
| Crcs.TableStep | source/Cryptopp/crc.cpp:152-153 | a table step is the division of one byte |
| Crcs.WordStep | source/Cryptopp/crc.cpp:155-164 | after a word is taken in at once, each table step divides its next byte |
| Crcs.Crc.Update | source/Cryptopp/crc.cpp:133-170 | the register of bit-serial division, for input at any address |
| Crcs.Crc.TruncatedFinal | source/Cryptopp/crc.cpp:172-181 | the complement of the register, least significant byte first, cut |
| CrcExamples.TableOfCrc32 | source/Cryptopp/crc.cpp:18-40 | the eight entries of the table of CRC-32 that linearity extends to all |
| CrcExamples.TableOfCrc32C | source/Cryptopp/crc.cpp:186-210 | those of CRC-32C |
| CrcExamples.CrcOfA | source/Cryptopp/crc.cpp:133-181 | CRC-32 of the letter a |
| Crcs.CrcOfPieces | source/Cryptopp/crc.cpp:133-181 | the result of bit-serial division for every polynomial, cutting and alignment |
| Feistels.Inverse | source/Cryptopp/des.cpp:336-366 | reversing the order of the rounds inverts a Feistel network on exchanged halves |
| DesCiphers.LeftTable | source/Cryptopp/des.cpp:139-143 | the table that the lemmas about IP use is that of FIPS 46-3: bits of the left half |
| DesCiphers.RightTable | source/Cryptopp/des.cpp:144-148 | and those of the right half |
| DesCiphers.InitialIsIP | source/Cryptopp/des.cpp:76-96 | each bit of the result is the input bit that the table IP of FIPS 46-3 names, the halves rotated left by one bit |
| DesCiphers.IPERM | source/Cryptopp/des.cpp:76-96 | IP of FIPS 46-3, the halves rotated left by one bit |
| DesCiphers.FPERM | source/Cryptopp/des.cpp:98-118 | with the halves exchanged, the block whose IP, so rotated, is the argument |
| DesCiphers.InitialOfFinal | source/Cryptopp/des.cpp:76-118 | the two permutations undo each other |
| DesCiphers.FinalOfInitial | source/Cryptopp/des.cpp:76-118 | the two permutations undo each other, in the other order |
| DesCiphers.RawDES.RawSetKey | source/Cryptopp/des.cpp:328-333 | for decryption the pairs of round keys are in reverse order |
| DesCiphers.RawDES.RawProcessBlock | source/Cryptopp/des.cpp:336-366 | sixteen Feistel rounds |
| DesCiphers.RoundTrip | source/Cryptopp/des.cpp:76-366 | DES decryption undoes encryption, in either direction |
| DesCiphers.RoundTrip3 | source/Cryptopp/des.cpp:368-408 | the same for DES-EDE3, and for DES-EDE2 with the first key also as the third |
| BlowfishCiphers.CryptInverse | source/Cryptopp/blowfish.cpp:38-40 | the reversed array inverts the cipher, whitening included |
| BlowfishCiphers.ZeroTables | source/Cryptopp/blowfish.cpp:71-97 | with tables of zeros: which round keys go into which half |
| BlowfishCiphers.Blowfish.ProcessBlock | source/Cryptopp/blowfish.cpp:71-97 | whitening and sixteen Feistel rounds |
| BlowfishCiphers.RoundTrip | source/Cryptopp/blowfish.cpp:38-97 | decryption undoes encryption |
| CastCiphers.Encrypt128 | source/Cryptopp/cast.cpp:36-64 | twelve or sixteen Feistel rounds |
| CastCiphers.Decrypt128 | source/Cryptopp/cast.cpp:66-95 | the same rounds backwards |
| CastCiphers.RoundTrip128 | source/Cryptopp/cast.cpp:36-95 | decryption undoes encryption |
| CastCiphers.QuadInverse | source/Cryptopp/cast.cpp:199-209 | a reverse quad round undoes a forward one and the other way round |
| CastCiphers.SwapKeys | source/Cryptopp/cast.cpp:275-288 | the nested loops reverse the order of the twelve groups of keys |
| CastCiphers.UndoQuads | source/Cryptopp/cast.cpp:214-236 | with the groups reversed the cipher undoes itself, quad round by quad round |
| CastCiphers.RoundTrip256 | source/Cryptopp/cast.cpp:214-288 | decryption undoes encryption |

## Left out

- CtrModes.CtrMode.constructor: blocks of 16 bytes only, which is what CCM uses; `Ccm` keeps its counter mode object as a register and a position, and `CcmCipher.CtrCalls` runs the object through the same calls.
- CcmCipher.Ccm.ProcessData: demands that the lengths were specified; without them the code authenticates over a first block that was never formatted, which no standard describes.
- CcmCipher.Ccm.Update: header data only after the lengths were specified, as for messages.
- CcmCipher.Ccm.SpecifyDataLengths: once a message, as RFC 3610 has it; a second call would format over data already buffered.
- CcmCipher.Ccm.TruncatedFinal: at most as many bytes as the digest size; the code does not check this here but in its callers.
- Blake2.Blake2Base.UncheckedSetKey: keys, salts and personalizations that fit their fields; longer ones end in an exception of `memcpy_s`.
- Blake2.Blake2Base.SetKey: salts and personalizations that fit their fields, likewise.
- Cmacs.Cmac.UncheckedSetKey: promises nothing for block sizes other than 8, 16 and 32; the constant for 32 bytes is the code's own, as NIST SP 800-38B has none.
- DerReencoding.DERReencode: sources below a third of 2^64 bytes, so that every length fits 64 bits; what destructors add to the destination after a failure is not stated.
- ObjectIdentifiers.OID.DEREncode: at least two arcs, as the code asserts.
- Frames.Outbound.Encode: bodies that fit the buffer; the code does not check.
- Frames.ReadPackets: declared sizes that fit the buffer; the code does not check.
- TcpSessions.TcpSession.ReadHeader: declared sizes that fit the buffer; the code does not check.
- TcpSessions.TcpSession.Connect: a new connection only when the session is closed and its last read has completed.
- TcpSessions.Run: `dispatch` always adds a step, threads race only between steps, and the pools of packets are a choice whether an object is available.
- Sums of bytes and lengths beyond 64 bits: counters such as `m_totalMessageLength` are unbounded.
- Null pointers, aliasing of input and output buffers, alignment other than in the CRC loop.
- BlowfishCiphers.Blowfish.ProcessBlock: the block is two words; the mask of `ProcessAndXorBlock` and the order of the bytes of a word are not modelled.
- CastCiphers.Encrypt128: the block is two words, without mask and byte order.
- CastCiphers.Decrypt128: the block is two words, without mask and byte order.
- DesCiphers.RoundTrip: the block is two words, without mask and byte order.
- Key schedules of DES, CAST and Blowfish: their words are arbitrary.
- Section 3.2 of RFC 7693, the tables of CRC and the contents of S-boxes: arbitrary, or defined by generation.
- SIMD and ARM code, CPU detection, big-endian CRC tables.
- The machinery by which filters resume after blocking, channels, flushing.
- `EncodedObjectFilter`, the X.509 and PKCS #8 containers, other ASN.1 strings: plumbing over the codecs modelled here.
- Key generation and primality for Blum Blum Shub: the primes are given; `ProcessData` only masks with the bytes modelled.
- Sockets, timers, logging, options, the server, and the rest of Crypto++.
