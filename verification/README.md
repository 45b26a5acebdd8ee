# Verified models from a PE file library and its vendored Crypto++

The repository is a library for reading and writing PE files. It has its own layer of byte buffers, which keep the
physical bytes of an image apart from the zeroes behind them, and it vendors Crypto++ 8.8.0 for Authenticode. This
project models the parts of both where correctness rests on a loop invariant or on state kept across calls, and
proves what those parts promise. `dafny verify dfyconfig.toml` checks everything.

The code that works in place is modelled in place: classes with the fields of the originals, arrays for fixed
buffers, and loops with the original branches. Each such method is proved against a specification that does not
follow its body, and what the specification means is proved in lemmas beside it.

## Modules

- `Arithmetic`, `ByteStrings`: shifts, powers of two, exclusive and inclusive or, remainders; bytes as numbers.
- `AbstractGroups`, `WindowSliding`, `SimultaneousMultiplication`, `CascadeMultiplication`, `GeneralCascade`:
  the multi-exponentiations of algebra.cpp over any group. A group is a value with its operations, and the laws are a
  hypothesis. `Times(g, n, x)` is n times x.
- `EuclideanDomain`: greatest common divisors and inverses in a quotient ring of the integers.
- `ModularPowers`, `BlumBlumShubGenerator`: powers modulo a product of two primes, from Euclid's lemma up; a
  random-access generator and the stream it must stay on.
- `BaseNSpec`, `BaseNEncoding`, `BaseNDecoding`, `BaseNGrouping`, `BaseNPipeline`: encoder, decoder and grouper as
  streaming filters, and the three attached to one another. The specification is on bit strings: cut into groups of b
  bits, or into bytes.
- `CbcMac`, `CcmMode`, `CcmCallOrder`, `CtrMode`, `BlockDrivers`: the buffering and state machine of authenticated
  ciphers, CCM on top of it and the runs its callers can make, the counter mode and the wide block drivers below it. The
  block cipher is an arbitrary function on blocks.
- `Blake2Hash`, `Blake2Digests`, `Adler32Checksum`, `ChaChaKeystream`: a streaming hash and its digests, a lazily reduced
  checksum, batched keystream.
- `Asn1Length`, `Asn1Unsigned`, `Asn1Oid`: DER writers and BER readers of lengths, unsigned integers and
  object identifiers.
- `InputBuffers`, `BufferStreams`, `RefBuffers`: nested buffers and the flat sequence they stand for, cursors,
  outputs and copying.
- `PackedCStrings`, `PackedUtf16Strings`: strings whose end may lie in the zeroes behind the physical bytes.

## How streaming is stated

An object that takes its input in pieces carries ghost fields for what it has been given since the message began
(`fed`, `header`, `message`) and its `Valid()` ties the real fields to a function of that sequence alone. Each call
appends to it. So what the object finally produces is a function of the concatenation, for every way of cutting it.

In CCM the ghost field `inSync` says that `SpecifyDataLengths` was called after `Resynchronize` before anything was
authenticated, and that no call failed half-way; every tag produced in such a run is the one of RFC 3610.

## Where the code keeps less than it seems to promise

Each of these is proved with the exact condition, and most with a run on a concrete input beside it.

- `QuotientRing::MultiplicativeInverse` answers zero for an element coprime to the modulus that is not reduced to
  less than the modulus in size (`EuclideanDomain.MultiplicativeInverse`, `EuclideanDomain.InverseOfUnreduced`).
- Not every run of CCM that ends without an exception gives the tag of RFC 3610: `SpecifyDataLengths` lays the first
  block out over the CBC buffer, from the bytes that stand where the nonce was put. Under any one block cipher the tag is
  right for every nonce and header exactly if the lengths are specified and, before the last time they are, no header
  byte is fed or announced (`CcmCallOrder.CallOrderIff`). A header fed before its length is not authenticated
  (`CcmCallOrder.LengthsLate`), and lengths announced again take the first length for a part of the nonce
  (`CcmCallOrder.LengthsAgain`). Without any call an empty message is accepted, with a tag that hangs on uninitialised
  memory (`CcmCallOrder.NoLengthsIff`, `CcmCallOrder.LengthsNotSpecified`).
- For distinct primes, `BlumBlumShub::Seek` misses the state exactly if the starting square shares a prime with the
  modulus and the exponent is reduced to zero (`BlumBlumShubGenerator.SeekLandsIff`). The bits that follow are then
  right exactly if the state missed ends in the bits of 1 (`BlumBlumShubGenerator.SeekBitsIff`; inputs:
  `BlumBlumShubGenerator.SeekLeavesStream`, `BlumBlumShubGenerator.StateMissedBitsKept`).
- The TLS variant of ChaCha forgets its initial block counter when it seeks (`ChaChaKeystream.SeekIsOnStreamIff`,
  `ChaChaKeystream.TlsSeekLeavesStream`).
- `DEREncodeUnsigned` for BOOLEAN writes 255 for every value but zero, and reading gives 255 back
  (`Asn1Unsigned.UnsignedRoundTripIff`).
- An object identifier whose second arc is 40 or more is read back as another one (`Asn1Oid.OidRoundTripIff`,
  `Asn1Oid.JointArcIsLost`).
- `packed_utf16_string::operator=` counts units where it should count bytes, so that half of the string is written
  (`PackedUtf16Strings.AssignThenParseIff`); a newly constructed one cannot be written at all
  (`PackedUtf16Strings.SerializableIff`).
- After parsing a virtual `packed_utf16_string` the cursor stands at most one unit past the last physical one. That is
  behind the string exactly if at most one of its units is not physical
  (`PackedUtf16Strings.PackedUtf16String.Deserialize`, `PackedUtf16Strings.CursorBeforeVirtualEnd`).

## Model

| member | source | states |
|---|---|---|
| `WindowSliding.WindowSlider.constructor` | external/cryptopp-8_8_0/cryptopp/algebra.cpp:208-218 | the slider starts with the whole exponent pending and the window size that the length table gives |
| `WindowSliding.WindowSlider.FindNextWindow` | external/cryptopp-8_8_0/cryptopp/algebra.cpp:220-247 | nothing is lost: the new odd signed digit plus the new high part is exactly the part above the old window; the high part strictly decreases and the slider finishes exactly when that part was zero |
| `WindowSliding.WindowSlider.SkipZeroBits` | external/cryptopp-8_8_0/cryptopp/algebra.cpp:222-233 | the skipping loop stops at the first set bit, or past the capacity of the words when there is none |
| `WindowSliding.WindowStep` | external/cryptopp-8_8_0/cryptopp/algebra.cpp:235-246 | one window in numbers, with and without negation: odd, below 2^w, conserving the value, and never starting past the exponent |
| `SimultaneousMultiplication.StartSlider` | external/cryptopp-8_8_0/cryptopp/algebra.cpp:265-268 | after the first window, buckets (all zero) plus pending digits are the exponent |
| `SimultaneousMultiplication.CollectWindow` | external/cryptopp-8_8_0/cryptopp/algebra.cpp:280-288 | moving one digit of a slider into its bucket conserves collected plus pending |
| `SimultaneousMultiplication.DigitCollected` | external/cryptopp-8_8_0/cryptopp/algebra.cpp:282-287 | the conservation behind one bucket update, signed digits included |
| `SimultaneousMultiplication.VisitSliders` | external/cryptopp-8_8_0/cryptopp/algebra.cpp:278-290 | one pass serves exactly the windows that start at this position, so that none is skipped, and reports whether any slider is unfinished |
| `SimultaneousMultiplication.CollectDigits` | external/cryptopp-8_8_0/cryptopp/algebra.cpp:271-297 | the doubling loop terminates with the weighted buckets of every exponent summing to that exponent |
| `SimultaneousMultiplication.FoldIsWeighted` | external/cryptopp-8_8_0/cryptopp/algebra.cpp:302-312 | partial sums of partial sums are the sum of (2j+1) times bucket j |
| `SimultaneousMultiplication.FoldBuckets` | external/cryptopp-8_8_0/cryptopp/algebra.cpp:302-312 | the in-place fold of a row of buckets returns that weighted sum times the base |
| `SimultaneousMultiplication.SimultaneousMultiply` | external/cryptopp-8_8_0/cryptopp/algebra.cpp:255-314 | results[i] is exps[i] times the base for every list of exponents, any group, both settings of InversionIsFast; other results stay |
| `SimultaneousMultiplication.ScalarMultiply` | external/cryptopp-8_8_0/cryptopp/algebra.cpp:90-95 | exponent times base |
| `CascadeMultiplication.StartTable` | external/cryptopp-8_8_0/cryptopp/algebra.cpp:105-115 | the entries the table starts from |
| `CascadeMultiplication.FillFirstRow` | external/cryptopp-8_8_0/cryptopp/algebra.cpp:118-119 | odd multiples of x |
| `CascadeMultiplication.FillOddColumns` | external/cryptopp-8_8_0/cryptopp/algebra.cpp:120-122 | every entry with an odd multiple of x |
| `CascadeMultiplication.FillFirstColumn` | external/cryptopp-8_8_0/cryptopp/algebra.cpp:124-125 | odd multiples of y |
| `CascadeMultiplication.FillOddRows` | external/cryptopp-8_8_0/cryptopp/algebra.cpp:126-128 | every entry with an odd multiple of y and an even one of x |
| `CascadeMultiplication.BuildTable` | external/cryptopp-8_8_0/cryptopp/algebra.cpp:103-129 | after the loops every entry that can be looked up (powers below 2^w, not both even) is filled with that combination of x and y |
| `CascadeMultiplication.IndexInRange` | external/cryptopp-8_8_0/cryptopp/algebra.cpp:154-162 | lookup indices lie inside the table of 2^(2w) entries |
| `CascadeMultiplication.StripCommonZeros` | external/cryptopp-8_8_0/cryptopp/algebra.cpp:142-151 | common factors of two move from squaresBefore to squaresAfter, which never makes the unsigned squaresBefore negative where it is used |
| `CascadeMultiplication.Flush` | external/cryptopp-8_8_0/cryptopp/algebra.cpp:142-166 | one window appended to both exponents at once |
| `CascadeMultiplication.ScanPosition` | external/cryptopp-8_8_0/cryptopp/algebra.cpp:137-167 | one bit position keeps the result equal to the two exponents scanned so far |
| `CascadeMultiplication.CascadeScalarMultiply` | external/cryptopp-8_8_0/cryptopp/algebra.cpp:97-170 | e1*x + e2*y for all nonnegative exponents in any abelian group |
| `GeneralCascade.MakeHeap` | external/cryptopp-8_8_0/cryptopp/algebra.cpp:184 | a permutation in heap order |
| `GeneralCascade.PushHeap` | external/cryptopp-8_8_0/cryptopp/algebra.cpp:198 | a permutation in heap order again |
| `GeneralCascade.PopHeap` | external/cryptopp-8_8_0/cryptopp/algebra.cpp:185-199 | a permutation with the largest exponent last and a heap before it |
| `GeneralCascade.DivisionConserves` | external/cryptopp-8_8_0/cryptopp/algebra.cpp:190-196 | dividing the largest exponent by the next conserves the sum of exponent times base |
| `GeneralCascade.TotalOfPermutation` | external/cryptopp-8_8_0/cryptopp/algebra.cpp:184-199 | that sum does not depend on the order of the pairs |
| `GeneralCascade.ReduceLargest` | external/cryptopp-8_8_0/cryptopp/algebra.cpp:190-196 | one division step conserves the total and decreases the sum of the exponents |
| `GeneralCascade.OnlyLastRemains` | external/cryptopp-8_8_0/cryptopp/algebra.cpp:187-202 | when the next largest exponent is zero only the last pair contributes |
| `GeneralCascade.HeapReduction` | external/cryptopp-8_8_0/cryptopp/algebra.cpp:180-203 | the heap loop terminates and returns the sum it conserved |
| `GeneralCascade.GeneralCascadeMultiplication` | external/cryptopp-8_8_0/cryptopp/algebra.cpp:172-204 | the sum of exponent times base for one, two or more pairs |
| `EuclideanDomain.Gcd` | external/cryptopp-8_8_0/cryptopp/algebra.cpp:56-68 | a common divisor that every common divisor divides |
| `EuclideanDomain.IsUnitModulo` | external/cryptopp-8_8_0/cryptopp/algebra.h:425-426 | true exactly for residues coprime to the modulus |
| `EuclideanDomain.MultiplicativeInverse` | external/cryptopp-8_8_0/cryptopp/algebra.cpp:70-88 | for every positive modulus: a nonzero result r has a*r = 1 modulo m; it is given exactly for a coprime to m and smaller than m in size, and zero otherwise (modulo 1, always zero) |
| `EuclideanDomain.InverseStep` | external/cryptopp-8_8_0/cryptopp/algebra.cpp:77-85 | each turn keeps g = v*a modulo m for both rows and decreases the remainder |
| `EuclideanDomain.NotEqualZero` | external/cryptopp-8_8_0/cryptopp/algebra.cpp:77 | the loop test modulo m agrees with a plain zero test on the remainders it is made on, in both directions |
| `EuclideanDomain.InverseOfUnreduced` | external/cryptopp-8_8_0/cryptopp/algebra.cpp:70-88 | an element that is not reduced can be coprime and still get zero: 4 modulo 3 |
| `BlumBlumShubGenerator.BlumBlumShub.constructor` | external/cryptopp-8_8_0/cryptopp/blumshub.cpp:9-15 | a fresh generator stands at bit 0 of the stream, its state the square of x0; maxBits is the whole part of the logarithm to base 2 of the number of bits of the modulus |
| `BlumBlumShubGenerator.MaxBitsIsLogarithm` | external/cryptopp-8_8_0/cryptopp/blumshub.cpp:12 | for every modulus of `bits` bits, 2^maxBits <= bits < 2^(maxBits+1) |
| `BlumBlumShubGenerator.BlumBlumShub.GenerateBit` | external/cryptopp-8_8_0/cryptopp/blumshub.cpp:17-26 | the next bit, squaring at word boundaries: of the stream, or of the sequence that starts at whatever state Seek left |
| `BlumBlumShubGenerator.BlumBlumShub.GenerateByte` | external/cryptopp-8_8_0/cryptopp/blumshub.cpp:28-34 | the next eight of these bits, first bit highest |
| `BlumBlumShubGenerator.FirstBitHighest` | external/cryptopp-8_8_0/cryptopp/blumshub.cpp:28-34 | of several bits of the stream read as a number, the first is the highest |
| `BlumBlumShubGenerator.FirstRunBitHighest` | external/cryptopp-8_8_0/cryptopp/blumshub.cpp:28-34 | the same from whatever state Seek left |
| `BlumBlumShubGenerator.BlumBlumShub.GenerateBlock` | external/cryptopp-8_8_0/cryptopp/blumshub.cpp:36-40 | the next bytes of them |
| `BlumBlumShubGenerator.BlumBlumShub.Seek` | external/cryptopp-8_8_0/cryptopp/blumshub.cpp:55-62 | position 8*index; for distinct primes the state is the stream's there exactly if neither prime divides the starting square or the reduced exponent is not zero; for any p and q it is if the starting square to the power (p-1)(q-1) is 1 |
| `BlumBlumShubGenerator.SeekLandsIff` | external/cryptopp-8_8_0/cryptopp/blumshub.cpp:59-60 | reducing the exponent keeps the power of the starting square, for distinct primes, exactly under the condition of Seek |
| `ModularPowers.ReductionIff` | external/cryptopp-8_8_0/cryptopp/blumshub.cpp:59-60 | the same for every base and every positive exponent: reduction modulo (p-1)(q-1) is right exactly if the base is a unit or the reduced exponent is not zero |
| `ModularPowers.ExponentReduces` | external/cryptopp-8_8_0/cryptopp/blumshub.cpp:59-60 | exponents may be reduced modulo (p-1)(q-1) when the base to that power is 1 |
| `ModularPowers.Fermat` | external/cryptopp-8_8_0/cryptopp/blumshub.cpp:59-60 | a to the power p is a modulo p, for every prime p: why units have that order |
| `BlumBlumShubGenerator.StateSquares` | external/cryptopp-8_8_0/cryptopp/blumshub.cpp:19-23 | the state after j squarings is x0 to the power 2^j |
| `BlumBlumShubGenerator.SeekAgreesWithGeneration` | external/cryptopp-8_8_0/cryptopp/blumshub.cpp:28-62 | seeking to byte k and generating, and generating from the start: for any two distinct primes the bytes are the same if Seek lands or the state it misses ends in the bits of 1, and once they cover two states only then; for any p and q they are if the starting square to the power (p-1)(q-1) is 1 |
| `BlumBlumShubGenerator.SeekBitsIff` | external/cryptopp-8_8_0/cryptopp/blumshub.cpp:17-62 | all bits from byte k on are those of the stream exactly under that condition, and two states' worth of them decide it |
| `BlumBlumShubGenerator.StandingStill` | external/cryptopp-8_8_0/cryptopp/blumshub.cpp:19-61 | when Seek misses, both sequences of states stand still: the one sought at 1, the other at an idempotent |
| `BlumBlumShubGenerator.StateMissedBitsKept` | external/cryptopp-8_8_0/cryptopp/blumshub.cpp:55-62 | 17, 257 and seed 17 at byte 5: the state is missed and the bits are right |
| `BlumBlumShubGenerator.SeekLeavesStream` | external/cryptopp-8_8_0/cryptopp/blumshub.cpp:55-62 | a generator for 3, 5 and seed 3 that seeks to byte 1 gives another bit than one that generates up to there |
| `BaseNEncoding.Encoder.ComputeBlockSize` | external/cryptopp-8_8_0/cryptopp/basecode.cpp:30-35 | the least positive number of characters whose bits are whole bytes |
| `BaseNEncoding.Encoder.constructor` | external/cryptopp-8_8_0/cryptopp/basecode.cpp:14-38 | starts an empty message |
| `BaseNEncoding.FillEffect` | external/cryptopp-8_8_0/cryptopp/basecode.cpp:52-65 | the turn of the bit loop that completes a character: OR and shifts append exactly the bits taken |
| `BaseNEncoding.OpenEffect` | external/cryptopp-8_8_0/cryptopp/basecode.cpp:52-70 | the turn in which the byte runs out |
| `BaseNEncoding.Encoder.PackBits` | external/cryptopp-8_8_0/cryptopp/basecode.cpp:49-71 | one turn of the bit loop: bits taken plus bits left are conserved |
| `BaseNEncoding.Encoder.PackByte` | external/cryptopp-8_8_0/cryptopp/basecode.cpp:48-73 | the bit loop appends the eight bits of a byte to the open block, in bounds |
| `BaseNEncoding.Encoder.MapLetters` | external/cryptopp-8_8_0/cryptopp/basecode.cpp:79-83 | values are replaced by letters in place |
| `BaseNEncoding.Encoder.OutputBlock` | external/cryptopp-8_8_0/cryptopp/basecode.cpp:76-87 | a full block goes out as the letters of its groups |
| `BaseNEncoding.Encoder.PutByte` | external/cryptopp-8_8_0/cryptopp/basecode.cpp:43-88 | one turn of the input loop extends the message by one byte |
| `BaseNEncoding.Encoder.FinishMessage` | external/cryptopp-8_8_0/cryptopp/basecode.cpp:89-103 | the output has grown by the encoding of the whole message: its bit string cut into zero-filled groups, as letters, padded to a block |
| `BaseNEncoding.Encoder.Put2` | external/cryptopp-8_8_0/cryptopp/basecode.cpp:40-105 | the output depends on the message, not on the chunks it came in |
| `BaseNSpec.GroupsOfPack` | external/cryptopp-8_8_0/cryptopp/basecode.cpp:52-93 | whole groups and a left-justified open one are the bit string cut into zero-filled groups |
| `BaseNSpec.FullBytesOfPack` | external/cryptopp-8_8_0/cryptopp/basecode.cpp:137-163 | bytes and fewer than eight further bits are the whole bytes of the bit string |
| `BaseNSpec.PackOfGroups` | external/cryptopp-8_8_0/cryptopp/basecode.cpp:40-168 | packing the groups of a bit string gives it back, filled with fewer than one character of zeros |
| `BaseNSpec.UnitsInOrder` | external/cryptopp-8_8_0/cryptopp/basecode.cpp:52-69 | bit j of unit i, counted from its highest, is bit i*b+j of the bit string |
| `BaseNSpec.PaddingFills` | external/cryptopp-8_8_0/cryptopp/basecode.cpp:96-100 | padding is the padding character, makes whole blocks and is less than one |
| `BaseNDecoding.Decoder.ComputeBlockSize` | external/cryptopp-8_8_0/cryptopp/basecode.cpp:117-120 | the least positive number of bytes whose bits are whole characters |
| `BaseNDecoding.FitEffect` | external/cryptopp-8_8_0/cryptopp/basecode.cpp:137-140 | a character that fits the open byte |
| `Arithmetic.OrBitsAt` | external/cryptopp-8_8_0/cryptopp/basecode.cpp:137-145 | bit i of an inclusive or is set exactly if it is in one of the two |
| `BaseNDecoding.CompleteEffect` | external/cryptopp-8_8_0/cryptopp/basecode.cpp:137-145 | a character that completes the open byte, with what is left of it |
| `BaseNDecoding.Decoder.PlaceValue` | external/cryptopp-8_8_0/cryptopp/basecode.cpp:136-145 | the bits of one character are appended, over a byte boundary or not, in bounds and with the truncation of the second byte |
| `BaseNDecoding.Decoder.PutValue` | external/cryptopp-8_8_0/cryptopp/basecode.cpp:136-152 | and the position moves past them |
| `BaseNDecoding.Decoder.PutCharacter` | external/cryptopp-8_8_0/cryptopp/basecode.cpp:128-160 | characters without a value are skipped, others extend the message |
| `BaseNDecoding.Decoder.FinishMessage` | external/cryptopp-8_8_0/cryptopp/basecode.cpp:161-165 | the output has grown by the whole bytes of the message; left-over bits are dropped |
| `BaseNDecoding.Decoder.Put2` | external/cryptopp-8_8_0/cryptopp/basecode.cpp:125-168 | the output depends on the message, not on the chunks it came in |
| `BaseNDecoding.InitializeDecodingLookupArray` | external/cryptopp-8_8_0/cryptopp/basecode.cpp:170-189 | each character gets the last letter that claims it, or -1; when case does not matter, both cases of a letter get the same value |
| `BaseNDecoding.ClaimsMeans` | external/cryptopp-8_8_0/cryptopp/basecode.cpp:179-187 | a letter claims itself and, if case does not matter, its other case, 32 apart; any other character only itself |
| `BaseNDecoding.LookupInvertsAlphabetIff` | external/cryptopp-8_8_0/cryptopp/basecode.cpp:174-188 | every letter decodes to its own index exactly when no two letters claim the same character |
| `BaseNGrouping.SeparatedRun` | external/cryptopp-8_8_0/cryptopp/basecode.cpp:213-223 | a run inside one group gets at most one separator, in front of it |
| `BaseNGrouping.Grouper.PutRun` | external/cryptopp-8_8_0/cryptopp/basecode.cpp:212-225 | one turn: the separator if the group is full, then as much as fits |
| `BaseNGrouping.Grouper.FinishMessage` | external/cryptopp-8_8_0/cryptopp/basecode.cpp:231-235 | the terminator ends the message |
| `BaseNGrouping.Grouper.Put2` | external/cryptopp-8_8_0/cryptopp/basecode.cpp:206-237 | a separator before every groupSize-th character but the first, for any chunks; a group size of 0 passes everything through |
| `BaseNSpec.RoundTrip` | external/cryptopp-8_8_0/cryptopp/basecode.cpp:40-237 | decoding the padded, grouped, terminated encoding gives the message back for 1 to 7 bits a character, if letters decode to their index and nothing else has a value |
| `BaseNDecoding.RoundTripWithTable` | external/cryptopp-8_8_0/cryptopp/basecode.cpp:40-237 | the same for the table InitializeDecodingLookupArray builds, if no two letters claim a character and padding, separator and terminator lie outside the alphabet |
| `BaseNPipeline.RoundTripInChunks` | external/cryptopp-8_8_0/cryptopp/basecode.cpp:40-237 | Encoder, Grouper and Decoder attached to one another, each passing on its output as it comes: a message in any chunks comes out again |
| `BaseNPipeline.PutChunk` | external/cryptopp-8_8_0/cryptopp/basecode.cpp:40-237 | a chunk that does not end the message goes through all three |
| `BaseNPipeline.PutLast` | external/cryptopp-8_8_0/cryptopp/basecode.cpp:89-237 | the last chunk and the message end: the decoder has put out what the specification says for the whole message |
| `CcmMode.Ccm.AuthenticateData` | external/cryptopp-8_8_0/cryptopp/authenc.cpp:11-51 | chaining value and buffered bytes become what feeding the input gives, whatever was buffered; what else stands in the buffer afterwards |
| `CcmMode.Ccm.AuthenticateBlocks` | external/cryptopp-8_8_0/cryptopp/ccm.cpp:92-97 | whole blocks are chained into the CBC buffer, in place and with pointers that do not move, through either driver; the length left over is returned |
| `CcmMode.Ccm.ChainDriver` | external/cryptopp-8_8_0/cryptopp/rijndael.cpp:1243-1247 | the four-block driver in that call leaves the CBC-MAC of the blocks |
| `CcmMode.Ccm.ChainLoop` | external/cryptopp-8_8_0/cryptopp/cryptlib.cpp:141-188 | and so does the loop of the base class |
| `CbcMac.FeedInPieces` | external/cryptopp-8_8_0/cryptopp/authenc.cpp:11-51 | feeding in two pieces is feeding at once, wherever the cut is |
| `CbcMac.FlushPads` | external/cryptopp-8_8_0/cryptopp/ccm.cpp:99-129 | closing an open block is feeding zero bytes up to the block size |
| `Arithmetic.XorBitsAt` | external/cryptopp-8_8_0/cryptopp/misc.cpp:70-141 | bit i of an exclusive or is the sum of the two bits modulo 2 |
| `ByteStrings.BigEndianByte` | external/cryptopp-8_8_0/cryptopp/ccm.cpp:62 | byte i of k of a word is the word without its k-1-i low bytes, modulo 256 |
| `CbcMac.PaddingIsShort` | external/cryptopp-8_8_0/cryptopp/ccm.cpp:99-129 | padding is of zeros, to a whole block, and of less than one |
| `CcmMode.Ccm.SetKey` | external/cryptopp-8_8_0/cryptopp/authenc.cpp:53-65 | accepted exactly for 16-byte blocks, an even digest size from 4 to 16 and an IV (if any) of 7 to 13 bytes; the state each refusal leaves, and the digest size it leaves stored |
| `CcmMode.TagLengths` | external/cryptopp-8_8_0/cryptopp/ccm.cpp:19-21 | the digest sizes are 4, 6, 8, 10, 12, 14 and 16 |
| `CcmMode.Ccm.Restart` | external/cryptopp-8_8_0/cryptopp/authenc.h:51 | back to the state with a key only, from any later state |
| `CcmMode.Ccm.Resynchronize` | external/cryptopp-8_8_0/cryptopp/authenc.cpp:67-78 | starts a message: nonce and counter laid out, totals and lengths zero; which errors it ends with |
| `CcmMode.Ccm.Resync` | external/cryptopp-8_8_0/cryptopp/ccm.cpp:27-48 | the counter block is flags, nonce and zeros; the CBC buffer is not touched |
| `CcmMode.Ccm.WriteBlock0` | external/cryptopp-8_8_0/cryptopp/ccm.cpp:55-63 | B_0 of RFC 3610 (`Block0`, see `Block0Fields`) is laid out over the CBC buffer, the nonce covering the unused top of the length, and encrypted |
| `CbcMac.Block0Fields` | external/cryptopp-8_8_0/cryptopp/ccm.cpp:61-63 | bit 6 of its first byte is set exactly with a header and bit 7 never; bits 3 to 5 are m with 2m+2 the tag length, bits 0 to 2 are L-1; the nonce follows, and the other bytes are the message length as a number |
| `CbcMac.FirstPacketVector` | external/cryptopp-8_8_0/cryptopp/ccm.cpp:61-76 | the first packet of RFC 3610: flags 59, length 0017, header length 0008 |
| `CbcMac.FormattingIsInjective` | external/cryptopp-8_8_0/cryptopp/ccm.cpp:50-129 | the authenticated input determines tag length, nonce, header and message, for all lengths that fit |
| `CcmMode.Ccm.WriteHeaderLength` | external/cryptopp-8_8_0/cryptopp/ccm.cpp:65-89 | the length prefix of 2, 6 or 10 bytes is buffered |
| `CbcMac.HeaderLengthForms` | external/cryptopp-8_8_0/cryptopp/ccm.cpp:70-87 | two bytes below 0xff00, FF FE and four bytes below 2^32, FF FF and eight bytes from there on; their number is the header length |
| `CbcMac.HeaderEnds` | external/cryptopp-8_8_0/cryptopp/ccm.cpp:70-87 | with its length in front a header can be told from whatever follows |
| `CcmMode.Ccm.UncheckedSpecifyDataLengths` | external/cryptopp-8_8_0/cryptopp/ccm.cpp:50-90 | accepted only while the header may come in; the CBC buffer then holds the first block, encrypted, made from the bytes that stand where the nonce was put, whatever had been authenticated before; the length prefix, if any, replaces what was buffered; the run is marked in step exactly if nothing had been authenticated and the nonce still stood |
| `CcmMode.Ccm.SpecifyDataLengths` | external/cryptopp-8_8_0/cryptopp/cryptlib.cpp:233-245 | message lengths above the maximum for the nonce, and footers, are refused first |
| `CcmMode.MaxMessageFits` | external/cryptopp-8_8_0/cryptopp/ccm.h:53-54 | the longest message is one byte less than 2^(8L) |
| `CcmMode.Ccm.Update` | external/cryptopp-8_8_0/cryptopp/authenc.cpp:80-107 | header or footer input by state, what is authenticated and what the buffer holds, which calls fail and that failing calls change nothing |
| `CcmMode.Ccm.ProcessData` | external/cryptopp-8_8_0/cryptopp/authenc.cpp:109-139 | output is input exclusive-or keystream, also in place; the plaintext side is authenticated in both directions; which calls fail and what they leave behind |
| `CcmMode.ProcessSucceedsIff` | external/cryptopp-8_8_0/cryptopp/authenc.cpp:109-126 | data is taken exactly while the message stays below 2^(8L), behind a complete header and before a footer |
| `CcmMode.Ccm.Crypt` | external/cryptopp-8_8_0/cryptopp/authenc.cpp:127-133 | the stream cipher over a message part, also in place |
| `CcmMode.Ccm.FinishHeader` | external/cryptopp-8_8_0/cryptopp/ccm.cpp:99-113 | the header is closed when its length is the one specified, and refused otherwise |
| `CcmMode.Ccm.FinishData` | external/cryptopp-8_8_0/cryptopp/authenc.cpp:157-175 | header and message are closed in the falling-through cases |
| `CcmMode.Ccm.TruncatedFinal` | external/cryptopp-8_8_0/cryptopp/authenc.cpp:141-184 | the exact condition for success; the tag is the final chaining value exclusive-or keystream block 0; in every run in step it is the tag of RFC 3610 for the header and plaintext fed, in whatever pieces |
| `CcmMode.FinalSucceedsIff` | external/cryptopp-8_8_0/cryptopp/authenc.cpp:141-175 | a final call succeeds exactly with an IV, complete header and message, no footer and a size that fits |
| `CcmMode.FirstBlock` | external/cryptopp-8_8_0/cryptopp/ccm.cpp:59-63 | encrypting B_0 in place is the first step of CBC-MAC from zero |
| `CcmMode.TagInput` | external/cryptopp-8_8_0/cryptopp/ccm.cpp:99-129 | the final state is the CBC-MAC of B_0, the padded length-prefixed header and the padded plaintext |
| `CcmMode.Ccm.EncryptAndAuthenticate` | external/cryptopp-8_8_0/cryptopp/cryptlib.cpp:247-254 | ciphertext and tag of RFC 3610, exactly for a keyed object, nonces of 7 to 13 bytes, messages that fit and tags up to the digest size |
| `CcmMode.EncryptionIsRfc` | external/cryptopp-8_8_0/cryptopp/authenc.cpp:127-184 | the tag is the CBC-MAC exclusive or E(A_0), and message byte i is encrypted with its byte of E(A_1), E(A_2) and so on |
| `CcmMode.Ccm.DecryptAndVerify` | external/cryptopp-8_8_0/cryptopp/cryptlib.cpp:256-263 | the plaintext, accepted exactly with the tag of RFC 3610 for it, under the same conditions |
| `CcmMode.EncryptThenDecrypt` | external/cryptopp-8_8_0/cryptopp/cryptlib.cpp:247-263 | what one object encrypts another one with the same key decrypts and accepts, for every nonce, header, message and tag size that can be encrypted |
| `CcmCallOrder.RunCalls` | external/cryptopp-8_8_0/cryptopp/authenc.cpp:67-184 | any order of SpecifyDataLengths and Update before the message, and the message in any pieces: ends with a tag exactly if lengths fit and the totals are those specified last; which tag, and that it is the one of RFC 3610 for calls in order |
| `CcmCallOrder.CallOrderIff` | external/cryptopp-8_8_0/cryptopp/ccm.cpp:50-129 | for every single block cipher (injective function on blocks), CBC buffer, nonce length and message: an accepted order of calls gives the tag of RFC 3610 for every nonce and header exactly if the lengths are specified and, before the last time, no header byte is fed or announced |
| `CcmCallOrder.LengthsTwice` | external/cryptopp-8_8_0/cryptopp/ccm.cpp:55-89 | a header announced before the last SpecifyDataLengths: under every block cipher, of any two nonces that differ in the first byte one misses its tag |
| `CcmCallOrder.HeaderEarly` | external/cryptopp-8_8_0/cryptopp/ccm.cpp:59-89 | a header byte fed before it: under every block cipher and nonce, of any two headers that differ in the first such byte one misses its tag |
| `CcmCallOrder.LengthsNever` | external/cryptopp-8_8_0/cryptopp/ccm.cpp:27-129 | SpecifyDataLengths never called: under every block cipher, of any two nonces that differ in the first byte one misses its tag |
| `CcmCallOrder.InjectiveChain` | external/cryptopp-8_8_0/cryptopp/ccm.cpp:92-97 | a difference in one byte goes through the whole chain of a block cipher |
| `CcmCallOrder.PrefixOrderIff` | external/cryptopp-8_8_0/cryptopp/ccm.cpp:50-129 | for any part of the tag: an accepted order gives it for every function on blocks, nonce and header exactly under the same condition |
| `CcmCallOrder.NoLengthsIff` | external/cryptopp-8_8_0/cryptopp/ccm.cpp:27-129 | without SpecifyDataLengths: accepted exactly for an empty header and message, with the tag of RFC 3610 exactly as far as the CBC buffer holds the encrypted B_0; every cipher and nonce |
| `CcmCallOrder.InOrderTag` | external/cryptopp-8_8_0/cryptopp/ccm.cpp:50-129 | calls in order give the tag of RFC 3610 |
| `CcmCallOrder.NonceForgotten` | external/cryptopp-8_8_0/cryptopp/ccm.cpp:61-89 | a length prefix overwrites the nonce: lengths specified again do not depend on it |
| `CcmCallOrder.HeaderForgotten` | external/cryptopp-8_8_0/cryptopp/ccm.cpp:59-89 | header bytes fed before the lengths: nothing depends on the first of them afterwards |
| `CcmCallOrder.LengthsNotSpecified` | external/cryptopp-8_8_0/cryptopp/ccm.cpp:27-129 | the run with no call at all, for every cipher, nonce and digest size: its tag is the one of RFC 3610 exactly if uninitialised memory happens to hold the encrypted B_0 |
| `CcmCallOrder.LengthsLate` | external/cryptopp-8_8_0/cryptopp/ccm.cpp:55-89 | the run that feeds a header of one block and then specifies its length: accepted, with a tag that does not depend on the header |
| `CcmCallOrder.LengthsAgain` | external/cryptopp-8_8_0/cryptopp/ccm.cpp:55-89 | the run that announces a header of 16 bytes and then none: accepted; its tag for every cipher, and for a block cipher the exact coincidence under which it is the one of RFC 3610 |
| `CbcMac.CounterBlockIsRfc` | external/cryptopp-8_8_0/cryptopp/ccm.cpp:35-45 | the counter blocks are A_i of RFC 3610 while i fits its L bytes |
| `CbcMac.XorStreamTwice` | external/cryptopp-8_8_0/cryptopp/authenc.cpp:127-133 | decryption undoes encryption at the same position |
| `CtrMode.CtrPolicy.SeekToIteration` | external/cryptopp-8_8_0/cryptopp/modes.cpp:123-133 | the byte-wise addition lands on the 128-bit counter that many blocks after the first |
| `CtrMode.CtrPolicy.IncrementCounterBy256` | external/cryptopp-8_8_0/cryptopp/modes.cpp:135-138 | one more in the fifteen bytes before the last, modulo 2^120 |
| `CtrMode.CtrPolicy.Batch` | external/cryptopp-8_8_0/cryptopp/modes.cpp:144-155 | a batch that the last byte has room for, through either block driver, and the carry after it |
| `CtrMode.CtrPolicy.OperateKeystream` | external/cryptopp-8_8_0/cryptopp/modes.cpp:140-161 | block i of the output is for the counter i after the present one modulo 2^128, although the drivers only count in the last byte; also in place |
| `CtrMode.EmittedIsStream` | external/cryptopp-8_8_0/cryptopp/modes.cpp:140-161 | block by block that is the positional byte stream CCM uses |
| `CtrMode.ProcessFrom` | external/cryptopp-8_8_0/cryptopp/modes.cpp:123-171 | resynchronized, moved to block k and run, the cipher gives the bytes of the stream from 16k on, also in place |
| `BlockDrivers.LoadBlocks` | external/cryptopp-8_8_0/cryptopp/adv_simd.h:682-696 | a group of input blocks and the pointer after it, in either direction |
| `BlockDrivers.LoadCounters` | external/cryptopp-8_8_0/cryptopp/adv_simd.h:670-681 | counter blocks counted on in registers, the next counter written back |
| `BlockDrivers.XorBlocks` | external/cryptopp-8_8_0/cryptopp/adv_simd.h:698-730 | exclusive or with the group of mask blocks |
| `BlockDrivers.StoreBlocks` | external/cryptopp-8_8_0/cryptopp/adv_simd.h:732-743 | the group is stored one block after the other |
| `BlockDrivers.WideTurn` | external/cryptopp-8_8_0/cryptopp/adv_simd.h:667-746 | a wide turn writes what that many single turns write |
| `BlockDrivers.NarrowTurn` | external/cryptopp-8_8_0/cryptopp/adv_simd.h:794-816 | a single turn |
| `BlockDrivers.AdvancedProcessBlocks6x2` | external/cryptopp-8_8_0/cryptopp/adv_simd.h:634-819 | any length and flags: the output of the one-block-at-a-time loop, the counter of that loop, and length modulo 16 returned; regions apart or exactly in place, in place without moving pointers if blocks are not taken in parallel |
| `BlockDrivers.AdvancedProcessBlocks4x1` | external/cryptopp-8_8_0/cryptopp/adv_simd.h:829-950 | the same for the four-block driver |
| `BlockDrivers.ChainIsCbc` | external/cryptopp-8_8_0/cryptopp/ccm.cpp:92-97 | working in place while the pointers do not move is CBC: what the drivers leave is the CBC-MAC of the mask blocks |
| `BlockDrivers.ResultAt` | external/cryptopp-8_8_0/cryptopp/adv_simd.h:794-816 | block by block, every output block is the one for its input; with pointers that do not move, the last |
| `BlockDrivers.Untouched` | external/cryptopp-8_8_0/cryptopp/adv_simd.h:667-746 | blocks not reached yet are as they were, which is what makes working in place safe |
| `BlockDrivers.CounterAdvances` | external/cryptopp-8_8_0/cryptopp/adv_simd.h:802-803 | the counter changes in byte 15 alone, by the number of blocks modulo 256 |
| `Blake2Hash.Blake2.IncrementCounter` | external/cryptopp-8_8_0/cryptopp/blake2.cpp:661-673 | the two-word counter is the number of bytes compressed, with the carry right |
| `Blake2Hash.CounterStep` | external/cryptopp-8_8_0/cryptopp/blake2.cpp:661-673 | the carry test is right for every increment up to a word |
| `Blake2Hash.Blake2.Update` | external/cryptopp-8_8_0/cryptopp/blake2.cpp:536-609 | the message grows by the input, for every chunking; the last block stays buffered |
| `Blake2Hash.Blake2.CompressFullBlocks` | external/cryptopp-8_8_0/cryptopp/blake2.cpp:540-566 | whole blocks are compressed in place, always leaving some input over |
| `Blake2Hash.Blake2.RestartWith` | external/cryptopp-8_8_0/cryptopp/blake2.cpp:474-534 | back to the start of a message at the given counter, from the caller's parameter block with its two sizes replaced (`Patched`, see `PatchedMeans`), key block first |
| `Blake2Hash.PatchedMeans` | external/cryptopp-8_8_0/cryptopp/blake2.cpp:491-492 | byte 0 is the digest size, byte 1 the key length, all others are the caller's |
| `Blake2Hash.Blake2.TruncatedFinal` | external/cryptopp-8_8_0/cryptopp/blake2.cpp:611-659 | the hash of the message, exactly for sizes up to the digest size; the object is as new afterwards |
| `Blake2Hash.Blake2.CompressLast` | external/cryptopp-8_8_0/cryptopp/blake2.cpp:615-627 | the zero-padded last block with the counter of all bytes and the final flags |
| `Blake2Hash.FinalIsRfc` | external/cryptopp-8_8_0/cryptopp/blake2.cpp:536-659 | the sequence of compressions, counters and final flag is the one of section 3.3 of RFC 7693 |
| `Blake2Hash.InputBlockByte` | external/cryptopp-8_8_0/cryptopp/blake2.cpp:553-571 | a block of the input is its bytes from there on, then zeros |
| `Blake2Digests.InitialIsRfc` | external/cryptopp-8_8_0/cryptopp/blake2.cpp:310-324 | for the parameter block [nn, kk, 1, 1, 0, ...] the initial state is that of section 3.3 of RFC 7693: the initialization vector with 0x0101kknn exclusive-or its first word |
| `Blake2Digests.StateByte` | external/cryptopp-8_8_0/cryptopp/blake2.cpp:630-631 | the words of the state lie in memory one behind the other, lowest byte first |
| `Blake2Digests.HashMessage` | external/cryptopp-8_8_0/cryptopp/blake2.cpp:474-659 | a message in any pieces, for any variant, key and parameter block: the hash of RFC 7693 from the initial value of that block with both sizes in place |
| `Blake2Digests.Digest` | external/cryptopp-8_8_0/cryptopp/blake2.cpp:310-659 | BLAKE2b and BLAKE2s from key and message to digest bytes: the first `size` bytes of the final state of RFC 7693, from the RFC's own initial state when there is no salt and personalization |
| `Adler32Checksum.Adler32.Update` | external/cryptopp-8_8_0/cryptopp/adler32.cpp:8-54 | the sums of RFC 1950 modulo 65521, never over 32 bits although s2 is reduced only every 0x8000 bytes |
| `Adler32Checksum.Adler32.LeadingBytes` | external/cryptopp-8_8_0/cryptopp/adler32.cpp:15-27 | the bytes up to a multiple of eight |
| `Adler32Checksum.Adler32.EightBytes` | external/cryptopp-8_8_0/cryptopp/adler32.cpp:29-47 | the unrolled eight additions, with the bound that excludes wrap-around |
| `Adler32Checksum.UpdatesCompose` | external/cryptopp-8_8_0/cryptopp/adler32.cpp:8-54 | two updates are one update with the concatenation |
| `Adler32Checksum.ChecksumInClosedForm` | external/cryptopp-8_8_0/cryptopp/adler32.cpp:10-47 | both halves in closed form: one more than the sum of the bytes, and the number of bytes plus the bytes weighted by how many are left, modulo 65521 |
| `Adler32Checksum.KnownChecksum` | external/cryptopp-8_8_0/cryptopp/adler32.cpp:10-69 | the checksum of "abc" is 024D0127 |
| `Adler32Checksum.Adler32.TruncatedFinal` | external/cryptopp-8_8_0/cryptopp/adler32.cpp:56-80 | the four bytes, big-endian, cut to size; sizes above four are refused; the sums start again |
| `ChaChaKeystream.NoCarry` | external/cryptopp-8_8_0/cryptopp/chacha.cpp:86-90 | the guard rules out a carry inside a batch |
| `ChaChaKeystream.WideKernel` | external/cryptopp-8_8_0/cryptopp/chacha.cpp:100-168 | a batch of 8 or 4 blocks at successive counters |
| `ChaChaKeystream.WideLoop` | external/cryptopp-8_8_0/cryptopp/chacha.cpp:100-168 | the guarded loop stops with the blocks emitted and the counter in step |
| `ChaChaKeystream.ScalarStep` | external/cryptopp-8_8_0/cryptopp/chacha.cpp:170-200 | one block, with the carry into the high word |
| `ChaChaKeystream.OperateKeystream` | external/cryptopp-8_8_0/cryptopp/chacha.cpp:94-204 | exactly the blocks at the next n counters modulo 2^64 (2^32 for TLS), for any mix of batches; n = 0 does nothing |
| `ChaChaKeystream.OutputByteAt` | external/cryptopp-8_8_0/cryptopp/chacha.cpp:94-204 | byte j of block b is byte j of the keystream block for the b-th counter, exclusive or the message if there is one |
| `ChaChaKeystream.Policy.Resynchronize` | external/cryptopp-8_8_0/cryptopp/chacha.cpp:347-355 | the state words from the IV |
| `ChaChaKeystream.Policy.SeekToIteration` | external/cryptopp-8_8_0/cryptopp/chacha.cpp:357-361 | the counter words for block n |
| `ChaChaKeystream.SeekIsOnStreamIff` | external/cryptopp-8_8_0/cryptopp/chacha.cpp:439-447 | TLS seeking lands on the stream exactly if the initial block counter is 0 |
| `ChaChaKeystream.SeekAgreesWithGeneration` | external/cryptopp-8_8_0/cryptopp/chacha.cpp:357-447 | both variants: seeking and generating agree with generating from the start for initial counter 0, and otherwise exactly if the block function takes the two runs of counters to the same blocks |
| `ChaChaKeystream.TlsSeekLeavesStream` | external/cryptopp-8_8_0/cryptopp/chacha.cpp:439-447 | the TLS variant with initial counter 1: seeking to byte 0 gives the block for counter 0 |
| `Asn1Length.DERLengthEncode` | external/cryptopp-8_8_0/cryptopp/asn.cpp:20-39 | the DER length octets |
| `Asn1Length.BERLengthDecode` | external/cryptopp-8_8_0/cryptopp/asn.cpp:41-77 | what it accepts, consumes and refuses |
| `Asn1Length.LengthRoundTrip` | external/cryptopp-8_8_0/cryptopp/asn.cpp:20-77 | every 64-bit length decodes to itself, whatever follows |
| `Asn1Length.LongForm` | external/cryptopp-8_8_0/cryptopp/asn.cpp:28-37 | from 128 on: a count, and that many octets of the length, the first not zero |
| `Asn1Length.LengthBytesIff` | external/cryptopp-8_8_0/cryptopp/asn.cpp:63-72 | length octets are accepted exactly if they are all there and their number fits 64 bits |
| `Asn1Length.DerLengthIsMinimal` | external/cryptopp-8_8_0/cryptopp/asn.cpp:20-77 | no accepted encoding of a length is shorter than the DER one |
| `Asn1Length.AcceptedLengthFits` | external/cryptopp-8_8_0/cryptopp/asn.cpp:57-69 | the overflow guard keeps accepted lengths within 64 bits |
| `Asn1Unsigned.DEREncodeUnsigned` | external/cryptopp-8_8_0/cryptopp/asn.h:819-848 | tag, length and the minimal content octets |
| `Asn1Unsigned.BERDecodeUnsigned` | external/cryptopp-8_8_0/cryptopp/asn.h:855-899 | what it accepts within the bounds given |
| `Asn1Unsigned.ContentIsMinimal` | external/cryptopp-8_8_0/cryptopp/asn.h:820-848 | the sign bit is clear and no leading zero octet can be left out |
| `Asn1Unsigned.ReadsIff` | external/cryptopp-8_8_0/cryptopp/asn.h:859-898 | the value of the content octets, exactly if it fits the word and the range; one octet for tag 1, at least one for tags 2 and 10 |
| `Asn1Unsigned.KnownEncodings` | external/cryptopp-8_8_0/cryptopp/asn.h:820-848 | the octets of FALSE and TRUE, and of the integers 0, 127, 128 and 256 |
| `Asn1Unsigned.UnsignedRoundTripIff` | external/cryptopp-8_8_0/cryptopp/asn.h:819-899 | a word in range decodes to itself, for BOOLEAN exactly if it is 0 or 255 |
| `Asn1Oid.EncodeValue` | external/cryptopp-8_8_0/cryptopp/asn.cpp:307-312 | the base-128 octets of an arc |
| `Asn1Oid.DecodeValue` | external/cryptopp-8_8_0/cryptopp/asn.cpp:314-331 | what it accepts; the guard against overflow |
| `Asn1Oid.ArcRoundTrip` | external/cryptopp-8_8_0/cryptopp/asn.cpp:307-331 | every 32-bit arc decodes to itself; the guard never refuses an encoded arc |
| `Asn1Oid.ArcIsMinimal` | external/cryptopp-8_8_0/cryptopp/asn.cpp:307-331 | no accepted encoding of an arc is shorter |
| `Asn1Oid.ArcOctets` | external/cryptopp-8_8_0/cryptopp/asn.cpp:307-312 | octet i is the i-th 7-bit group from the left, the high bit set on all but the last |
| `Asn1Oid.DEREncode` | external/cryptopp-8_8_0/cryptopp/asn.cpp:333-343 | tag, length, merged first octet and arcs |
| `Asn1Oid.KnownIdentifier` | external/cryptopp-8_8_0/cryptopp/asn.cpp:333-343 | 1.2.840.113549 is 06 06 2A 86 48 86 F7 0D |
| `Asn1Oid.BERDecode` | external/cryptopp-8_8_0/cryptopp/asn.cpp:345-372 | what it accepts and the arcs it yields |
| `Asn1Oid.OidDecodes` | external/cryptopp-8_8_0/cryptopp/asn.cpp:333-372 | what every identifier decodes to |
| `Asn1Oid.OidRoundTripIff` | external/cryptopp-8_8_0/cryptopp/asn.cpp:333-372 | an identifier decodes to itself exactly if its second arc is below 40 and the first octet fits a byte |
| `Asn1Oid.JointArcIsLost` | external/cryptopp-8_8_0/cryptopp/asn.cpp:333-372 | 2.100.3 decodes to 4.20.3 |
| `InputBuffers.PhysicalThenZeroes` | buffers/src/input_virtual_buffer.cpp:62-75 | whatever the nesting, a buffer is its physical bytes followed by zeroes, and its virtual size does not exceed its size |
| `InputBuffers.SectionMeans` | buffers/src/input_buffer_section.cpp:16-44 | which sections are refused; which bytes a section stands for, how many of them are physical, and its offsets |
| `InputBuffers.VirtualMeans` | buffers/src/input_virtual_buffer.cpp:62-75 | a buffer with virtual bytes: the inner bytes, then zeroes, at the same offsets |
| `InputBuffers.Read` | buffers/src/input_container_buffer.cpp:24-43 | for any nesting: the slice of the flat sequence, min(count, physical bytes left) reported, or an overrun that changes nothing |
| `InputBuffers.ReadMeans` | buffers/src/input_container_buffer.cpp:24-43 | a read succeeds exactly up to the end, and the count it reports is of the bytes that are physical |
| `InputBuffers.ReadVirtual` | buffers/src/input_virtual_buffer.cpp:27-55 | the inner buffer's part, then zeroes |
| `InputBuffers.ReadSection` | buffers/src/input_buffer_section.cpp:62-72 | the inner buffer further on, within the section |
| `InputBuffers.SectionReadsInner` | buffers/src/input_buffer_section.cpp:40-43 | the clipped virtual size of a section makes its physical bytes the inner ones |
| `InputBuffers.ReduceIsNesting` | buffers/src/input_buffer_section.cpp:46-60 | the flattening reduce succeeds exactly when nesting a section does, with the same bytes, sizes and offsets |
| `InputBuffers.ReduceFromIff` | buffers/src/input_buffer_section.cpp:103-110 | the two-argument reduce succeeds exactly for a start in range whose offsets do not overflow, and stands for the rest |
| `BufferStreams.Cursor.Read` | buffers/src/input_buffer_stateful_wrapper.cpp:23-28 | the slice at the cursor, which moves by count only if the read succeeds |
| `BufferStreams.Cursor.SetRpos` | buffers/src/input_buffer_stateful_wrapper.cpp:30-35 | any place up to the end |
| `BufferStreams.Cursor.AdvanceRpos` | buffers/src/input_buffer_stateful_wrapper.cpp:37-43 | succeeds exactly for a target in range, except that the least int32 is always refused |
| `BufferStreams.OutputMemory.Write` | buffers/src/output_memory_buffer.cpp:18-25 | byte pos+i becomes source[i]; the bytes before pos and from pos+count on are the old ones; the length is the larger of the old one and pos+count |
| `BufferStreams.OverwriteMeans` | buffers/src/output_memory_buffer.cpp:18-25 | the same of `Overwrite`, in which all writers are stated |
| `BufferStreams.OutputMemory.SetWpos` | buffers/src/output_memory_buffer.cpp:27-36 | seeks, growing with zeroes |
| `BufferStreams.OutputMemory.AdvanceWpos` | buffers/src/output_memory_buffer.cpp:38-44 | relative seek, growing with zeroes; every failure leaves data and cursor |
| `BufferStreams.OverwriteInPieces` | buffers/src/output_memory_buffer.cpp:18-25 | two writes in a row are one write of both |
| `BufferStreams.Copy` | buffers/src/buffer_copy.cpp:14-29 | exactly size bytes of the flat sequence, in blocks of 512; a copy past the end fails with the whole blocks before it written |
| `BufferStreams.CopyableMeans` | buffers/src/buffer_copy.cpp:14-29 | how much of it is written: all if it is there, and otherwise the whole blocks before the end |
| `RefBuffers.CopyIsFaithful` | buffers/src/ref_buffer.cpp:144-170 | the copy read_buffer builds has the same bytes, physical size and offsets |
| `RefBuffers.RefBuffer.Deserialize` | buffers/src/ref_buffer.cpp:75-83 | either way of loading gives the same contents |
| `RefBuffers.RefBuffer.ReadBuffer` | buffers/src/ref_buffer.cpp:144-170 | the copy, whose read is never short |
| `RefBuffers.RefBuffer.SerializeUntil` | buffers/src/ref_buffer.cpp:85-125 | exactly the requested slice of the flat contents at the output cursor, its length returned, npos and all errors included; all other output bytes stay |
| `RefBuffers.SliceMeans` | buffers/src/ref_buffer.cpp:85-125 | which slice: everything from the offset on for npos, otherwise exactly the size asked for, within the physical or all bytes; when it is refused and how |
| `RefBuffers.RefBuffer.Serialize` | buffers/src/ref_buffer.cpp:127-142 | the physical bytes, or all of them; all other output bytes stay |
| `RefBuffers.RefBuffer.Assign` | buffers/src/ref_buffer.cpp:66-73 | assignment shares the contents |
| `RefBuffers.RefBuffer.CopyReferencedBuffer` | buffers/src/ref_buffer.cpp:177-181 | copying later changes nothing that can be observed |
| `RefBuffers.RefBuffer.CopiedData` | buffers/src/ref_buffer.cpp:195-201 | the physical bytes of a copy; refused for a reference |
| `RefBuffers.CopyOrReference` | buffers/src/ref_buffer.cpp:75-125 | a copied and a referenced buffer serialize the same way to the same output |
| `PackedCStrings.PackedCString.Deserialize` | pe_bliss2/src/packed_c_string.cpp:16-66 | accepted exactly if the zero-padded view has an aligned NUL in range and within the limit (and physical, unless virtual data is allowed); the units before it; the cursor moves by exactly the bytes consumed; a refusal leaves the object as it was |
| `PackedCStrings.PackedCString.FinishVirtual` | pe_bliss2/src/packed_c_string.cpp:46-65 | the end of the string when a unit straddles or lies behind the physical bytes |
| `PackedCStrings.FirstNulIsFirst` | pe_bliss2/src/packed_c_string.cpp:24-44 | the unit found is zero and none before it is |
| `PackedCStrings.AcceptedIff` | pe_bliss2/src/packed_c_string.cpp:16-66 | accepted exactly if some unit is zero, behind none that is, in range, within the limit and, without virtual data, physical |
| `PackedCStrings.LowByteFirst` | pe_bliss2/src/packed_c_string.cpp:24-44 | two-byte units have their low byte first |
| `PackedCStrings.PackedCString.Serialize` | pe_bliss2/src/packed_c_string.cpp:68-78 | the units and, if it is physical or asked for, the NUL |
| `PackedCStrings.PackedCString.SerializeTo` | pe_bliss2/src/packed_c_string.cpp:80-91 | the same bytes, exactly if they fit |
| `PackedCStrings.PackedCString.SerializedMeans` | pe_bliss2/src/packed_c_string.cpp:73-76 | the units, then zero bytes for the terminator, which is left out exactly if it is virtual and not asked for |
| `PackedCStrings.ParseThenSerialize` | pe_bliss2/src/packed_c_string.cpp:16-91 | parsing and then writing, in both forms and for both settings, gives back the bytes consumed, without the terminator exactly if that is not wholly physical and virtual bytes are not asked for |
| `PackedUtf16Strings.PackedUtf16String.Deserialize` | pe_bliss2/src/packed_utf16_string.cpp:23-60 | exactly which inputs are accepted, the units, both sizes and the cursor, which is behind the string exactly if at most one unit is not physical; physical size at most min(virtual size, 2 + 2 * length); a refusal leaves the object as it was |
| `PackedUtf16Strings.ParsesIff` | pe_bliss2/src/packed_utf16_string.cpp:23-55 | in plain terms: without virtual data all of the string is physical; with it all of it is in range or, behind the physical bytes, one of its units |
| `PackedUtf16Strings.PresentMeans` | pe_bliss2/src/packed_utf16_string.cpp:37-49 | the units stored are the ones that begin among the physical bytes |
| `PackedUtf16Strings.CursorBeforeVirtualEnd` | pe_bliss2/src/packed_utf16_string.cpp:37-49 | a virtual string of six bytes, two of them physical: the cursor moves by four |
| `PackedUtf16Strings.PackedUtf16String.ReadUnits` | pe_bliss2/src/packed_utf16_string.cpp:37-49 | the loop ends with the string or one unit past the physical bytes |
| `PackedUtf16Strings.PackedUtf16String.Parts` | pe_bliss2/src/packed_utf16_string.cpp:62-96 | the length field, the units cut to the physical size (an odd byte included), then the zeroes |
| `PackedUtf16Strings.PackedUtf16String.Serialize` | pe_bliss2/src/packed_utf16_string.cpp:98-108 | those bytes at the output cursor, which moves behind them; a refusal writes nothing |
| `PackedUtf16Strings.PackedUtf16String.SerializeTo` | pe_bliss2/src/packed_utf16_string.cpp:110-124 | those bytes, exactly if they fit |
| `PackedUtf16Strings.PackedUtf16String.SetDataSize` | pe_bliss2/src/packed_utf16_string.cpp:126-131 | the sizes stay in order |
| `PackedUtf16Strings.PackedUtf16String.SetPhysicalSize` | pe_bliss2/src/packed_utf16_string.cpp:133-139 | the sizes stay in order |
| `PackedUtf16Strings.PackedUtf16String.SyncPhysicalSize` | pe_bliss2/src/packed_utf16_string.cpp:141-144 | the physical size becomes that of the whole string |
| `PackedUtf16Strings.SerializableIff` | pe_bliss2/src/packed_utf16_string.cpp:146-150 | writing is possible exactly for virtual sizes from 2 to 131073; a new string, of size 0, wraps around and is refused |
| `PackedUtf16Strings.WritesBackWhatWasRead` | pe_bliss2/src/packed_utf16_string.cpp:23-96 | after a parse the bytes written are the physical bytes read, or all virtual bytes of the zero-padded view |
| `PackedUtf16Strings.ParseThenSerializeUtf16` | pe_bliss2/src/packed_utf16_string.cpp:23-108 | the same for a parse and a write on any buffer |
| `PackedUtf16Strings.StoreThenParse` | pe_bliss2/src/packed_utf16_string.cpp:23-144 | a fully physical string parses back to itself, exactly if it has at most 65535 units |
| `PackedUtf16Strings.PackedUtf16String.Assign` | pe_bliss2/include/pe_bliss2/packed_utf16_string.h:37-47 | the sizes operator= sets: units, not bytes |
| `PackedUtf16Strings.AssignThenParseIff` | pe_bliss2/include/pe_bliss2/packed_utf16_string.h:37-47 | an assigned string parses back to itself exactly if it is empty; otherwise half of it is lost |

## Left out

- The filter plumbing of Crypto++ (`FILTER_BEGIN` and its relatives, blocking and resumption): output is appended to a
  sequence. `Put2` is modelled as its input loop followed by its message-end branch.
- `Integer` is an unbounded integer, `BitPrecision` and `BytePrecision` the least number of bits and bytes; a word has
  64 bits in `WordCount() * WORD_BITS`. Negative exponents are excluded, as the source's assertions do.
- The standard heap algorithms are modelled by a sift-up and a sift-down that meet their contracts.
- `ModularPower`: the exponentiation behind `Seek` is modelled by its meaning, one factor at a time.
- `PublicBlumBlumShub::ProcessData`: exclusive or with the bytes of `GenerateByte`.
- Block ciphers, compression functions, the ChaCha core and the SIMD kernels are function parameters; a wide kernel
  acts on each of its blocks. In the block drivers the source writes out groups of six, four and two in line, the
  model has one group of a given width.
- `BlockDrivers.AdvancedProcessBlocks6x2`: not on overlapping regions that are not exactly in place, and not in place
  while the pointers stand still and blocks are taken in parallel: a group is then read before any of it is written.
- `BlockDrivers.AdvancedProcessBlocks4x1`: the same.
- The leftover keystream buffer of `AdditiveCipherTemplate`: CCM uses the byte stream by position.
- `CcmCallOrder.CallOrderIff`: the half that calls out of order miss is on whole tags of 16 bytes. Of a shorter part it
  need not hold under a single block cipher, such as the identity for the first byte; `CcmCallOrder.PrefixOrderIff` is
  then on all functions on blocks, not only injective ones.
- `CcmCallOrder`: runs that go on after an exception, and headers of 2^64 bytes or more, for which RFC 3610 has no tag.
- `EuclideanDomain.MultiplicativeInverse`: negative moduli, for which the quotient ring is not meant.
- The NEON and AltiVec drivers, and GCM and EAX on the same state machine.
- The parameter objects of the BLAKE2 and BaseN constructors, key schedules, and algorithm names.
- `IsolatedInitialize` after the first message; a lookup table with values of 2^b or more.
- BER input through other transformations than a queue; `BERDecodeAndCheck`; signed integers.
- Big-endian hosts for the packed strings, word loads and the state of BLAKE2.
- `CcmMode.Ccm`: the two C++ classes `AuthenticatedSymmetricCipherBase` and `CCM_Base` are one class, since the model has
  no inheritance.
- `InputBuffers.Buffer`: buffers are values, so that sharing, lifetime and a container changed under a section are not
  captured; `get_raw_data`, `is_stateless` and the iostream buffers are not modelled. `input_memory_buffer` reads like
  the container.
- The recorded state (`serialized_data_state`) of packed strings, and mutable access to their value.
- `PackedUtf16Strings.PackedUtf16String.Parts`: the callbacks of the shared serializer are modelled by the bytes they
  are handed, which the two forms then write at once.
- `std::vector` growing beyond its maximum size and running out of memory.
- `address_converter`, byte arrays and vectors, entropy, and everything in `console_dumper`: one-step arithmetic,
  copying, floating point or presentation.
