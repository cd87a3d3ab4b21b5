# Verification of the hashing, arithmetic and scheduling core

A Dafny model of the parts of the miner whose meaning is fixed by something outside the code: a standard, a number, or
the steps of two threads. Every main result connects code that works step by step with an independent definition, for
all inputs, all runs or all schedules.

- Argon2 (`Argon2Mix`, `Argon2Reference`, `Argon2Fill`): the mixing layer and its inverses, the choice of reference
  blocks against section 3.4.2 of RFC 9106, and the fill loop, whose lanes may be computed in any order.
- Keccak (`KeccakSpec`, `KeccakF1600`, `KeccakF800`, `KeccakSponge`): the step mappings of FIPS 202 for any lane
  width, on lanes and on single bits; the unrolled permutation on 64-bit lanes, the in-place one on 32-bit lanes, and the streaming sponge.
- BLAKE2b (`Blake2bSpec`, `Blake2bBlocks`, `Blake2bStream`): RFC 7693, and the two implementations of it, one
  splitting blocks and one streaming bytes.
- ProgPoW (`Kiss99`, `ProgPow`, `ProgPowKernel`): the inner loop of EIP-1057 as an interpreter, and the generator that
  compiles a period into straight-line code for two targets.
- Targets (`DecimalHash`, `KHeavyTarget`): decimal text to bytes through carry chains; long division and comparison.
- Number helpers (`LargestPrime`, `FastMod`).
- Scheduling (`JobHandover`, `WritePump`): threads as interleaved steps.
- Search and partition (`EpochSearch`, `NoncePartition`).
- Shared facts (`Arithmetic`, `LittleEndian`, `Words`, `Options`, `Sequences`).

Code that changes arrays and fields is modelled by methods that change arrays and fields; each is proved against a
function, and what the standard or the design promises is proved about that function. Words are non-negative integers
below a power of two with the wrap-around written out, except in Keccak, where a lane is a bit-vector inside a record.

What the code and its reference share is tied to a meaning of its own: the operations on lanes and words to bits, the
initialization vector of BLAKE2b to square roots of primes, the seed of a period to the inverse of its hashes, the
scaled difficulty to the nearest integer, a random word of Argon2 to the lane and column RFC 9106 prescribes, digits to
the order in which they are written, and the reading of numbers to the grammar of ISO C.

Where code and comment or expectation differ, the model follows the code:

- The section numbers in the comments of `argon2d.py` are off by one; the model uses those of RFC 9106.
- `largestPrime` squares its divisor in 64 bits. The square wraps for divisors above 2^32, and yet the answer is right
  for every 64-bit number: one odd divisor has a square that wraps to 2^64 - 7, which ends the loop for all smaller
  numbers, and the odd numbers above that have a factor of 3, 11 or 13.
- `initFastMod` cuts its 33-bit reciprocal to 32 bits. The estimate is then 0 or 1 and the correction loop does the
  division; the result is still exact.
- Lane order is irrelevant, and references are safe, also for memory smaller than RFC 9106 asks for.
- `updateJob` may run a kernel with memory of an old epoch after an update between its flag reads and its copy, and
  `update` copies a job before it counts its requests. Both are shown by concrete sequences of steps. The exact
  condition under which a kernel fits its job is proved for every run, and so is the one under which a caught-up
  counter can be trusted.
- `findEpoch` may return an epoch above its limit, by its shortcut, and narrows its answer to a signed number.
- `setExtraNonce` accepts any text. The exact texts for which the nonce range wraps are characterised.
- The rotation amounts of 32 and more in `keccak_f800` are modelled modulo 32, and so are rotations by a register in
  the emitted kernels; in C++ a shift by 32 or more is undefined.

`dafny verify dfyconfig.toml` checks the project.

## Model

| member | source | states |
|---|---|---|
| `Argon2Mix.FBlaMkaMultiplies` | `reasearch_and_development/argon2d/crypto/argon2d.py:192-206` | On operands below 2^32 twice the result plus one is the product of the odd numbers 2a + 1 and 2b + 1, modulo 2^65. |
| `Argon2Mix.FBlaMkaAddsHighHalves` | `reasearch_and_development/argon2d/crypto/argon2d.py:192-206` | The high halves of the operands are only added. |
| `Argon2Mix.FBlaMkaInvertible` | `reasearch_and_development/argon2d/crypto/argon2d.py:192-206` | For a fixed second operand fBlaMka loses nothing: the inverse recovers the first operand (the low half through an odd factor modulo 2^32, the high half by subtraction). |
| `Argon2Mix.UnFBlaMkaInvertible` | `reasearch_and_development/argon2d/crypto/argon2d.py:192-206` | The other order: fBlaMka after its inverse is the identity, so fBlaMka(., b) is onto as well. |
| `Argon2Mix.GMixBijective` | `reasearch_and_development/argon2d/crypto/argon2d.py:209-243` | G_mix is a bijection on four words: it has a two-sided inverse. |
| `Argon2Mix.PBijective` | `reasearch_and_development/argon2d/crypto/argon2d.py:262-296` | P is a bijection on 16 words, with the inverse that undoes the diagonals and then the columns. |
| `Argon2Mix.PlacesWrittenOut` | `reasearch_and_development/argon2d/crypto/argon2d.py:285-296` | The index quadruples written out in the code are the columns and the wrapped diagonals of the 4 by 4 square. |
| `Argon2Mix.ApplyP` | `reasearch_and_development/argon2d/crypto/argon2d.py:262-296` | The in-place code changes its list to P of it, section 3.6 of RFC 9106. |
| `Argon2Mix.LinesPartition` | `reasearch_and_development/argon2d/crypto/argon2d.py:349-388` | The 8 rows, and the 8 columns, partition the 128 positions of a block: each position lies in exactly one line, once. |
| `Argon2Mix.PermuteBijective` | `reasearch_and_development/argon2d/crypto/argon2d.py:349-388` | The map from R to Q inside the compression is a bijection on blocks. |
| `Argon2Mix.PermuteLines` | `reasearch_and_development/argon2d/crypto/argon2d.py:351-388` | Taking the lines out one after another, permuting and putting them back is permuting all 8 lines at once. |
| `Argon2Mix.Compress` | `reasearch_and_development/argon2d/crypto/argon2d.py:314-401` | The compression is G(X, Y) of section 3.5 of RFC 9106, with the old block added in later passes. |
| `Argon2Reference.SegmentsTileMemory` | `reasearch_and_development/argon2d/crypto/argon2d.py:687-689` | The rounded memory is p lanes of four equal segments; with at least 8p blocks a segment has two. |
| `Argon2Reference.RefColumnIsRfc` | `reasearch_and_development/argon2d/crypto/argon2d.py:479-570` | The column computed is the element of the set W that section 3.4.2 of RFC 9106 prescribes for J1, in every pass, slice and position. |
| `Argon2Reference.ReferenceSafe` | `reasearch_and_development/argon2d/crypto/argon2d.py:479-570` | The referenced column lies in the lane, is already filled in the first pass, is outside the current segment in another lane, is never the column being written, and is the own predecessor exactly in the first pass at the start of the second slice of segments of length one. |
| `Argon2Fill.GenerateAddresses` | `reasearch_and_development/argon2d/crypto/argon2d.py:590-640` | The address blocks are refilled every 128 positions; entry i of the result is the i-th pseudo-random word of the segment. |
| `Argon2Fill.ReferenceIsRfc` | `reasearch_and_development/argon2d/crypto/argon2d.py:806-838` | Lane and column of the block read are the ones that section 3.4 of RFC 9106 prescribes for J1 and J2, the low and the high half of the random word. |
| `Argon2Fill.StepIsRfc` | `reasearch_and_development/argon2d/crypto/argon2d.py:775-846` | One step writes one block and nothing else: G of the block before, cyclically, and the block prescribed, with the old block added after the first pass; the random word is the first of the block before, or comes from the address blocks, by mode, pass and slice. |
| `Argon2Fill.NewBlockFrame` | `reasearch_and_development/argon2d/crypto/argon2d.py:790-846` | A new block depends on the own lane and, in other lanes, only on what lies outside the current slice. |
| `Argon2Fill.InterleaveAlone` | `reasearch_and_development/argon2d/crypto/argon2d.py:753-847` | Under any schedule each lane ends as if it had filled its segment alone. |
| `Argon2Fill.LaneOrderIrrelevant` | `reasearch_and_development/argon2d/crypto/argon2d.py:753-847` | Every interleaving of the lanes of a slice leaves the memory that the sequential lane loop leaves, for every segment length. |
| `Argon2Fill.RunOrderIrrelevant` | `reasearch_and_development/argon2d/crypto/argon2d.py:753-847` | The same for a whole run of passes and slices with an arbitrary schedule in each slice. |
| `Argon2Fill.InterleaveReadsFilled` | `reasearch_and_development/argon2d/crypto/argon2d.py:753-847` | No step of an interleaved slice reads a slot that holds no block. |
| `Argon2Fill.RunReadsFilled` | `reasearch_and_development/argon2d/crypto/argon2d.py:753-847` | The same over all passes, whatever the schedules of the slices. |
| `Argon2Fill.FillBlock` | `reasearch_and_development/argon2d/crypto/argon2d.py:780-847` | The body of the innermost loop performs one step on the memory and reads filled slots only. |
| `Argon2Fill.FillMemory` | `reasearch_and_development/argon2d/crypto/argon2d.py:753-847` | The nested loops compute the run of all slices of all passes, and leave every slot filled. |
| `DecimalHash.DigitTable` | `sources/algo/hash_utils.hpp:217-222` | The ten characters have the values in which they are written in order. |
| `DecimalHash.CarryFrom` | `sources/algo/hash_utils.hpp:231-249` | The carry loop keeps the value of the limbs modulo 16^64, brings limb j below 16 and keeps below 16 the limbs that were; it never indexes past the spare limbs. |
| `DecimalHash.TakeDigit` | `sources/algo/hash_utils.hpp:225-275` | One decimal digit: the partial sum grows by the digit times the power of ten, and the power of ten by ten, both modulo 16^64. |
| `DecimalHash.SumDigits` | `sources/algo/hash_utils.hpp:216-275` | The limbs denote the decimal value modulo 16^64 for every decimal string, leading zeros included. |
| `DecimalHash.DecimalToHash` | `sources/algo/hash_utils.hpp:179-288` | The 64 hexadecimal characters of that value, and 64 zero bytes for a text that is not decimal. |
| `DecimalHash.ToLittleEndian` | `sources/algo/hash_utils.hpp:292-307` | Pairs of hexadecimal characters, read from the end, become the lower half of the bytes; the upper half is zero. |
| `DecimalHash.Boundary` | `sources/algo/hash_utils.hpp:162-307` | The three conversions together: 32 little-endian bytes of the decimal value modulo 2^256, hence exactly that value below 2^256, and zero for a text that is not decimal. |
| `KHeavyTarget.NumeratorMeaning` | `sources/algo/kheavyhash/stratum_math.cpp:46-54` | The numerator is (2^224 - 1) * 2^16. |
| `KHeavyTarget.NumeratorLimbs` | `sources/algo/kheavyhash/stratum_math.cpp:46-54` | The limbs the shift loop produces denote the numerator. |
| `KHeavyTarget.ShiftTarget` | `sources/algo/kheavyhash/stratum_math.cpp:46-54` | The shift loop moves the upper half of each limb of the largest target into the limb above. |
| `KHeavyTarget.DivideLimbs` | `sources/algo/kheavyhash/stratum_math.cpp:56-64` | Long division from the high limb gives the floor of the quotient, each quotient limb fitting 32 bits. |
| `KHeavyTarget.WriteWords` | `sources/algo/kheavyhash/stratum_math.cpp:10-21` | Words written byte by byte keep their value; the same loop serves the pre-pow hash and the target. |
| `KHeavyTarget.RoundIsNearest` | `sources/algo/kheavyhash/stratum_math.cpp:35` | std::round gives the nearest integer, of two the one further from zero. |
| `KHeavyTarget.DivisorIsNearest` | `sources/algo/kheavyhash/stratum_math.cpp:27-44` | The divisor is the difficulty in units of 2^-16 rounded to the nearest, halves up; it is none exactly below half a unit, and 2^32 - 1 exactly from half a unit below that on. |
| `KHeavyTarget.DifficultyToTarget` | `sources/algo/kheavyhash/stratum_math.cpp:24-75` | The target is the floor of the numerator by the quantised divisor, or zero for a difficulty too small for one. |
| `KHeavyTarget.IsLowerOrEqualLE` | `sources/algo/hash_utils.hpp:90-100` | Comparing bytes from the last one on decides the order of the numbers. |
| `KHeavyTarget.MeetsTarget` | `sources/algo/kheavyhash/stratum_math.cpp:56-74` | A hash is at most the target exactly when hash times divisor is at most the numerator. |
| `KHeavyTarget.IsShare` | `sources/algo/kheavyhash/stratum_math.cpp:24-75` | From difficulty and hash to the verdict: the share test is that inequality. |
| `KHeavyTarget.ShareOfDifficulty` | `sources/algo/kheavyhash/stratum_math.cpp:24-75` | The verdict in terms of the difficulty: a share has hash * (difficulty - 2^-17) at most 2^224 - 1, and every hash with hash * (difficulty + 2^-17) at most that is one. |
| `LargestPrime.PrimesAreIrreducible` | `sources/algo/math.cpp:4-15` | What is meant by a prime: a number above 1 that is no product of two numbers above 1. |
| `LargestPrime.TrialDivision` | `sources/algo/math.cpp:4-15` | An odd number without an odd divisor below d, d * d exceeding it, is prime. |
| `LargestPrime.LoopGoesOn` | `sources/algo/math.cpp:6-12` | While the wrapped square is at most the number the divisor is below the number and, unless it divides, the next one is still in bounds; the square wraps only for the last few numbers below 2^64, which have a small factor. |
| `LargestPrime.LoopEnds` | `sources/algo/math.cpp:6` | When the guard fails the true square exceeds the number, wrapped or not. |
| `LargestPrime.IsOddPrime` | `sources/algo/math.cpp:4-15` | For every odd 64-bit number from 3 on the answer is primality, although the square of the divisor may wrap. |
| `LargestPrime.Largest` | `sources/algo/math.cpp:18-41` | For every 64-bit number from 2 on: a prime at most the number with no prime in between; zero below 2. |
| `FastMod.InitFastMod` | `sources/algo/fast_mod.cpp:4-31` | The reciprocal: magic is the rounded-up quotient of 2^(32 + shift) by the divisor, cut to 32 bits, for divisors up to 2^31. |
| `FastMod.EstimateTooLow` | `sources/algo/fast_mod.cpp:40-43` | The quotient estimate never exceeds the true quotient: it is 1 exactly when the product with the reciprocal is at least 2^63, and 0 otherwise. |
| `FastMod.Mod` | `sources/algo/fast_mod.cpp:34-51` | With such a reciprocal the result is the remainder: the difference does not wrap and the correction loop ends. |
| `FastMod.Remainder` | `sources/algo/fast_mod.cpp:4-51` | For 1 <= d <= 2^31 and every 32-bit value both functions together compute the remainder. |
| `KeccakSpec.OffsetOfWalk` | `sources/algo/keccak.cpp:78-79` | The rotation FIPS 202 gives to the lane visited at step t is the triangular number (t + 1)(t + 2) / 2. |
| `KeccakSpec.PiUndoesWalk` | `sources/algo/keccak.cpp:81-82` | Pi moves each lane of the rotation walk to the place of the next lane, which is why one cycle of 24 can do both steps. |
| `KeccakSpec.ThetaOnBits` | `sources/algo/keccak.cpp:86-99` | Algorithm 1 of FIPS 202 bit by bit: the columns to the left, and to the right one position below, are added. |
| `KeccakSpec.RhoOnBits` | `sources/algo/keccak.cpp:101-109` | Algorithm 2: the bits of the lane at step t of the walk move by a triangular number modulo the width. |
| `KeccakSpec.PiOnLanes` | `sources/algo/keccak.cpp:101-109` | Algorithm 3: lane (x + 3y, x) comes to (x, y). |
| `KeccakSpec.ChiOnBits` | `sources/algo/keccak.cpp:111-122` | Algorithm 4: the complement of the next bit in the row times the one after is added. |
| `KeccakF1600.Lanes64OnBits` | `sources/algo/keccak.hpp:66-206` | What the exclusive or, the complement with and, and the rotation of the code do to each bit of a lane: a rotation by s moves bit z - s, modulo 64, to bit z. |
| `KeccakF1600.RoundConstantsAreSpecified` | `sources/algo/keccak.hpp:15-22` | Each of the 24 constants is the one the linear feedback shift register of section 3.2.5 of FIPS 202 produces. |
| `KeccakF1600.HalfRoundIsRound` | `sources/algo/keccak.hpp:66-206` | Lanes that satisfy the 50 equations of one unrolled half are one round (theta, rho, pi, chi, iota) of the lanes before. |
| `KeccakF1600.RoundAxxToExx` | `sources/algo/keccak.hpp:68-135` | The first unrolled half computes one round from the A lanes into the E lanes. |
| `KeccakF1600.RoundExxToAxx` | `sources/algo/keccak.hpp:137-205` | The second half computes one round from the E lanes back into the A lanes. |
| `KeccakF1600.Permute` | `sources/algo/keccak.hpp:13-233` | The loop of 12 double rounds changes the state to 24 rounds of it, section 3.3 of FIPS 202 with lanes of 64 bits. |
| `KeccakF800.Lanes32OnBits` | `sources/algo/keccak.cpp:86-125` | The same for lanes of 32 bits. |
| `KeccakF800.RoundConstantsAreSpecified` | `sources/algo/keccak.cpp:72-76` | The 22 constants are the low 32 bits of the shift-register constants. |
| `KeccakF800.ThetaInPlace` | `sources/algo/keccak.cpp:87-99` | The two loops change the array to theta of it. |
| `KeccakF800.RhoPiInPlace` | `sources/algo/keccak.cpp:101-109` | The in-place cycle of 24 moves changes the array to pi of rho of it, rotations taken modulo 32. |
| `KeccakF800.ChiInPlace` | `sources/algo/keccak.cpp:111-122` | Row by row the array becomes chi of it. |
| `KeccakF800.OneRound` | `sources/algo/keccak.cpp:67-126` | One call is one round with its constant. |
| `KeccakF800.Keccak` | `sources/algo/keccak.cpp:129-143` | 22 calls change the array to 22 rounds of it; the hash is its first eight lanes. |
| `KeccakSponge.WordBit` | `sources/algo/keccak.cpp:26-30` | Bit k of byte j is bit 8j + k of the word loaded. |
| `KeccakSponge.AddBlockOnBits` | `sources/algo/keccak.cpp:26-30` | Adding a block adds its bits to the first bits of the state, 64 to a lane, and leaves the others. |
| `KeccakSponge.PadIsPad10Star1` | `sources/algo/keccak.cpp:45-55` | On bits, the padding bytes are pad10*1 of section 5.1 of FIPS 202: a one, the least number of zeros, and a one. |
| `KeccakSponge.FinalLaneIsPadded` | `sources/algo/keccak.cpp:37-55` | Adding whole words, then the last word with 0x01 behind it, then the top bit of the last lane of the rate, is adding the padded tail. |
| `KeccakSponge.AddWholeBlock` | `sources/algo/keccak.cpp:26-30` | A full block is added word by word to the lanes of the rate. |
| `KeccakSponge.AddTail` | `sources/algo/keccak.cpp:35-55` | The tail loops add the padded last block to the state and stay inside the rate. |
| `KeccakSponge.Digest` | `sources/algo/keccak.cpp:12-64` | The streaming sponge equals padding the whole message, absorbing its blocks and truncating, for every message; the rest of the output is not touched. |
| `Blake2bSpec.IVIsSquareRoots` | `reasearch_and_development/blake2b/crypto/blake2b.py:79-91` | Each word of the initialization vector is the first 64 bits of the fraction of the square root of a prime, 2 to 19. |
| `Blake2bBlocks.BytesToWords16` | `reasearch_and_development/blake2b/crypto/blake2b.py:128-146` | The shifts and ors decode a block into 16 little-endian words. |
| `Blake2bBlocks.StateToBytes` | `reasearch_and_development/blake2b/crypto/blake2b.py:149-161` | The state as bytes, word by word, least significant byte first. |
| `Blake2bBlocks.MixWordsIsMix` | `reasearch_and_development/blake2b/crypto/blake2b.py:168-229` | The scalar G, with its masked sums and shift-and-or rotations, is G of section 3.1 of RFC 7693. |
| `Blake2bBlocks.MixRounds` | `reasearch_and_development/blake2b/crypto/blake2b.py:302-329` | The loop over SIGMA[r % 10] performs the 12 rounds. |
| `Blake2bBlocks.Compress` | `reasearch_and_development/blake2b/crypto/blake2b.py:250-336` | The state changes to F of it (section 3.2 of RFC 7693), for every block, counter and flag. |
| `Blake2bBlocks.Blake2b` | `reasearch_and_development/blake2b/crypto/blake2b.py:343-437` | Splitting into blocks computes the hash of section 3.3 of RFC 7693 for every message, key and digest size, the empty message and exact multiples of 128 included. |
| `Blake2bStream.RotrByXorIsRor` | `sources/algo/autolykos/autolykos_mhssamadani.cpp:45` | Shifts joined by an exclusive or are the rotation. |
| `Blake2bStream.B2bG` | `sources/algo/autolykos/autolykos_mhssamadani.cpp:48-58` | Eight assignments in place are G on the four places, and change nothing else. |
| `Blake2bStream.MixRow` | `sources/algo/autolykos/autolykos_mhssamadani.cpp:63-70` | Eight uses of G with 16 named message words are one round with that schedule. |
| `Blake2bStream.B2bMix` | `sources/algo/autolykos/autolykos_mhssamadani.cpp:61-170` | The 96 unrolled uses of G are the 12 rounds: every named message word is the one SIGMA names. |
| `Blake2bStream.CounterAdds` | `sources/algo/autolykos/autolykos_mhssamadani.cpp:238-239` | The carry taken from the wrap-around of the low word keeps the two words equal to the byte count modulo 2^128. |
| `Blake2bStream.Context.HostB2bH` | `sources/algo/autolykos/autolykos_mhssamadani.cpp:236-245` | A full buffer is compressed as a block that is not the last, and the counter grows by 128. |
| `Blake2bStream.Context.HostB2bHLast` | `sources/algo/autolykos/autolykos_mhssamadani.cpp:248-263` | The buffer, filled up with zeros, is compressed as the last block with the count of real bytes. |
| `Blake2bStream.Stream` | `sources/algo/autolykos/autolykos_mhssamadani.cpp:338-364` | Feeding the bytes with the lazy flush leaves the final state of the reference, for every message. |
| `Blake2bStream.LittleEndianToHexStr` | `sources/algo/autolykos/autolykos_mhssamadani.cpp:290-304` | The characters are the hexadecimal digits of the bytes in reverse order, and a terminator. |
| `Blake2bStream.HexStrToBigEndian` | `sources/algo/autolykos/autolykos_mhssamadani.cpp:323-333` | Each byte is parsed from its two characters; characters before the first one read count as zero. |
| `Blake2bStream.PrintParse` | `sources/algo/autolykos/autolykos_mhssamadani.cpp:290-333` | Printing and parsing gives the bytes back. |
| `Blake2bStream.Blake2b256` | `sources/algo/autolykos/autolykos_mhssamadani.cpp:336-371` | The output is the digest reversed; the string is the digest in order. |
| `Blake2bStream.HashFn` | `sources/algo/autolykos/autolykos_mhssamadani.cpp:374-385` | After printing and parsing the output is the 32-byte digest in order. |
| `Blake2bStream.GenIndex` | `sources/algo/autolykos/autolykos_mhssamadani.cpp:388-426` | Index k is the big-endian number in the four bytes of the digest from byte k on, cyclically, modulo N. |
| `Blake2bStream.DigestInOrder` | `sources/algo/autolykos/autolykos_mhssamadani.cpp:323-371` | Streaming, printing and parsing, with a string of 65 characters, give the 32-byte digest in order for every message. |
| `Blake2bStream.HashBothWays` | `sources/algo/autolykos/autolykos_mhssamadani.cpp:323-371` | The byte-streaming and the block-splitting implementation return the same digest for every message. |
| `Kiss99.NeverWraps` | `sources/algo/crypto/kiss99.cpp:6-7` | The two multiply-with-carry steps never leave 32 bits, so the machine arithmetic is exact. |
| `Kiss99.Generator.Draw` | `sources/algo/crypto/kiss99.cpp:4-18` | A draw moves the four fields to the next state and returns its number. |
| `Kiss99.Fnv1aUndone` | `sources/algo/crypto/fnv1.cpp:10-13` | A hash and its first operand determine the second: the prime has an inverse modulo 2^32. |
| `Kiss99.Fnv1aCommutes` | `sources/algo/crypto/fnv1.cpp:10-13` | The hash is symmetric in its operands. |
| `Kiss99.SeedDeterminesPeriod` | `sources/algo/progpow/progpow.cpp:12-15` | Undoing the four chained hashes gives the halves of the period, the low one from the first and third word, the high one from the others. |
| `ProgPow.ShufflePermutes` | `sources/algo/progpow/progpow.cpp:28-37` | For any generator whatever, the double Fisher-Yates shuffle leaves both orders permutations. |
| `ProgPow.DestinationsDistinct` | `sources/algo/progpow/progpow.cpp:17-37` | Within any regs consecutive uses of the destination order no register comes twice. |
| `ProgPow.SourcesBijective` | `sources/algo/progpow/kernel_opencl.cpp:291-301` | Every number below regs * (regs - 1) stands for two distinct registers, and can be recovered from them. |
| `ProgPow.SourcesOnto` | `sources/algo/progpow/kernel_opencl.cpp:291-301` | Every ordered pair of distinct registers is the pair of exactly one such number. |
| `ProgPow.AndAt` | `sources/algo/progpow/kernel_opencl.cpp:124-126` | And, bit by bit. |
| `Words.OrAt` | `sources/algo/progpow/kernel_opencl.cpp:127-129` | Or, bit by bit. |
| `Words.XorAt` | `sources/algo/progpow/kernel_opencl.cpp:130-132` | Exclusive or, bit by bit. |
| `ProgPow.LeadingZeros` | `sources/algo/progpow/kernel_opencl.cpp:94-97` | The count of leading zeros: exactly that many binary digits of 32 are zeros before the first one. |
| `ProgPow.PopcountIsDigitSum` | `sources/algo/progpow/kernel_opencl.cpp:98-101` | The population count is the sum of the binary digits. |
| `ProgPow.RolMovesBits` | `sources/algo/rol.hpp:12-15` | The low digits move up by the amount modulo 32, the high ones come down behind them. |
| `ProgPow.RorIsRol` | `sources/algo/rol.hpp:18-21` | The rotation to the right is the one to the left by what is missing to 32. |
| `ProgPow.ProductInTwoWords` | `sources/algo/progpow/kernel_opencl.cpp:105-111` | Product and high product are the two words of the 64-bit product. |
| `ProgPowKernel.InitializeRound` | `sources/algo/progpow/progpow.cpp:7-41` | Seeding, filling and shuffling in place give the generator and the orders of EIP-1057 for the period. |
| `ProgPowKernel.MergeLineMeaning` | `sources/algo/progpow/kernel_opencl.cpp:141-156` | Evaluating the emitted merge gives the merge of EIP-1057 that the selector asks for. |
| `ProgPowKernel.MathLineMeaning` | `sources/algo/progpow/kernel_opencl.cpp:92-133` | Evaluating the emitted operation, in the words of either target, computes the operation. |
| `ProgPowKernel.OffsetMeaning` | `sources/algo/progpow/kernel_opencl.cpp:170-172` | Masking with MODULE_CACHE - 1 is the remainder by the number of cached words. |
| `ProgPowKernel.WriteMathMergeProgPowOpenCL` | `sources/algo/progpow/kernel_opencl.cpp:73-157` | The written-out table at k is the table of EIP-1057 at (k + 9) modulo 11, in the words of OpenCL. |
| `ProgPowKernel.WriteMathMergeProgPowCuda` | `sources/algo/progpow/kernel_cuda.cpp:75-159` | The same in the words of CUDA. |
| `ProgPowKernel.WriteMathMergeKawpowOpenCL` | `sources/algo/progpow/kawpow.cpp:131-215` | The second table is the one of EIP-1057, in the words of OpenCL. |
| `ProgPowKernel.WriteMathMergeKawpowCuda` | `sources/algo/progpow/kawpow.cpp:5-89` | The same in the words of CUDA. |
| `ProgPowKernel.WriteMathRandomKernelOpenCL` | `sources/algo/progpow/kernel_opencl.cpp:199-350` | The loops emit the program of the period for OpenCL. |
| `ProgPowKernel.WriteMathRandomKernelCuda` | `sources/algo/progpow/kernel_cuda.cpp:202-362` | The loops emit the program of the period for CUDA. |
| `ProgPowKernel.LoopInStep` | `sources/algo/progpow/kernel_opencl.cpp:249-328` | Generator and interpreter stay in step: same draws, same counters, and the program so far leaves the registers of the interpreter. |
| `ProgPowKernel.ProgramComputesLoop` | `sources/algo/progpow/kernel_opencl.cpp:199-350` | Compilation preserves meaning: on any registers, cache and entries the emitted program stays inside its arrays and computes one pass of the inner loop, for every version, period, counts and number of registers. |
| `ProgPowKernel.ProgramLength` | `sources/algo/progpow/kernel_opencl.cpp:249-345` | A program has two statements for every cache access and every operation, and one for each of four loaded words. |
| `ProgPowKernel.TargetsAgree` | `sources/algo/progpow/kernel_cuda.cpp:202-362` | The OpenCL and the CUDA program leave the same registers. |
| `JobHandover.InvAlways` | `sources/device/device.cpp:249-313` | In every interleaving the counters show the counted requests and acknowledge none that what was built does not serve. |
| `JobHandover.CaughtUp` | `sources/device/device.cpp:249-313` | When a counter is caught up at a kernel, the resource was built from a job at least as new as the newest counted request. |
| `JobHandover.CaughtUpExactly` | `sources/device/device.cpp:150-164` | Caught up means built for every accepted request exactly when no request is accepted but not yet counted. |
| `JobHandover.CaughtUpFitsExactly` | `sources/device/device.cpp:150-164` | Caught up means built to fit the current job exactly when the current job is not the one with the uncounted request. |
| `JobHandover.CaughtUpKernelMatches` | `sources/device/device.cpp:389-412` | Caught up and every request up to the current job counted: the kernel runs with resources that fit its job. |
| `JobHandover.KernelFitsExactly` | `sources/device/device.cpp:249-313` | At every kernel of every run: memory, and constants, fit the current job exactly when the flag read before the copy of that job asked to build them, or the newest job known at that read had the same epoch, or header. |
| `JobHandover.QuietKernelMatches` | `sources/device/device.cpp:249-313` | If no update fell between the flag reads and the copy of the current job, the kernel runs with the memory epoch and the header of that job, whatever happened before. |
| `JobHandover.ExclusiveMeans` | `sources/device/device.cpp:249-313` | The condition of the next row: no update is under way in any state of the run with the worker between its flag reads and the store. |
| `JobHandover.ExclusiveKernelMatches` | `sources/device/device.cpp:249-313` | If no update ever falls between the flag reads and the store of the job counter, every kernel runs with the memory epoch and the header of its current job. |
| `JobHandover.StaleMemory` | `sources/device/device.cpp:253-282` | A sequence of steps on the failing side of the exact condition: an update between the flag reads and the copy delays the rebuild, and the kernel goes on with the memory of an old epoch. |
| `JobHandover.UncountedRequest` | `sources/device/device.cpp:150-164` | A sequence of steps that shows the other condition is needed: the job is copied before its memory request is counted. |
| `JobHandover.UpdateRuns` | `sources/device/device_manager.cpp:587-627` | An update that nothing interrupts counts its requests by comparing epoch and header with the job before. |
| `WritePump.PumpObject.Enqueue` | `sources/network/write_pump.cpp:12-26` | The locked part: the payload joins the queue, and the head is handed out when no write is under way. |
| `WritePump.PumpObject.OnComplete` | `sources/network/write_pump.cpp:29-51` | The locked part: the head leaves, a failure empties the queue, and the next head is handed out or the pump goes idle. |
| `WritePump.AlwaysSafe` | `sources/network/write_pump.cpp:12-51` | Every reachable state, transmit being a step of its own: at most one payload under way, it is the head of the queue, the flag holds exactly when the queue is not empty, and hand-outs are in the order of enqueuing. |
| `WritePump.HandedOutInOrder` | `sources/network/write_pump.cpp:12-51` | What was transmitted is what was enqueued, in the same order and without repetition, one payload at a time. |
| `WritePump.Conservation` | `sources/network/write_pump.cpp:12-51` | The positions handed out, dropped and queued are exactly those enqueued, and overlap in the head only while it is outstanding. |
| `WritePump.IdleMeansEmpty` | `sources/network/write_pump.cpp:43-47` | When nothing is under way nothing waits. |
| `WritePump.SpuriousCompletion` | `sources/network/write_pump.cpp:29-51` | A second completion for one transmit puts two payloads under way, so "one completion per transmit" is needed. |
| `EpochSearch.ContextGenerator.FindEpoch` | `sources/algo/ethash/ethash.cpp:20-61` | The answer is that of the cached search, cut to a signed 32-bit number, and the cached seed stays the hash iterated cached-epoch times on zero. |
| `EpochSearch.NarrowingExact` | `sources/algo/ethash/ethash.cpp:50-55` | The signed number answered is the epoch found exactly when it is below 2^31. |
| `EpochSearch.FindSound` | `sources/algo/ethash/ethash.cpp:20-61` | An answer names an epoch whose seed starts with the word; -1 means no epoch up to the limit does. |
| `EpochSearch.HistoryIrrelevant` | `sources/algo/ethash/ethash.cpp:20-61` | With distinct first words the answer for the seed of an epoch in range is that epoch after any history of calls. |
| `EpochSearch.AgreesWithLinear` | `sources/algo/ethash/ethash.cpp:32-44` | A call answers like the plain search exactly when the shortcut misses or hits the first match in range. |
| `EpochSearch.LimitNotEnforced` | `sources/algo/ethash/ethash.cpp:38-44` | The shortcut ignores the limit: an epoch just beyond it is found after its predecessor. |
| `NoncePartition.HexDigitTable` | `sources/stratum/stratum.cpp:290-310` | The hexadecimal digits are the sixteen characters in order, in both cases, and nothing else. |
| `NoncePartition.StrToULLOfSubject` | `sources/stratum/stratum.cpp:290-310` | strtoull on any text of its form, section 7.22.1.4 of ISO C: space, sign, prefix, digits and anything behind them; it saturates, and a minus sign negates modulo 2^64. |
| `NoncePartition.StrToULLOfHex` | `sources/stratum/stratum.cpp:290-310` | On at most 16 hexadecimal digits strtoull reads the number they denote. |
| `NoncePartition.RangeInfoOfHex` | `sources/stratum/stratum.cpp:280-312` | For hexadecimal digits the start is the extranonce followed by zeros, the gap all ones of the remaining digits, and the range ends within 64 bits. |
| `NoncePartition.Stratum.SetExtraNonce` | `sources/stratum/stratum.cpp:280-312` | The two fill loops and the three conversions leave the nonce fields of the text, cut to 16 characters. |
| `NoncePartition.RangeFitsExactly` | `sources/stratum/stratum.cpp:290-310` | For any text whatever the range stays within 64 bits exactly when no minus sign stands before a number below 16 to the number of filled digits. |
| `NoncePartition.MalformedExtraNonceWraps` | `sources/stratum/stratum.cpp:290-310` | The extranonce "-1z" is on the failing side: it starts at the last nonce and has a gap. |
| `NoncePartition.DeviceManager.OnUpdateJob` | `sources/device/device_manager.cpp:577-629` | An unchanged job is skipped; for a new one the gap is divided once, whatever the job before was, and exactly the devices that follow the stratum get their slices. |
| `NoncePartition.DeviceManager.UpdateDevice` | `sources/device/device_manager.cpp:713-742` | Missing devices, and in the standard profile those of other strata, are passed over; the others shift the nonce by the gap times their id. |
| `NoncePartition.SliceStart` | `sources/device/device.cpp:152-153` | The nonce of a slice moves by the gap times the id without wrapping, and the slice ends within the range. |
| `NoncePartition.SlicesDisjoint` | `sources/device/device.cpp:152-153` | No nonce lies in the slices of two devices. |
| `NoncePartition.SliceInRange` | `sources/stratum/stratum.cpp:280-312` | A slice lies inside the range of the extranonce: it does not wrap and keeps the leading digits. |
| `NoncePartition.Work` | `sources/device/device.cpp:389-412` | After k kernels the nonce of a device has moved by k batches, modulo 2^64. |
| `NoncePartition.StaysInSlice` | `sources/device/device.cpp:411` | A device tries nonces of its slice only, exactly when kernels times batch is at most its gap. |

## Left out

- Everything that talks to devices, networks, files or users: CUDA and OpenCL kernels, Stratum messages, TLS, the HTTP
  API, configuration, logging and statistics.
- Argon2 outside the fill loop: the initial hash H0, the variable-length hash of section 3.3 of RFC 9106 and the
  finalisation, which are sequences of calls of BLAKE2b.
- `toHash256` from a floating-point number, `computeRank` and the hashrate statistics: rounding is their point.
- `buildLightCache` and the tables of seeds in `ethash.cpp`; the hash is a parameter of the epoch search.
- The share check on OpenSSL big numbers, and the vendored BLAKE3 code; neither is part of this model.
- The text of the emitted kernels (comments, tabs, file paths): statements of a datatype stand for its lines.
- KHeavyTarget.DifficultyToTarget: takes the difficulty as a real number; infinities and NaN are not modelled.
- KHeavyTarget.IsShare: takes the difficulty as a real number, like the target it compares with.
- DecimalHash.DecimalToHash: lengths of 2^31 and more, where the index no longer fits its type, and a failing
  allocation are not modelled.
- FastMod.InitFastMod: says nothing about the reciprocal of divisors above 2^31, where the code shifts by 64 bits, which
  C++ leaves undefined.
- KeccakSponge.Digest: takes digest sizes that are multiples of 64 bits up to 512, which includes the two in use; other
  sizes would truncate the output or need a second squeeze.
- Blake2bStream.HashFn: asks for messages of at least 22 bytes, because the scratch string of the code holds three
  characters per byte and must hold 65; all callers pass at least 32 bytes.
- Blake2bStream.HexStrToBigEndian: asks for at most 127 bytes, because the index of the code is a byte.
- ProgPowKernel.WriteMathRandomKernelOpenCL: the counters of destinations and sources do not wrap at 2^32, and
  moduleSource is regs * (regs - 1), as at every call.
- ProgPowKernel.WriteMathRandomKernelCuda: as for OpenCL.
- EpochSearch.ContextGenerator.FindEpoch: not modelled are the limit 2^32 - 1, for which the loop of the code never ends
  without a match, and the successor of the largest signed epoch, which C++ leaves undefined.
- NoncePartition.DeviceManager.OnUpdateJob: asks for at least one device, because the code divides by their number.
- JobHandover.KernelFitsExactly: copies of a job and accesses to counters are atomic steps; torn reads and memory orders
  are not modelled, and counters do not wrap.
- JobHandover.ExclusiveKernelMatches: one direction, the other being that of KernelFitsExactly for each kernel.
- JobHandover.UpdateRuns: one manager thread; two jobs announced at once are not modelled.
- WritePump.AlwaysSafe: assumes exactly one completion per transmit, as the pump's owner does.
