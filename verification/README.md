# psi-tools in Dafny

A model of the bit-level and limb-level algorithms of psi-tools, with proofs against the
public standards that they implement. Code that works in place is modelled in place:
limb and octet arrays are arrays, `ByteBuffer`, `BigInteger` and `BitSet` are classes, and
their loops are loops. Each method is tied to a function on values, and the lemmas are
about those functions. `dafny verify dfyconfig.toml` checks everything.

What each group of files models:

- X25519 (`Limbs`, `Carry`, `FieldOps`, `Inverse`, `TwosComplement`, `Packing`,
  `ScalarMult`): sixteen signed limbs in 64-bit integers whose every operation is checked
  for overflow, against section 5 of RFC 7748 (`Rfc7748`) over the integers mod
  2^255 - 19 (`PrimeField`). The ladder step is the chord and tangent law of Curve25519
  (`Montgomery`), so that X25519 gives multiples of points and two parties agree
  (`Agreement`).
- AES-GCM (`Gf128`, `Polynomials`, `Ghash`, `Counter`, `Gcm`): SP 800-38D. The model
  follows the code where it departs from the standard: the increment runs over all 128
  bits, only 32 bits of each length are stored, and a vector is read from its cursor.
- AES (`AesTables`, `AesRounds`, `AesKeys`, `Aes`, `AesBuffers`): FIPS 197, and the code's
  own layout for strings whose length is no multiple of sixteen.
- BigInteger (`Words`, `BigIntegers`): the carry loop that skips full words below the top,
  and a zero result that keeps its words.
- SHA-256, HMAC and HKDF (`Sha256`, `Sha`, `Hmac`): FIPS 180-4, RFC 2104 and RFC 5869, with
  the padding as the code builds it for sizes from 56 to 63 modulo 64.
- Lines and chunks (`TextLines`, `ByteBuffers`, `HttpParser`, `ChunkedCoding`,
  `HttpMessages`): `readLine`, the header fields and the chunk parser, and exactly when its
  loop ends.
- Worked examples of the standards, down to every round (`GcmExample`, `AesExample`,
  `ShaExample`), and where the constants of SHA-256 come from (`ShaConstants`).
- Packed bits (`WordBits`, `BitSets`), UTF-8 (`Utf8`) and base 64 (`Base64`,
  `Base64Codec`).

Where code and documentation disagree the model follows the code: `ByteBuffer::resize`
gives a zeroed block and resets both cursors, although its comment promises that data is
kept; `utf8_to_wstring` appends a zero character for an invalid octet, although its
comment says that the octet is skipped; `readLine` returns whether the two cursors differ,
not whether a delimiter was found.

Integers are unbounded in Dafny. Limbs are a 64-bit integer type whose bounds are proof
obligations, words and octets are bit vectors or bounded integers that wrap where the code
wraps, and `size_t` arithmetic is reduced modulo 2^64 where a wrap can be reached. Buffers
are smaller than 2^63 octets, as every allocation is.

## Model

| member | source | states |
|---|---|---|
| ScalarMult.ScalarMultiply | psi/src/psi/tools/crypt/x25519.cpp:144-189 | for all 32-octet scalars and points, and also when the output array is one of them, the octets written are, as a little-endian number, the X25519 function of section 5 of RFC 7748: clamped scalar, masked u-coordinate, the 255-step ladder with one deferred swap, and x2 times z2 to the power p - 2; no int64 operation overflows; what that function is on the curve is stated by Agreement.X25519IsMultiple |
| ScalarMult.ScalarMultiplyBase | psi/src/psi/tools/crypt/x25519.cpp:130-133 | the same for the base point 9 |
| ScalarMult.LadderStep | psi/src/psi/tools/crypt/x25519.cpp:165-182 | the eighteen in-place limb operations, with their reuse of a to f, compute one ladder step of RFC 7748 on the residues and leave every working limb in [-38, 65574) |
| ScalarMult.LadderRound | psi/src/psi/tools/crypt/x25519.cpp:161-185 | a round that swaps before and after its step is the swapped step of the points that the limbs represent |
| ScalarMult.StepProducts | psi/src/psi/tools/crypt/x25519.cpp:165-172 | the first eight operations leave the two cross products and the two squares of the ladder in a, c, d and f |
| ScalarMult.StepAlgebra | psi/src/psi/tools/crypt/x25519.cpp:173-182 | the remaining operations, which use x3 and z3 sums in place of separate temporaries, give the x3, z3, x2 and z2 of RFC 7748 |
| ScalarMult.LadderUnfolds | psi/src/psi/tools/crypt/x25519.cpp:161-187 | swapping on both sides of each step ends in the same point as the deferred swap of RFC 7748 |
| ScalarMult.DeferredSwap | psi/src/psi/tools/crypt/x25519.cpp:163-184 | swapping back and swapping again for the next bit is one swap, made when two neighbouring bits differ |
| ScalarMult.BitOfOctets | psi/src/psi/tools/crypt/x25519.cpp:162 | bit t of the little-endian scalar is bit t mod 8 of octet t / 8 |
| ScalarMult.ClampScalar | psi/src/psi/tools/crypt/x25519.cpp:146-152 | the copy is the clamped scalar of RFC 7748, and the caller's scalar keeps its octets |
| Agreement.SharedSecret | psi/src/psi/tools/crypt/x25519.cpp:144-189 | two parties that apply their scalars to one u and then to what the other one has sent end with the same value, for all scalars and for every u of a curve point, small orders included; under Fermat's theorem for p, and for the multiples that the chord and tangent law gives |
| Agreement.Exchange | psi/src/psi/tools/crypt/x25519.cpp:130-189 | the same for the two methods on their arrays: public keys from the base point, exchanged, give both sides the same octets |
| Agreement.X25519IsMultiple | psi/src/psi/tools/crypt/x25519.cpp:144-189 | X25519 is the u-coordinate of the multiple of the point that the clamped scalar says, and zero for the point at infinity |
| Agreement.LadderOnMultiples | psi/src/psi/tools/crypt/x25519.cpp:161-187 | after the bits from t on, the two projective points are the multiples by that prefix of the scalar and by the next number |
| Agreement.X25519OfZero | psi/src/psi/tools/crypt/x25519.cpp:144-189 | from u = 0, the point of order two, every scalar gives zero |
| Agreement.ClampedScalar | psi/src/psi/tools/crypt/x25519.cpp:146-152 | the scalar used is a multiple of eight from 2^254 on and below 2^255 |
| Agreement.ClampKeepsBits | psi/src/psi/tools/crypt/x25519.cpp:146-152 | its bits 3 to 253 are those of the octets given |
| Montgomery.DoubleRepresented | psi/src/psi/tools/crypt/x25519.cpp:165-182 | the first point after a step is the double of the first point before it by the tangent law of v^2 = u^3 + 486662 u^2 + u, with the point at infinity and vertical tangents |
| Montgomery.SumRepresented | psi/src/psi/tools/crypt/x25519.cpp:165-182 | the second point after a step is the sum of the two points before it by the chord law, in all its cases, when their difference is the base point |
| Montgomery.StepDoubles | psi/src/psi/tools/crypt/x25519.cpp:165-182 | x2 and z2 become (x2^2 - z2^2)^2 and 4 x2 z2 (x2^2 + 486662 x2 z2 + z2^2) |
| Montgomery.StepAdds | psi/src/psi/tools/crypt/x25519.cpp:165-182 | x3 and z3 become 4 (x2 x3 - z2 z3)^2 and 4 x1 (x3 z2 - z3 x2)^2 |
| Montgomery.ChordPoints | psi/src/psi/tools/crypt/x25519.cpp:165-182 | the u-coordinates of the sum and the difference of two points multiply to ((u u' - 1) / (u - u'))^2, from the equation of the curve |
| FieldOps.FieldMul | psi/src/psi/tools/crypt/x25519.cpp:53-72 | for limbs within 2^26 of zero no product or sum leaves int64, the result limbs are in [-38, 65574), and the residue is the product mod 2^255 - 19, whichever of the three arrays are the same |
| FieldOps.Product | psi/src/psi/tools/crypt/x25519.cpp:55-63 | the 31 accumulators represent exactly the product of the two represented integers, and stay within 2^56 |
| FieldOps.Fold | psi/src/psi/tools/crypt/x25519.cpp:64-66 | adding 38 times the upper accumulators changes the represented integer by a multiple of p |
| FieldOps.FieldAdd | psi/src/psi/tools/crypt/x25519.cpp:37-42 | limbwise sum; the residue is the sum mod p |
| FieldOps.FieldSub | psi/src/psi/tools/crypt/x25519.cpp:45-50 | limbwise difference; the residue is the difference mod p |
| Carry.CarryPass | psi/src/psi/tools/crypt/x25519.cpp:22-34 | for limbs within 2^62 one pass leaves limbs in 16 bits except the first, which takes 38 times the last carry, and no operation overflows |
| Carry.CarriedResidue | psi/src/psi/tools/crypt/x25519.cpp:22-34 | a carry pass keeps the residue mod p |
| Carry.FirstPass | psi/src/psi/tools/crypt/x25519.cpp:109 | after one pass from limbs within 2^62, limbs 1 to 15 are in 16 bits and limb 0 is within 2^53 |
| Carry.SecondPass | psi/src/psi/tools/crypt/x25519.cpp:110 | after the second pass every limb is in [-38, 65574) |
| Carry.ThirdPass | psi/src/psi/tools/crypt/x25519.cpp:111 | after the third pass every limb is in 16 bits |
| Inverse.Invert | psi/src/psi/tools/crypt/x25519.cpp:74-89 | for every input within 2^26 the result is its power p - 2 mod p, also in place |
| Inverse.FinalExponent | psi/src/psi/tools/crypt/x25519.cpp:80-85 | 254 squarings with multiplications skipped at 2 and 4 raise to exactly 2^255 - 21 |
| TwosComplement.Swap | psi/src/psi/tools/crypt/x25519.cpp:91-100 | every bit of the two arrays keeps or changes its place as the mask says, for all swap values but the smallest; 0 keeps all limbs and 1 exchanges them |
| TwosComplement.MaskedExchange | psi/src/psi/tools/crypt/x25519.cpp:93-98 | the mask arithmetic on 64-bit two's complement exchanges exactly the bits that the mask -bit selects |
| TwosComplement.ExchangedAll | psi/src/psi/tools/crypt/x25519.cpp:93-98 | the mask of 1 selects every bit and the mask of 0 none |
| Packing.Unpack | psi/src/psi/tools/crypt/x25519.cpp:13-20 | the limbs are canonical and represent the input mod 2^255 |
| Packing.Pack | psi/src/psi/tools/crypt/x25519.cpp:102-128 | for limbs within 2^62 the 32 octets are the unique representative in [0, p) of the residue |
| Packing.Normalize | psi/src/psi/tools/crypt/x25519.cpp:106-111 | three passes make limbs canonical without changing the residue |
| Packing.SubtractPrime | psi/src/psi/tools/crypt/x25519.cpp:112-122 | one turn subtracts p exactly when the value is at least p, by borrow, mask and swap |
| Packing.TwoSubtractions | psi/src/psi/tools/crypt/x25519.cpp:112 | two conditional subtractions suffice for every canonical value |
| Ghash.GfMultBlock | psi/src/psi/tools/crypt/aes_gcm.cpp:76-98 | the octets written are the field product of the two blocks in the reflected bit order of section 6.3 of SP 800-38D, also when the result is an operand |
| Ghash.TimesXInPlace | psi/src/psi/tools/crypt/aes_gcm.cpp:89-93 | shift and conditional addition of 0xe1 multiply by x modulo the field polynomial |
| Ghash.RightShiftBlock | psi/src/psi/tools/crypt/aes_gcm.cpp:30-36 | the octets move right by one bit as one string of 128 bits |
| Polynomials.MulIsRemainder | psi/src/psi/tools/crypt/aes_gcm.cpp:76-98 | shift-and-reduce equals the remainder of the polynomial product (a convolution) modulo x^128 + x^7 + x^2 + x + 1 |
| Polynomials.MulCommutes | psi/src/psi/tools/crypt/aes_gcm.cpp:76-98 | the product is commutative |
| Polynomials.MulDistributes | psi/src/psi/tools/crypt/aes_gcm.cpp:76-98 | the product distributes over addition on both sides |
| Polynomials.MulAssociates | psi/src/psi/tools/crypt/aes_gcm.cpp:76-98 | the product is associative |
| Ghash.GhashBlock | psi/src/psi/tools/crypt/aes_gcm.cpp:107-126 | the running hash becomes the chain over the blocks of the data, the last one padded with zeros |
| Ghash.ChainIsPowerSum | psi/src/psi/tools/crypt/aes_gcm.cpp:100-106 | chaining equals the polynomial sum of X_i times H^(n - i + 1) |
| Gcm.GhashAll | psi/src/psi/tools/crypt/aes_gcm.cpp:128-150 | hash of associated data, ciphertext and the code's length block, also when the result is the hash key |
| Gcm.LengthBlockStandard | psi/src/psi/tools/crypt/aes_gcm.cpp:137-147 | the stored length block is the standard's exactly when both strings are shorter than 2^29 octets |
| Gcm.LowWordValue | psi/src/psi/tools/crypt/aes_gcm.cpp:137-147 | the four stored octets are the lowest 32 bits of the number, the highest octet first |
| Gcm.StandardLengths | psi/src/psi/tools/crypt/aes_gcm.cpp:137-147 | the two halves of the standard's length block are eight times the sizes of the associated data and of the text |
| Gcm.OneBlockOfEach | psi/src/psi/tools/crypt/aes_gcm.cpp:128-150 | for one block on each side the hash takes the associated data first, then the ciphertext, then the lengths |
| Gcm.GhashStandard | psi/src/psi/tools/crypt/aes_gcm.cpp:128-150 | below 2^29 octets on both sides the hash is GHASH of section 6.4 over the standard's length block |
| Counter.Incr | psi/src/psi/tools/crypt/aes_gcm.cpp:52-59 | the loop over octets from the last one on is the increment of the 128-bit block |
| Counter.IncrementedValue | psi/src/psi/tools/crypt/aes_gcm.cpp:52-59 | the increment is plus one modulo 2^128, and modulo 2^(8n) on any n last octets taken alone |
| Counter.CountersDiffer | psi/src/psi/tools/crypt/aes_gcm.cpp:175-191 | the counters of a run are pairwise different |
| Counter.IncrIsInc32 | psi/src/psi/tools/crypt/aes_gcm.cpp:52-59 | the increment equals inc32 of section 6.2 exactly when the low word is not all ones |
| Counter.CountersAgree | psi/src/psi/tools/crypt/aes_gcm.cpp:52-59 | a run of n increments agrees with inc32 throughout exactly when the low word does not wrap |
| Gcm.MakeCounter | psi/src/psi/tools/crypt/aes_gcm.cpp:160-168 | the first counter: twelve octets from the read cursor and the number one, or the hash of the vector |
| Gcm.CryptAll | psi/src/psi/tools/crypt/aes_gcm.cpp:175-199 | the counter loop with its partial last turn writes the key stream added to the octets read, wherever the read cursor begins, and nothing behind them; where too few octets are left, zeros stand for a group that could not be read and the cursor stays |
| Gcm.SeenInside | psi/src/psi/tools/crypt/aes_gcm.cpp:182-196 | when enough octets lie behind the read cursor, what the loop sees is those octets |
| Gcm.Encrypt | psi/src/psi/tools/crypt/aes_gcm.cpp:152-212 | ciphertext, tag and cursors for every key, vector, cursor position and length, with the unused rest of the result zero; with both cursors at the start, and inside the bounds of Gcm.EncryptionIsStandard, ciphertext and tag are those of section 7.1 of SP 800-38D |
| Gcm.Decrypt | psi/src/psi/tools/crypt/aes_gcm.cpp:220-290 | the plaintext is given exactly when the tag buffer is empty or equals the recomputed tag; otherwise the result is empty; with both cursors at the start, a tag, and inside the same bounds, that is section 7.2 |
| Gcm.EncryptThenDecrypt | psi/src/psi/tools/crypt/aes_gcm.cpp:152-290 | encrypt, then decrypt with the tag that came out and the vector read from its start again: for every key, vector, associated data and plaintext of any length, the tag is accepted and the written octets of the result are the plaintext |
| GcmExample.TestCase2 | psi/tests/crypt/aes_gcm_Tests.cpp:63-77 | sixteen zero octets under a key and a vector of zeros give the ciphertext 0388dace...fe78 and the tag ab6e47d4...bddf, in the code's form and in the standard's |
| GcmExample.Product1 | psi/tests/crypt/aes_gcm_Tests.cpp:24-27 | the product of the ciphertext block and the hash key of that case, bit by bit |
| GcmExample.Product2 | psi/tests/crypt/aes_gcm_Tests.cpp:29-32 | the product of that product plus the length block, and the hash key |
| Gcm.StreamTwice | psi/src/psi/tools/crypt/aes_gcm.cpp:184-186 | the key stream added twice gives the octets back |
| Gcm.EncryptionIsStandard | psi/src/psi/tools/crypt/aes_gcm.cpp:152-212 | for vectors of any length, with fewer than 2^29 octets in each string and room in the low word of J0 for all blocks, the result is GCM-AE of section 7.1, with inc32 and 64-bit lengths |
| Gcm.VectorsOf96Bits | psi/src/psi/tools/crypt/aes_gcm.cpp:162-166 | a 96-bit vector is always inside those bounds when the text and the associated data are below 2^29 octets |
| Gcm.FirstCounterIsStandard | psi/src/psi/tools/crypt/aes_gcm.cpp:160-168 | the first counter is J0 of section 7.1, also for a hashed vector |
| Gcm.DecryptionIsStandard | psi/src/psi/tools/crypt/aes_gcm.cpp:220-290 | inside the same bounds decryption is GCM-AD of section 7.2 if and only if the tag buffer is not empty: an empty one skips the comparison |
| Gcm.StreamStandard | psi/src/psi/tools/crypt/aes_gcm.cpp:175-199 | the ciphertext is GCTR of section 6.5 with inc32 as long as the low word of the first counter leaves room for all blocks |
| Gcm.SpentVector | psi/src/psi/tools/crypt/aes_gcm.cpp:160-168 | a vector whose read cursor is already behind its twelve octets gives another first counter, so a second call with the same vector buffer agrees with the first exactly for a vector of zeros |
| AesBuffers.RoundTrip | psi/src/psi/tools/crypt/aes.hpp:55-154 | decryption of encryption gives every string of octets back, of any length, for every schedule of at least two round keys |
| AesBuffers.EncryptAes | psi/src/psi/tools/crypt/aes.hpp:55-99 | whole groups, then a padded partial group with its length behind it; a key of another size gives an empty buffer |
| AesBuffers.DecryptAes | psi/src/psi/tools/crypt/aes.hpp:108-154 | the inverse on every input for which the code stays inside its buffers |
| AesBuffers.GroupsRoundTrip | psi/src/psi/tools/crypt/aes.hpp:71-83 | groups decrypted after being encrypted, whatever follows them |
| AesBuffers.PartialShape | psi/src/psi/tools/crypt/aes.hpp:85-96 | a partial group becomes seventeen octets whose last one is the length |
| Aes.OctetsRoundTrip | psi/src/psi/tools/crypt/aes.hpp:71-83 | one block through both ciphers, with the change between octet order and columns on both sides |
| AesBuffers.GroupInPlace | psi/src/psi/tools/crypt/aes.hpp:71-83 | every whole group is encrypted where it stands |
| AesExample.RoundByColumns | psi/src/psi/tools/crypt/aes.hpp:28-36 | a round, column by column: the octets that the row shift brings to a column are substituted, mixed, and added to a word of the key |
| AesExample.NextKeyIs | psi/src/psi/tools/crypt/aes.hpp:157-188 | for 128-bit keys a round key comes from the one before it: the last word rotated, substituted and with its constant, then a running sum |
| AesExample.Block1 | psi/src/psi/tools/crypt/aes.hpp:55-99 | under a key of zeros the block 00...01 becomes 58e2fcce...455a |
| AesExample.Block2 | psi/src/psi/tools/crypt/aes.hpp:55-99 | the block 00...02 becomes 0388dace...fe78 |
| AesExample.Block3 | psi/src/psi/tools/crypt/aes.hpp:55-99 | the block of zeros becomes 66e94bd4...2b2e |
| AesRounds.StateRoundTrip | psi/src/psi/tools/crypt/aes.hpp:28-46 | the decryption rounds undo the encryption rounds for every schedule |
| AesRounds.RoundsMeet | psi/src/psi/tools/crypt/aes.hpp:28-46 | after each decryption round the state is the encryption state of the matching round before its row shift |
| AesRounds.MixColumnsInverts | psi/src/psi/tools/crypt/aes.hpp:303-359 | the inverse column mixing undoes the column mixing |
| AesTables.MixColumnInverts | psi/src/psi/tools/crypt/aes.hpp:303-359 | the same for one column, from the sixteen sums of products |
| AesTables.ForwardProducts | psi/src/psi/tools/crypt/aes.hpp:190-198 | mul2 and mul3 are products with 2 and 3 in GF(2^8) of section 4.2 of FIPS 197 |
| AesTables.InverseProducts | psi/src/psi/tools/crypt/aes.hpp:200-209 | mul9 and mul11 are products with 9 and 11 |
| AesTables.MoreInverseProducts | psi/src/psi/tools/crypt/aes.hpp:211-222 | mul13 and mul14 are products with 13 and 14 |
| AesTables.BoxesInvert | psi/src/psi/tools/crypt/aes.hpp:224-256 | the inverse box undoes the box on all 256 octets |
| AesTables.SBoxIsInverse | psi/src/psi/tools/crypt/aes.hpp:224-239 | the box is the affine map of section 5.1.1 of FIPS 197 of the inverse in GF(2^8), for all 256 octets |
| Aes.ShiftRowsInPlace | psi/src/psi/tools/crypt/aes.hpp:269-284 | shifts of a row read as a little-endian word, and exchanges, rotate row r by r places |
| Aes.InvShiftRowsInPlace | psi/src/psi/tools/crypt/aes.hpp:286-301 | the opposite rotations |
| Aes.MixColumnsInPlace | psi/src/psi/tools/crypt/aes.hpp:303-327 | every column is replaced by its product with the matrix |
| Aes.InvMixColumnsInPlace | psi/src/psi/tools/crypt/aes.hpp:329-359 | every column is replaced by its product with the inverse matrix |
| Aes.ApplySubKey | psi/src/psi/tools/crypt/aes.hpp:361-368 | the round key, stored by rows of words, is added column by column |
| Aes.DoRoundKeyEncode | psi/src/psi/tools/crypt/aes.hpp:28-36 | one encryption round in place, the last without column mixing |
| Aes.DoRoundKeyDecode | psi/src/psi/tools/crypt/aes.hpp:38-46 | one decryption round in place |
| Aes.WriteBlock | psi/src/psi/tools/crypt/aes.hpp:370-379 | octets enter the state column by column, at most sixteen, and the other entries stay |
| Aes.ReadBlock | psi/src/psi/tools/crypt/aes.hpp:381-390 | octets leave the state column by column, at most sixteen, and nothing else is written |
| AesKeys.GenerateSubKeys | psi/src/psi/tools/crypt/aes.hpp:157-188 | the flat word array gives the round keys of section 5.2 of FIPS 197 for 128- and 256-bit keys |
| AesKeys.ExpandWord | psi/src/psi/tools/crypt/aes.hpp:166-180 | one turn of the loop appends the next word of the schedule |
| AesKeys.RconTable | psi/src/psi/tools/crypt/aes.hpp:258 | the table of round constants holds the powers of x in GF(2^8) |
| AesKeys.RotWordRotates | psi/src/psi/tools/crypt/aes.hpp:392-399 | the word, as a number of 32 bits, is rotated left by eight |
| AesKeys.Word4 | psi/src/psi/tools/crypt/aes.hpp:166-180 | word 4 for the key of appendix A.1 of FIPS 197 is a0fafe17 |
| AesKeys.Words8And12 | psi/src/psi/tools/crypt/aes.hpp:166-180 | words 8 and 12 for the 256-bit key of appendix A.3 are 9ba35411 and a8b09c1a, one for each kind of mixing |
| Words.AddExact | psi/src/psi/tools/BigInteger.cpp:105-135 | add raises the integer by exactly i times 2^(64 index) if and only if no carry meets an all-ones word other than one that is both next and top |
| Words.AddedNumber | psi/src/psi/tools/BigInteger.cpp:105-135 | outside that case the result is too large by the words that the carry loop left full |
| Words.SumExact | psi/src/psi/tools/BigInteger.cpp:47-54 | += is integer addition if and only if no k has an all-ones word k + 1 below the top of a that the carry of the low k + 1 words of a and b goes into; otherwise the result is too large |
| Words.LossIsDecided | psi/src/psi/tools/BigInteger.cpp:47-54 | a word addition meets a full word below the top, in the running sum, exactly when that condition on a and b holds |
| Words.StepAgrees | psi/src/psi/tools/BigInteger.cpp:105-135 | as long as no carry is lost, the running sum overflows at word k exactly when the low k + 1 words of a and b do, and the next word is still that of a |
| Words.SumLosesCarryExample | psi/src/psi/tools/BigInteger.cpp:124-134 | a concrete sum with two full words that the carry loop gets wrong |
| Words.SumTrimmed | psi/src/psi/tools/BigInteger.cpp:47-54 | the sum of numbers without zero top words has no zero top word |
| Words.SubtractedNumber | psi/src/psi/tools/BigInteger.cpp:137-162 | substract is exact subtraction modulo 2^(64 size), and the result is trimmed unless it is zero |
| Words.DifferenceExact | psi/src/psi/tools/BigInteger.cpp:79-86 | -= stays inside its words while it trims, and is subtraction, if and only if a is at least b and b has no zero top word, or a - b reaches the top word of b, or a and b are equal, fit in one word and a has as many words as b |
| Words.DifferenceOfTrimmed | psi/src/psi/tools/BigInteger.cpp:79-86 | for a without a zero top word the last of these cases adds nothing |
| Words.ZeroIsNotTrimmed | psi/src/psi/tools/BigInteger.cpp:154-161 | a zero difference of two words keeps both zero words, and taking that zero off a one-word number indexes outside its words |
| Words.SumThenDifference | psi/src/psi/tools/BigInteger.cpp:47-86 | what was exactly added can be taken off again, and gives the first number back, if and only if b has no zero top word, or a reaches the top word of b, or a is zero and b fits in one word |
| BigIntegers.BigInteger.FromWords | psi/src/psi/tools/BigInteger.cpp:17-28 | zero top words are dropped, the number stays |
| BigIntegers.BigInteger.Add | psi/src/psi/tools/BigInteger.cpp:105-135 | the words after add, growth and the three carry branches included |
| BigIntegers.BigInteger.CarryOn | psi/src/psi/tools/BigInteger.cpp:124-134 | the carry loop, which skips full words below the top |
| BigIntegers.BigInteger.Subtract | psi/src/psi/tools/BigInteger.cpp:137-162 | the words after substract |
| BigIntegers.BigInteger.BorrowOn | psi/src/psi/tools/BigInteger.cpp:143-152 | the borrow loop |
| BigIntegers.BigInteger.TrimTop | psi/src/psi/tools/BigInteger.cpp:154-161 | zero top words are dropped unless all words are zero |
| BigIntegers.BigInteger.PlusAssign | psi/src/psi/tools/BigInteger.cpp:47-54 | one add for each word, also when a number is added to itself |
| BigIntegers.BigInteger.MinusAssign | psi/src/psi/tools/BigInteger.cpp:79-86 | one substract for each word |
| BigIntegers.BigInteger.Plus | psi/src/psi/tools/BigInteger.cpp:30-38 | the sum on a copy |
| BigIntegers.BigInteger.Minus | psi/src/psi/tools/BigInteger.cpp:62-70 | the difference on a copy |
| Sha256.PaddingIsStandard | psi/src/psi/tools/crypt/sha.cpp:36-45 | for messages of fewer than 2^64 bits, the standard's own limit, the padding is that of section 5.1.1 of FIPS 180-4 if and only if the size modulo 64 is at most 55 |
| Sha256.PaddingInjective | psi/src/psi/tools/crypt/sha.cpp:36-45 | no other message has the same padding if and only if the size modulo 64 is at most 56 |
| Sha256.PaddingLengthIsLeast | psi/src/psi/tools/crypt/sha.cpp:38 | the standard's number of zero octets is the smallest that leaves room for the length |
| Sha256.DigestIsStandard | psi/src/psi/tools/crypt/sha.cpp:78-122 | for sizes up to 55 modulo 64 the digest is SHA-256 |
| Sha256.HashValueIsRun | psi/src/psi/tools/crypt/sha.cpp:88-114 | the hash value after n blocks is a run over the blocks from the front, each from the value before it |
| Sha256.ChooseBits | psi/src/psi/tools/crypt/sha.cpp:94 | every bit of the choice is that of the second word where the first has a one, and that of the third elsewhere |
| Sha256.MajorityBits | psi/src/psi/tools/crypt/sha.cpp:97 | every bit of the majority is that of any two words that agree in it |
| ShaExample.Abc | psi/tests/crypt/sha_Tests.cpp:90 | the digest of "abc" is ba7816bf...15ad, with its 64 schedule words and 64 rounds |
| ShaConstants.StartConstants | psi/src/psi/tools/crypt/sha.cpp:24 | the first hash value: the first 32 bits of the fractions of the square roots of the first eight primes |
| ShaConstants.Constants1 | psi/src/psi/tools/crypt/sha.cpp:14-23 | eight round constants, from number 0 on: the first 32 bits of the fractions of the cube roots of their primes |
| ShaConstants.Constants2 | psi/src/psi/tools/crypt/sha.cpp:14-23 | eight round constants, from number 8 on: the first 32 bits of the fractions of the cube roots of their primes |
| ShaConstants.Constants3 | psi/src/psi/tools/crypt/sha.cpp:14-23 | eight round constants, from number 16 on: the first 32 bits of the fractions of the cube roots of their primes |
| ShaConstants.Constants4 | psi/src/psi/tools/crypt/sha.cpp:14-23 | eight round constants, from number 24 on: the first 32 bits of the fractions of the cube roots of their primes |
| ShaConstants.Constants5 | psi/src/psi/tools/crypt/sha.cpp:14-23 | eight round constants, from number 32 on: the first 32 bits of the fractions of the cube roots of their primes |
| ShaConstants.Constants6 | psi/src/psi/tools/crypt/sha.cpp:14-23 | eight round constants, from number 40 on: the first 32 bits of the fractions of the cube roots of their primes |
| ShaConstants.Constants7 | psi/src/psi/tools/crypt/sha.cpp:14-23 | eight round constants, from number 48 on: the first 32 bits of the fractions of the cube roots of their primes |
| ShaConstants.Constants8 | psi/src/psi/tools/crypt/sha.cpp:14-23 | eight round constants, from number 56 on: the first 32 bits of the fractions of the cube roots of their primes |
| Sha.PadMessage | psi/src/psi/tools/crypt/sha.cpp:36-45 | the buffer steps, with a skip that moves the cursor backwards for sizes from 56 on, build exactly that padding |
| Sha.SkipLands | psi/src/psi/tools/crypt/sha.cpp:42 | the wrapped skip always leads to the last eight octets |
| Sha.PrepareMessageSchedule | psi/src/psi/tools/crypt/sha.cpp:47-62 | the 64 words are the message schedule of section 6.2.2 |
| Sha.RotationsAgree | psi/src/psi/tools/crypt/sha.cpp:64-71 | rotation by shifts equals rotation for every amount that the functions use |
| Sha.SigmasAgree | psi/src/psi/tools/crypt/sha.cpp:57-108 | the four functions built from rotations are those of section 4.1.2 |
| Sha.RoundInPlace | psi/src/psi/tools/crypt/sha.cpp:91-107 | moving eight words up by one place is one round of section 6.2.2 |
| Sha.AddInPlace | psi/src/psi/tools/crypt/sha.cpp:110-113 | the working words are added to the hash value and take it over |
| Sha.HashBlocks | psi/src/psi/tools/crypt/sha.cpp:87-114 | the block loop in place is the fold of section 6.2.2 over all blocks |
| Sha.WriteHash | psi/src/psi/tools/crypt/sha.cpp:116-119 | the eight words leave with their highest octet first |
| Sha.Encode256 | psi/src/psi/tools/crypt/sha.cpp:78-122 | the digest of the whole buffer, whatever its cursors |
| Sha256.WordRoundTrip | psi/src/psi/tools/crypt/sha.cpp:50-54 | a word read from four octets is written as the same four octets |
| Hmac.Hmac256 | psi/src/psi/tools/crypt/sha.cpp:124-144 | HMAC of RFC 2104 over the code's digest, of whole buffers, for keys below and above a block |
| Hmac.PadKey | psi/src/psi/tools/crypt/sha.cpp:129-134 | the key block: long keys hashed, short keys padded with zeros |
| Hmac.HmacIsStandard | psi/src/psi/tools/crypt/sha.cpp:124-144 | where every hashed message has a regular size, the result is HMAC-SHA-256 |
| Hmac.KeysAsBlocks | psi/src/psi/tools/crypt/sha.cpp:129-134 | long keys stand for their hash, and short ones for themselves with zeros behind them |
| Hmac.PadsOfZeros | psi/src/psi/tools/crypt/sha.cpp:136-143 | for a key block of zeros the inner text begins with sixty-four 0x36 and the outer one with sixty-four 0x5c |
| Hmac.HkdfExpand | psi/src/psi/tools/crypt/sha.cpp:151-175 | the first octets of T(1) | T(2) | ..., for every info and length; the loop ends and no buffer step fails |
| Hmac.CounterIsBlockNumber | psi/src/psi/tools/crypt/sha.cpp:157-171 | up to 255 blocks every counter octet is the number of its block, as RFC 5869 has it |
| Hmac.Hkdf256 | psi/src/psi/tools/crypt/sha.cpp:177-181 | extract, then expand |
| Hmac.HkdfIsStandard | psi/src/psi/tools/crypt/sha.cpp:177-181 | where every hashed message has a regular size, derived keys are those of RFC 5869 over SHA-256 |
| Hmac.FirstBlocks | psi/src/psi/tools/crypt/sha.cpp:151-175 | the first two blocks: each is made of the one before it, the info and its number |
| ByteBuffers.ByteBuffer.ReadLine | psi/src/psi/tools/ByteBuffer.cpp:383-426 | the next run without delimiters and all delimiters behind it, across the 64-octet cache; the result says whether the read cursor differs from the write cursor |
| ByteBuffers.ByteBuffer.SkipWrite | psi/src/psi/tools/ByteBuffer.cpp:184-194 | a skip whose cursor sum wraps moves the write cursor backwards |
| ByteBuffers.ByteBuffer.ReadToBuffer | psi/src/psi/tools/ByteBuffer.cpp:444-463 | octets move from one cursor to the other, or nothing changes, also inside one buffer |
| ByteBuffers.ByteBuffer.ReadSlice | psi/src/psi/tools/ByteBuffer.cpp:428-442 | a new full buffer of the octets read, or an empty one |
| ByteBuffers.ByteBuffer.Plus | psi/src/psi/tools/ByteBuffer.cpp:126-135 | both whole blocks, one after the other, whatever the cursors; a buffer added to itself leaves zeros in place of the second copy |
| ByteBuffers.PlusConcatenates | psi/src/psi/tools/ByteBuffer.cpp:126-135 | the sum is the concatenation if and only if the two buffers are different ones or the block is all zeros |
| ByteBuffers.ByteBuffer.Clear | psi/src/psi/tools/ByteBuffer.cpp:137-141 | all octets zero, both cursors at the start |
| ByteBuffers.ByteBuffer.Resize | psi/src/psi/tools/ByteBuffer.cpp:159-170 | a new zeroed block |
| ByteBuffers.ByteBuffer.WriteArray | psi/include/psi/tools/ByteBuffer.h:231-244 | the octets at the write cursor, or no change |
| ByteBuffers.ByteBuffer.Write | psi/include/psi/tools/ByteBuffer.h:151-164 | one octet at the write cursor, or no change |
| ByteBuffers.ByteBuffer.Read | psi/include/psi/tools/ByteBuffer.h:188-201 | octets from the read cursor up to the allocated size, or no change |
| TextLines.LinesJoin | psi/src/psi/tools/ByteBuffer.cpp:383-426 | strings whose border no line crosses have their lines one after the other |
| TextLines.LinesKeep | psi/src/psi/tools/ByteBuffer.cpp:383-426 | the lines of a string hold every octet that is no delimiter, in its order, and no delimiter |
| HttpParser.Termination | psi/src/psi/tools/HttpParser.cpp:37-73 | the loop ends, with the state that the lines give, if and only if the buffer is full, or its first line is empty and ends at the write cursor, or a size is out of range |
| HttpParser.NeverEnds | psi/src/psi/tools/HttpParser.cpp:41 | in every other case the loop is still running after any number of turns |
| HttpParser.ParseFragment | psi/src/psi/tools/HttpParser.cpp:37-73 | the loop folds its branches over the lines from the read cursor, out-of-range sizes included |
| HttpParser.FullBuffer | psi/src/psi/tools/HttpParser.cpp:37-73 | on a full buffer the result is what all its nonempty lines give |
| ChunkedCoding.ParseWhole | psi/src/psi/tools/HttpParser.cpp:37-73 | any list of nonempty chunks without delimiters, printed and parsed in one buffer, gives the payload, nothing missing, and true |
| ChunkedCoding.ParseSplit | psi/src/psi/tools/HttpParser.cpp:37-73 | cut anywhere outside a size line and parsed in two calls, it gives the same payload and size, and the last call is true exactly when it sees the last size line |
| ChunkedCoding.SplitAtBorder | psi/src/psi/tools/HttpParser.cpp:37-73 | any octets at all, cut where no line is cut, give the same state in two calls as in one, but for the end flag |
| ChunkedCoding.OpenChunk | psi/src/psi/tools/HttpParser.cpp:64-69 | an open chunk takes any number of lines until its size is reached; then no chunk is open, and the payload has grown by the lines |
| ChunkedCoding.NoSizeLine | psi/src/psi/tools/HttpParser.cpp:46-58 | while no chunk is open, a line that is no size line goes to the data with a line break behind it, and its length is taken off the largest size_t |
| ChunkedCoding.LongLine | psi/src/psi/tools/HttpParser.cpp:64-69 | a line longer than what is missing of the open chunk goes to the data whole; the count wraps, and exactly for one octet too many no chunk seems to be open |
| ChunkedCoding.AnySizeLine | psi/src/psi/tools/HttpParser.cpp:60-62 | every size line opens a chunk of its value, sets the end flag for zero, and is an exception when no size_t holds it |
| ChunkedCoding.LeadingDigit | psi/src/psi/tools/HttpParser.cpp:60 | a digit in front counts for its value times sixteen to the number of digits behind it |
| ChunkedCoding.TextLine | psi/tests/HttpParser_Tests.cpp:185-195 | "tExt" where a size should be gives "tExt" and a line break |
| ChunkedCoding.BreakInFront | psi/tests/HttpParser_Tests.cpp:170-183 | a line break in front of a chunk of nine octets and a last chunk is skipped |
| ChunkedCoding.Hex | psi/src/psi/tools/HttpParser.cpp:60 | every size has a spelling that is read back as that size |
| HttpMessages.ParseChunkedMessage | psi/src/psi/tools/HttpParser.cpp:7-35 | the start line, the map of header fields, the exception that the map can raise, and the chunks behind the empty line |
| HttpMessages.WholeMessage | psi/src/psi/tools/HttpParser.cpp:7-35 | the chunks of a message give their payload if and only if some header field holds an octet that is no delimiter; in every other case the empty line is lost, the chunks are taken for header fields, and no payload is found |
| HttpMessages.ReadFields | psi/src/psi/tools/HttpParser.cpp:19-32 | the header loop: an entry for each line with a colon, up to an empty line or the exception |
| HttpMessages.FieldLine | psi/src/psi/tools/HttpParser.cpp:28-31 | a field that ends with a carriage return never raises the exception, and its whole value is kept |
| HttpMessages.HostLine | psi/src/psi/tools/HttpParser.cpp:28-31 | "Host: a" is the field HOST with the value a |
| HttpMessages.FirstFieldCounts | psi/src/psi/tools/HttpParser.cpp:30 | of several fields of one name, in upper case, the first one is in the map |
| HttpMessages.MetaCollected | psi/src/psi/tools/HttpParser.cpp:19-32 | the map of a whole message holds the entries of its fields when the first one does not begin with a delimiter |
| BitSets.BitSet.Reverse | psi/src/psi/tools/BitSet.cpp:163-194 | for every bit count, bit j becomes the old bit N - 1 - j, whatever the padding holds |
| BitSets.AllDone | psi/src/psi/tools/BitSet.cpp:163-194 | words written with shifts across word borders hold the reversed bits, and padding bits are not looked at |
| BitSets.NextWords | psi/src/psi/tools/BitSet.cpp:172-180 | each reversed word fills the rest of the word before and the beginning of its own |
| BitSets.ReversedTwice | psi/src/psi/tools/BitSet.cpp:163-194 | reversal is an involution on the visible bits |
| BitSets.InvertedReversed | psi/src/psi/tools/BitSet.cpp:138-194 | inverting before or after reversing is the same |
| WordBits.Reverse64 | psi/src/psi/tools/BitSet.cpp:154-161 | bit k of the result is bit 63 - k |
| WordBits.ReversedByte | psi/src/psi/tools/BitSet.cpp:145-152 | bit j of the reversed octet is bit 7 - j |
| BitSets.BitSet.Inverse | psi/src/psi/tools/BitSet.cpp:138-143 | every visible bit is turned over |
| BitSets.BitSet.Set | psi/src/psi/tools/BitSet.cpp:114-126 | one bit changes and no other; numbers outside are ignored |
| BitSets.BitSet.Test | psi/src/psi/tools/BitSet.cpp:128-136 | the bit, and false outside |
| BitSets.BitSet.constructor | psi/src/psi/tools/BitSet.cpp:28-31 | all bits zero |
| BitSets.BitSet.FromOctets | psi/src/psi/tools/BitSet.cpp:54-68 | the bits of the octets, lowest first, with a partial last word |
| BitSets.BitSet.FromText | psi/src/psi/tools/BitSet.cpp:91-107 | one bit a character; a word with another character in it is zero |
| BitSets.BinaryText | psi/src/psi/tools/BitSet.cpp:70-89 | a text of zeros and ones gives every character its bit |
| Utf8.DecodeEncode | psi/src/psi/tools/Tools.cpp:26-87 | decoding undoes encoding if and only if every character is below 2^21 |
| Utf8.EncodeDecode | psi/src/psi/tools/Tools.cpp:26-87 | encoding undoes decoding if and only if the string is made of characters in their shortest form |
| Utf8.Rfc3629IsWellFormed | psi/src/psi/tools/Tools.cpp:63-87 | the strings of section 4 of RFC 3629 are among them |
| Utf8.WstringToUtf8 | psi/src/psi/tools/Tools.cpp:26-45 | the loop appends one to four octets a character |
| Utf8.Utf8ToWstring | psi/src/psi/tools/Tools.cpp:63-87 | the pointer moves by one to four octets a character |
| Utf8.StrayOctet | psi/src/psi/tools/Tools.cpp:82-85 | an octet that fits nowhere leaves a zero character, and encoding does not give it back |
| Utf8.Examples | psi/src/psi/tools/Tools.cpp:26-45 | the first and the last example of section 7 of RFC 3629, with characters of one to four octets |
| Base64.DecodeEncode | psi/src/psi/tools/crypt/base64.cpp:29-164 | decoding undoes encoding for every string of octets |
| Base64.EncodeDecode | psi/src/psi/tools/crypt/base64.cpp:29-164 | encoding undoes decoding if and only if the string is canonical: whole groups, padding only at the end, unused bits zero |
| Base64Codec.EncryptBase64 | psi/src/psi/tools/crypt/base64.cpp:29-82 | the characters of section 4 of RFC 4648; from a read cursor that is not zero the result is empty |
| Base64Codec.DecryptBase64 | psi/src/psi/tools/crypt/base64.cpp:84-164 | the decoded octets in a buffer of the counted size from any read cursor, empty for every refused input, and where both cursors end; no write fails |
| Base64Codec.TakeGroup | psi/src/psi/tools/crypt/base64.cpp:107-160 | four characters through the accumulator, with both padding branches |
| Base64Codec.FullGroup | psi/src/psi/tools/crypt/base64.cpp:113-158 | the octets of a group do not depend on what the accumulator held before |
| Base64.ReadFitsFrom | psi/src/psi/tools/crypt/base64.cpp:92-101 | what is written never exceeds the counted size |
| Base64.SameNumber | psi/src/psi/tools/crypt/base64.cpp:42-46 | three octets and their four groups of six bits are the same number of 24 bits |
| Base64.Alphabet | psi/src/psi/tools/crypt/base64.cpp:29-82 | the alphabet is A to Z, a to z, 0 to 9, + and /, in this order |
| Base64.Examples | psi/src/psi/tools/crypt/base64.cpp:29-82 | "foobar", "fooba" and "foob" of section 10 of RFC 4648 |

## Left out

- Key generation, session keys, time stamps, random numbers and the `Encryptor` facade: they depend on a clock or forward to the functions modelled here.
- Cryptographic strength and timing.
- Agreement.SharedSecret: under two hypotheses that are not proved here. One is Fermat's theorem for 2^255 - 19, which says that this number is prime; the other is that the multiples of a point obey the chord and tangent law, which is the associativity of that law. For a u that belongs to no point of the curve (its twist) nothing is said. The same holds for Agreement.X25519IsMultiple and Agreement.Exchange.
- Agreement.X25519IsMultiple: under the same hypotheses; a u-coordinate that is no unit modulo p is the case of Agreement.X25519OfZero.
- The Windows branches of the UTF-8 functions: calls into the system.
- `skipToHttpData`, `asHash`, hex strings, printing, comparison and simple getters: easy members.
- Ownership, destructors, and the sharing of one implementation by copies of a `BitSet`.
- Read-only pointer arguments are sequences of values, so a call whose output overlaps such an input is not covered; arrays that the code updates in place are arrays, and may be the same object where the contract says so.
- Shifts by a variable amount on bit sets are repeated single shifts, and 64-bit masks on limbs are defined bit by bit.
- TwosComplement.Swap: not for the smallest int64, where subtracting one overflows, and only for two different arrays.
- Gcm.Encrypt: data and vector are distinct buffers, because their read cursors are moved one after the other; the same holds for Gcm.Decrypt.
- ByteBuffers.ByteBuffer.Read: only for counts whose cursor sum stays below 2^64; a sum that wraps passes the code's test and makes it copy outside the block.
- ByteBuffers.ByteBuffer.ReadSlice: not for counts whose cursor sum wraps; they pass the code's test too, and ask for more octets than can be allocated.
- ByteBuffers.ByteBuffer.ReadToBuffer: not for counts whose cursor sum wraps; and inside one buffer only for stretches that do not overlap, as memcpy demands.
- ByteBuffers.ByteBuffer.WriteArray: not for counts whose cursor sum wraps.
- `isxdigit` is that of the C locale: octets from 128 on are no digits.
- AesBuffers.DecryptAes: only for inputs on which the code stays inside its buffers; on others it reads or writes outside them and the language gives no meaning.
- BigIntegers.BigInteger.FromWords: only for a nonempty vector, since an empty one makes the code copy past its end.
- BigIntegers.BigInteger.MinusAssign: only when every word index is inside the number at its turn; otherwise the code indexes outside its words.
- HttpParser.ParseFragment: only when the loop ends, which HttpParser.Termination decides.
- Hmac.HkdfExpand: above 255 blocks the counter octet repeats, as in the code; RFC 5869 does not allow such lengths.
- Hmac.HkdfIsStandard: one direction only, because equality of digests of different paddings cannot be excluded.
