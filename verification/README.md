# NoxTLS in Dafny

A model of the parts of NoxTLS whose correctness is arithmetic, protocol state or grammar, with proofs about every
input, run or reachable state. `dafny verify dfyconfig.toml` checks all of it.

- **Multi-limb integers** (`Words`, `Bits`, `Arith`, `Limbs`, `LimbOps`, `Knuth`, `BigUints`, `BigShifts`,
  `BigDivision`). A number is the sum of limb i times 2^(32 i). Every loop over limbs is proved against the operation
  on numbers it stands for, with each u64 and i64 intermediate in its type: Knuth's Algorithm D, bitwise reduction,
  shift-subtract division, square-and-multiply and extended Euclid with wrapped subtraction.
- **Lattice rings** (`Sums`, `Negacyclic`, `Weights`, then `MlKem*` and `MlDsa*`). Multiplication modulo x^256 + 1 is
  a commutative ring product, proved through antiperiodic extension. On it rest two end-to-end results. ML-KEM
  decapsulation recovers the message, re-encrypts to the ciphertext and derives the shared secret if and only if each
  coefficient of the noise stays in a stated window; for keys with few negative secret coefficients that noise is the
  one of key, encryption and rounding alone. ML-DSA signing never rejects, whatever the private key bytes, its
  signatures verify under the matching key, and A*z - c*t = w - c*s2 holds in every row. `MlKemTranscript`,
  `MlDsaTranscript` and `MlDsaOpening` say what is hashed, byte for byte, including what a refused ciphertext gives, and
  what two messages accepted under one signature would exhibit.
- **Certificate path search** (`Certificates`, `PathPolicy`, `PathSearch`, `PathTheorems`, `PathMeaning`,
  `PathConditions`). The recursive method with its cloned mutable state is proved to find the first path, in list order,
  of a declarative path relation, to panic when a certificate with unreadable times comes first, and to fail exactly when
  there is neither. Being a path is then stated in the fields of the certificates alone, with skip counters and policies
  in closed form (`PathConditions.PathIff`).
- **DTLS** (`DtlsReplay`, `DtlsRecords`, `DtlsFragments`, `DtlsRetransmit`, `DtlsRetransmitLiveness`). Replay safety,
  reassembly of arbitrary inputs, and exactly when the retransmit tracker sends, keeps and drops, over whole runs.
- **DER and certificates** (`Bytes`, `Der`, `Ecdsa`, `CertificateDer`, `CertificateExtensions`, `CertificateLayout`).
  Strict parsers and writers that invert each other, and the grammar of what is accepted, both ways.
- **Buffered hashing and codecs** (`Lists`, `Sha2`, `Sponge`, `BcryptPbkdf`, `Tickets`, `TicketGrammar`, `Base64`, `Pem`,
  `PemGrammar`). Any split of the input, any bytes, any text.

Functions say what an operation computes, methods are the source's loops and updates proved equal to those functions,
and lemmas relate the functions to each other.

## Where the code differs from what one might expect

Each of these is a proved statement, not an assumption.

- `mod_exp` returns 1 for exponent 0 and modulus 1; everywhere else it is the power modulo the modulus
  (`BigDivision.ModExp`).
- In `mod_2n_by_n_limb` the correction loop and the last subtraction never run; the model keeps their guards and proves
  them false. The add-back carry goes into a limb that is not read again.
- ML-KEM products accumulate in i32, and in a release build they can wrap. A coefficient is right exactly when its exact
  value fits (`MlKemPoly.MulExactIff`), and there are key and ciphertext bytes for which it does not
  (`MlKemOverflow.ProductCanWrap`, `DecapsulationCanWrap`). The noise of `MlKemAgreement` therefore has a term for what
  wrapping loses. It vanishes when the products fit (`NothingLost`), as they do for every ciphertext when each
  polynomial of the secret has at most 193 negative coefficients of 256 (`FewNegativesFit`, `AgreementForKey`).
- The ML-DSA challenge loop reads the same 65 stream positions again and again. It ends exactly when they hold 49
  distinct indices (`MlDsaChallenge.TerminatesIff`), which some streams do not (`ConstantStreamNeverEnds`); signing is
  stated for the case that it ends.
- The twelve-bit signature encoding keeps only small coefficients (`MlDsaCodec.LosslessIff`, `LargeCoefficientLost`);
  verification never depends on the decoded vector (`MlDsaCorrectness.AcceptsIff`).
- `canonical_time` slices a 13-byte string ending in Z after its second byte, and panics when that byte lies inside a
  character: exactly when byte 2 is in 0x80..0xBF (`Certificates.CanonicalTimeIs`, `AccentedTimePanics`). Certificate
  times and the given instant may be such strings, so `PathTheorems.ValidationIff` has the panic as an outcome.
- A self-issued certificate ends a path by sharing its name with an anchor, without a signature check
  (`PathTheorems.SelfIssuedLeafUnsigned`, `SelfIssuedLeafIff`, `UnsignedLeafAccepted`).
- `open_dtls13_aes128gcm_record` marks the number before it decrypts (`DtlsRecords.OpenRecord`), so a record that does
  not decrypt still spends its number and a later one with that number is refused (`FirstPacketSpendsNumber`).
- `parse_der_positive_integer_u32` drops the top byte of a five-byte body that does not start with zero
  (`CertificateDer.SmallIntegerExactIff`, `TopByteDropped`).
- `decode_base64` accepts nonzero dropped bits (`Base64.CanonicalIff`, `TwoSpellings`).
- `parse_pem_marker_label` is documented not to panic, but slices out of range on a trimmed line of five to nine dashes
  (`Pem.MarkerPanicsIff`), and `pem_to_der_blocks` with it (`BlocksPanicIff`).

Arithmetic is that of a release build: `Wrap32` in `MlKemPoly` and the last borrow of `BigUints.Sub` wrap where a debug
build would stop. A panic that a release build has is an error value of the model: `SliceInsideCharacter` for times,
`SliceOutOfRange` for PEM.

## Parameters

Hash functions, the SHA-2 compression function, the Keccak permutation, Blowfish-based hashing, AES-GCM, the matrix
sampler of ML-KEM, the per-link certificate signature check and UTF-8 validity are function parameters. Results that
need one of them to behave say so in a `requires` (a cipher that opens what it seals, ASCII being valid UTF-8). Random
seeds and clocks are arguments.

## Model

| member | source | states |
|---|---|---|
| `Limbs.CanonicalUnique` | crates/noxtls-crypto/src/pkc/primitive/bignum.rs:177-187 | a limb list without a zero top limb is determined by its value, so equality of lists is equality of numbers |
| `BigUints.FromLimbs` | crates/noxtls-crypto/src/pkc/primitive/bignum.rs:535-540 | dropping top zero limbs keeps the value and leaves the one canonical form |
| `BigUints.Cmp` | crates/noxtls-crypto/src/pkc/primitive/bignum.rs:177-187 | the ordering of the values, and Equal exactly on equal lists |
| `BigUints.Add` | crates/noxtls-crypto/src/pkc/primitive/bignum.rs:198-213 | the exact sum, for any operands |
| `BigUints.Sub` | crates/noxtls-crypto/src/pkc/primitive/bignum.rs:224-241 | the difference modulo the width of the minuend, which is the exact difference whenever the minuend is at least the subtrahend |
| `BigUints.Multiply` | crates/noxtls-crypto/src/pkc/primitive/bignum.rs:252-274 | the exact product; every u64 intermediate of the schoolbook loops is in range |
| `BigUints.MultiplyRow` | crates/noxtls-crypto/src/pkc/primitive/bignum.rs:252-274 | one row adds x*b shifted by i limbs and its carry never leaves the buffer |
| `BigShifts.Shr1` | crates/noxtls-crypto/src/pkc/primitive/bignum.rs:284-295 | the value halved, rounded down |
| `BigShifts.ShlBits` | crates/noxtls-crypto/src/pkc/primitive/bignum.rs:306-321 | the value times 2^bits for every bit count, word shifts included |
| `BigShifts.BitLength` | crates/noxtls-crypto/src/pkc/primitive/bignum.rs:414-420 | the unique n with 2^(n-1) <= value < 2^n, zero for zero |
| `BigShifts.FromBeBytes` | crates/noxtls-crypto/src/pkc/primitive/bignum.rs:76-81 | the number the bytes spell, leading zeros allowed |
| `BigShifts.BeValDigit` | crates/noxtls-crypto/src/pkc/primitive/bignum.rs:76-81 | byte i weighs 256 to the number of bytes after it |
| `BigShifts.ToBeBytes` | crates/noxtls-crypto/src/pkc/primitive/bignum.rs:91-104 | bytes that spell the value with no leading zero, one zero byte for zero |
| `BigShifts.ToBeBytesPadded` | crates/noxtls-crypto/src/pkc/primitive/bignum.rs:114-124 | succeeds exactly when 0 < len and the value fits, then spells the value in exactly len bytes |
| `LimbOps.ModuloSmallU32` | crates/noxtls-crypto/src/pkc/primitive/bignum.rs:603-612 | the remainder by a one-limb modulus, zero for modulus zero |
| `LimbOps.LimbsLshift1` | crates/noxtls-crypto/src/pkc/primitive/bignum.rs:627-634 | in place, twice the value modulo the width of the buffer |
| `LimbOps.LimbsShlBits` | crates/noxtls-crypto/src/pkc/primitive/bignum.rs:792-802 | in place, the value times 2^k modulo the width for 0 < k < 32, unchanged otherwise |
| `LimbOps.LimbsShrBits` | crates/noxtls-crypto/src/pkc/primitive/bignum.rs:818-828 | in place, the prefix divided by 2^k for 0 < k < 32, everything above the prefix untouched |
| `LimbOps.GeLimbsPrefix` | crates/noxtls-crypto/src/pkc/primitive/bignum.rs:651-658 | limbwise comparison decides the comparison of the values |
| `LimbOps.SubLimbsPrefix` | crates/noxtls-crypto/src/pkc/primitive/bignum.rs:675-688 | the difference modulo the width, limbs above the prefix untouched |
| `LimbOps.SubLimbsBorrowPrefix` | crates/noxtls-crypto/src/pkc/primitive/bignum.rs:912-926 | the difference modulo the width, and the borrow exactly when the subtrahend is larger |
| `LimbOps.LimbMulSub` | crates/noxtls-crypto/src/pkc/primitive/bignum.rs:846-867 | window minus q times modulus plus the borrowed power of the base: value conserved, neighbours untouched, no u64 or i64 overflow |
| `LimbOps.LimbAddAt` | crates/noxtls-crypto/src/pkc/primitive/bignum.rs:884-895 | window plus modulus with a carry of at most one out of the window, neighbours untouched |
| `Knuth.Rejected` | crates/noxtls-crypto/src/pkc/primitive/bignum.rs:730-741 | a quotient estimate that fails the three-limb test is too large, and the next estimate keeps the invariant |
| `Knuth.Accepted` | crates/noxtls-crypto/src/pkc/primitive/bignum.rs:730-741 | an estimate that passes the test is at most one too large |
| `Knuth.EstimateDigit` | crates/noxtls-crypto/src/pkc/primitive/bignum.rs:724-742 | the digit is never too small and at most one too large, for any window below base times divisor |
| `Knuth.AddBack` | crates/noxtls-crypto/src/pkc/primitive/bignum.rs:744-752 | after subtract and at most one add-back the window is exactly the remainder, whatever the estimate was |
| `Knuth.ReduceWindow` | crates/noxtls-crypto/src/pkc/primitive/bignum.rs:723-764 | one step replaces a window by its remainder and leaves the limbs below; the correction loop never runs |
| `Knuth.DigitLoop` | crates/noxtls-crypto/src/pkc/primitive/bignum.rs:722-764 | after the last step the low limbs hold the remainder of the whole buffer |
| `Knuth.Mod2nByNLimb` | crates/noxtls-crypto/src/pkc/primitive/bignum.rs:704-776 | for every dividend of 2n limbs and divisor of n >= 2 limbs with nonzero top, exactly the remainder; refuses exactly the other shapes |
| `BigDivision.BitwiseRemainder` | crates/noxtls-crypto/src/pkc/primitive/bignum.rs:357-376 | folding in one bit at a time gives the remainder of the number the bytes spell |
| `BigDivision.Modulo` | crates/noxtls-crypto/src/pkc/primitive/bignum.rs:332-377 | all three paths agree with the mathematical remainder; zero for modulus zero |
| `BigDivision.DivRem` | crates/noxtls-crypto/src/pkc/primitive/bignum.rs:456-475 | the unique quotient and remainder; quotient zero and remainder unchanged for divisor zero |
| `BigDivision.ModMul` | crates/noxtls-crypto/src/pkc/primitive/bignum.rs:558-560 | the product reduced |
| `BigDivision.SquareMultiply` | crates/noxtls-crypto/src/pkc/primitive/bignum.rs:396-402 | one turn of square-and-multiply keeps result * base^exponent modulo m |
| `BigDivision.ModExp` | crates/noxtls-crypto/src/pkc/primitive/bignum.rs:389-404 | base^exp mod modulus for every nonzero modulus if and only if not (modulus 1 and exponent 0), where the code returns 1; zero for modulus zero |
| `BigDivision.ModPowerIs` | crates/noxtls-crypto/src/pkc/primitive/bignum.rs:389-404 | the value ModExp returns is the power exactly outside modulus 1 with exponent 0 |
| `BigDivision.Gcd` | crates/noxtls-crypto/src/pkc/primitive/bignum.rs:486-495 | a common divisor that every common divisor divides; zero only for two zeros |
| `BigDivision.InverseStep` | crates/noxtls-crypto/src/pkc/primitive/bignum.rs:514-526 | t*a = r (mod m) survives one extended-Euclid step with its wrapped subtraction |
| `BigDivision.ModInverse` | crates/noxtls-crypto/src/pkc/primitive/bignum.rs:506-531 | Some(x) exactly when a and m have no common divisor but 1, and then a*x = 1 (mod m) with x < m; None for m = 0 |
| `Negacyclic.ConvCommutes` | crates/noxtls-crypto/src/pkc/primitive/mlkem.rs:882-900 | the product modulo x^256 + 1 is commutative |
| `Negacyclic.ConvAssociates` | crates/noxtls-crypto/src/pkc/primitive/mlkem.rs:882-900 | and associative, proved through antiperiodic extension and exchange of double sums |
| `Negacyclic.ConvAdds` | crates/noxtls-crypto/src/pkc/primitive/mlkem.rs:882-900 | and distributes over addition on both sides |
| `Negacyclic.ConvCong` | crates/noxtls-crypto/src/pkc/primitive/mlkem.rs:882-900 | and respects congruence of coefficients modulo any m |
| `Negacyclic.ConvBound` | crates/noxtls-crypto/src/pkc/primitive/mlkem.rs:882-900 | a coefficient of a product is at most 256 times the product of the coefficient bounds |
| `Negacyclic.MonomialProducts` | crates/noxtls-crypto/src/pkc/primitive/mlkem.rs:884-894 | x^i * x^j = x^(i+j) with x^256 = -1, which with distributivity fixes every product |
| `Negacyclic.PartStep` | crates/noxtls-crypto/src/pkc/primitive/mlkem.rs:884-894 | one turn of the double loop adds its signed term to the one coefficient it belongs to |
| `MlKemPoly.BarrettReduce` | crates/noxtls-crypto/src/pkc/primitive/mlkem.rs:1013-1019 | truncated remainder brought up to [0, 3329): the residue class of any i32 |
| `MlKemPoly.PolyMul` | crates/noxtls-crypto/src/pkc/primitive/mlkem.rs:882-900 | the wrapping i32 double loop computes each product coefficient wrapped to 32 bits and reduced |
| `MlKemPoly.MulExactIff` | crates/noxtls-crypto/src/pkc/primitive/mlkem.rs:883-894 | a product coefficient is right if and only if its exact value fits i32 |
| `MlKemPoly.SmallFits` | crates/noxtls-crypto/src/pkc/primitive/mlkem.rs:883-894 | a canonical polynomial times a noise polynomial never overflows |
| `MlKemOverflow.DecompressedAtMost` | crates/noxtls-crypto/src/pkc/primitive/mlkem.rs:1294-1319 | no ciphertext bytes decompress to more than 3326 |
| `MlKemOverflow.ProductCanWrap` | crates/noxtls-crypto/src/pkc/primitive/mlkem.rs:883-894 | a secret of all 3328 and a ciphertext polynomial of all 3326, both decoded from bytes, overflow the accumulator, and coefficient 255 comes out wrong |
| `MlKemOverflow.DecapsulationCanWrap` | crates/noxtls-crypto/src/pkc/primitive/mlkem.rs:284-311 | so there are a private key and a ciphertext of the right lengths whose product in decapsulation overflows |
| `MlKemOverflow.FewNegativesFit` | crates/noxtls-crypto/src/pkc/primitive/mlkem.rs:883-894 | a noise polynomial with at most 193 negative coefficients, reduced, overflows against no ciphertext bytes |
| `MlKemPoly.AddPolyInplace` | crates/noxtls-crypto/src/pkc/primitive/mlkem.rs:916-920 | in place, the coefficientwise sum reduced |
| `MlKemPoly.SubPolyInplace` | crates/noxtls-crypto/src/pkc/primitive/mlkem.rs:936-940 | in place, the coefficientwise difference reduced |
| `MlKemPoly.NormalizePoly` | crates/noxtls-crypto/src/pkc/primitive/mlkem.rs:975-979 | in place, every coefficient reduced |
| `BitPacking.Packing12` | crates/noxtls-crypto/src/pkc/primitive/mlkem.rs:1034-1082 | 256 twelve-bit fields come back from their 384 bytes |
| `BitPacking.Packing10` | crates/noxtls-crypto/src/pkc/primitive/mlkem.rs:1258-1319 | 256 ten-bit fields come back from their 320 bytes |
| `BitPacking.Packed12Number` | crates/noxtls-crypto/src/pkc/primitive/mlkem.rs:1034-1082 | the packed bytes, low first, spell the number the fields spell in base 4096 |
| `BitPacking.Packed10Number` | crates/noxtls-crypto/src/pkc/primitive/mlkem.rs:1258-1319 | and in base 1024 |
| `MlKemCodec.BytesRoundTrip` | crates/noxtls-crypto/src/pkc/primitive/mlkem.rs:1034-1082 | decoding an encoded polynomial gives its coefficients modulo 3329 |
| `MlKemCodec.PolyToBytes` | crates/noxtls-crypto/src/pkc/primitive/mlkem.rs:1034-1046 | the chunk loop writes exactly the packing that BytesRoundTrip inverts |
| `MlKemCodec.PolyFromBytes` | crates/noxtls-crypto/src/pkc/primitive/mlkem.rs:1065-1082 | the loop reads exactly the unpacking that BytesRoundTrip inverts, canonical for any bytes |
| `MlKemCodec.CompressionError10` | crates/noxtls-crypto/src/pkc/primitive/mlkem.rs:1258-1319 | rounding to ten bits and back moves a coefficient by at most 2 modulo 3329 |
| `MlKemCodec.CompressionError4` | crates/noxtls-crypto/src/pkc/primitive/mlkem.rs:1202-1243 | rounding to four bits and back moves a coefficient by at most 104 modulo 3329 |
| `MlKemCodec.NearestStep` | crates/noxtls-crypto/src/pkc/primitive/mlkem.rs:1202-1319 | compression takes the nearest step, and the step past the last to zero |
| `MlKemCodec.NearestCoefficient` | crates/noxtls-crypto/src/pkc/primitive/mlkem.rs:1202-1319 | decompression takes the nearest coefficient, upward on a tie |
| `MlKemCodec.Bytes4At` | crates/noxtls-crypto/src/pkc/primitive/mlkem.rs:1202-1212 | two four-bit steps a byte, the even coefficient low |
| `MlKemCodec.RoundTrip10` | crates/noxtls-crypto/src/pkc/primitive/mlkem.rs:1258-1319 | through the bytes a coefficient becomes exactly its ten-bit rounding |
| `MlKemCodec.RoundTrip4` | crates/noxtls-crypto/src/pkc/primitive/mlkem.rs:1202-1243 | through the bytes a coefficient becomes exactly its four-bit rounding |
| `MlKemCodec.PolyCompress10` | crates/noxtls-crypto/src/pkc/primitive/mlkem.rs:1258-1275 | the chunk loop writes the packed ten-bit roundings that RoundTrip10 reads back |
| `MlKemCodec.PolyDecompress10` | crates/noxtls-crypto/src/pkc/primitive/mlkem.rs:1294-1319 | the loop reads what RoundTrip10 states, canonical for any bytes |
| `MlKemCodec.PolyCompressV` | crates/noxtls-crypto/src/pkc/primitive/mlkem.rs:1202-1212 | the loop writes the packed four-bit roundings that RoundTrip4 reads back |
| `MlKemCodec.PolyDecompressV` | crates/noxtls-crypto/src/pkc/primitive/mlkem.rs:1231-1243 | the loop reads what RoundTrip4 states, canonical for any bytes |
| `MlKem.SampleErrorPoly` | crates/noxtls-crypto/src/pkc/primitive/mlkem.rs:792-814 | nibble by nibble, coefficients in [-2, 2] as the stream dictates |
| `MlKem.VecDot` | crates/noxtls-crypto/src/pkc/primitive/mlkem.rs:858-866 | the running reduced sum of products |
| `MlKem.MatVecRowPlus` | crates/noxtls-crypto/src/pkc/primitive/mlkem.rs:830-842 | one matrix row times a vector plus noise, normalised |
| `MlKem.MessageToPoly` | crates/noxtls-crypto/src/pkc/primitive/mlkem.rs:1334-1341 | each bit becomes 1664 or 0 |
| `MlKem.DecodeBit` | crates/noxtls-crypto/src/pkc/primitive/mlkem.rs:1356-1364 | a coefficient decodes to 1 exactly in [833, 2496] |
| `MlKem.PolyToMessage` | crates/noxtls-crypto/src/pkc/primitive/mlkem.rs:1356-1364 | the bytes whose bits are the decoded coefficients |
| `MlKem.DecodedIff` | crates/noxtls-crypto/src/pkc/primitive/mlkem.rs:1356-1364 | the decoded message is m if and only if each coefficient decodes to its bit of m |
| `MlKem.NoiseWindow` | crates/noxtls-crypto/src/pkc/primitive/mlkem.rs:1334-1364 | a message bit survives noise if and only if the centred noise lies in [-832 + bit, 832] |
| `MlKem.CtEqMask` | crates/noxtls-crypto/src/pkc/primitive/mlkem.rs:632-643 | 0xFF exactly on equal byte strings, else 0x00 |
| `MlKem.Select32` | crates/noxtls-crypto/src/pkc/primitive/mlkem.rs:660-666 | the first operand under mask 0xFF, the second under 0x00 |
| `MlKemScheme.VecRoundTrip` | crates/noxtls-crypto/src/pkc/primitive/mlkem.rs:1097-1135 | an encoded vector decodes to its reduction |
| `MlKemScheme.MlkemGenerateKeypair` | crates/noxtls-crypto/src/pkc/primitive/mlkem.rs:215-250 | from any seed, both key encodings with t = A*s + e |
| `MlKemScheme.EncapsulateFromMessage` | crates/noxtls-crypto/src/pkc/primitive/mlkem.rs:332-357 | the ciphertext of a message under given coins |
| `MlKemScheme.MlkemEncapsulate` | crates/noxtls-crypto/src/pkc/primitive/mlkem.rs:260-274 | ciphertext and secret for a message |
| `MlKemScheme.MlkemDecapsulate` | crates/noxtls-crypto/src/pkc/primitive/mlkem.rs:284-311 | the secret, by re-encryption, mask and selection; refuses exactly wrong lengths |
| `MlKemTranscript.DecapsulationIs` | crates/noxtls-crypto/src/pkc/primitive/mlkem.rs:284-311 | for every key and ciphertext, in the hash functions alone: no secret exactly for a wrong length; the secret of the key part of G when re-encryption gives the ciphertext back; otherwise that of J over z and the hash of the ciphertext |
| `MlKemTranscript.RefusalIs` | crates/noxtls-crypto/src/pkc/primitive/mlkem.rs:284-311 | a refused ciphertext gives a secret that depends on z and the ciphertext alone |
| `MlKemTranscript.RefusedAlike` | crates/noxtls-crypto/src/pkc/primitive/mlkem.rs:284-311 | two private keys with one z answer alike whatever both refuse |
| `MlKemTranscript.RecoveredAt` | crates/noxtls-crypto/src/pkc/primitive/mlkem.rs:284-311 | each bit of the message decapsulation reads, for any key and ciphertext whose products fit i32 |
| `MlKemTranscript.EncapsulationIs` | crates/noxtls-crypto/src/pkc/primitive/mlkem.rs:260-274 | encryption under the coins of G over message and key hash, and the secret of its key part |
| `MlKemTranscript.SecretBinds` | crates/noxtls-crypto/src/pkc/primitive/mlkem.rs:399-407 | one secret from two pairs of key part and ciphertext exhibits a hash collision |
| `MlKemTranscript.CipherUAt` | crates/noxtls-crypto/src/pkc/primitive/mlkem.rs:332-357 | u, coefficient by coefficient: a column of the matrix times r plus e1, modulo 3329 |
| `MlKemTranscript.CipherVAt` | crates/noxtls-crypto/src/pkc/primitive/mlkem.rs:332-357 | v: t times r plus e2 plus 1664 for each set message bit |
| `MlKemTranscript.KeyTAt` | crates/noxtls-crypto/src/pkc/primitive/mlkem.rs:215-250 | t: a row of the matrix times s plus e |
| `MlKemTranscript.NoiseAt` | crates/noxtls-crypto/src/pkc/primitive/mlkem.rs:792-814 | a noise coefficient is two bits of its stream nibble minus the other two |
| `MlKemTranscript.CiphertextIs` | crates/noxtls-crypto/src/pkc/primitive/mlkem.rs:332-357 | the parts of a ciphertext, in order |
| `MlKemTranscript.KeysAre` | crates/noxtls-crypto/src/pkc/primitive/mlkem.rs:215-250 | the fields of both keys, in order, the derived ones in the hash functions alone |
| `MlKemTranscript.KeyVectorsAre` | crates/noxtls-crypto/src/pkc/primitive/mlkem.rs:215-250 | secret and noise vectors under sigma, one tag each |
| `HashPrimitives.AsciiIs` | crates/noxtls-crypto/src/pkc/primitive/mlkem.rs:792-814 | a tag goes into a hash as its character codes |
| `MlKemAgreement.Transpose` | crates/noxtls-crypto/src/pkc/primitive/mlkem.rs:284-357 | (A*s)*r = s*(A^T*r) exactly in the ring |
| `MlKemAgreement.CarrierIsMessagePlusNoise` | crates/noxtls-crypto/src/pkc/primitive/mlkem.rs:284-357 | what the decapsulator computes is the message polynomial plus e*r + e2 + ev - s*e1 - s*eu and what accumulators lost, modulo 3329 |
| `MlKemAgreement.HonestKeys` | crates/noxtls-crypto/src/pkc/primitive/mlkem.rs:215-250 | an honest private key decodes to its secret, its public key, the hash of that key, and t |
| `MlKemAgreement.MessageRecoveredIff` | crates/noxtls-crypto/src/pkc/primitive/mlkem.rs:284-357 | for every seed and message, decapsulation recovers the encapsulated message if and only if every coefficient of the total noise stays in its window |
| `MlKemAgreement.Agreement` | crates/noxtls-crypto/src/pkc/primitive/mlkem.rs:284-311 | for every seed and message: recovered message, re-encryption equal to the ciphertext, mask 0xFF and equal secrets hold together if and only if every coefficient of the total noise stays in its window |
| `MlKemAgreement.AgreementUnderBound` | crates/noxtls-crypto/src/pkc/primitive/mlkem.rs:284-311 | in particular they hold whenever the total noise, centred, is at most 831 everywhere |
| `MlKemAgreement.RoundingNoise` | crates/noxtls-crypto/src/pkc/primitive/mlkem.rs:1150-1319 | the rounding of u and v contributes at most 2 and 104 per coefficient |
| `MlKemAgreement.NothingLost` | crates/noxtls-crypto/src/pkc/primitive/mlkem.rs:858-900 | the term for accumulator loss vanishes modulo 3329 when the products of s and u fit i32 |
| `MlKemAgreement.AgreementWhenProductsFit` | crates/noxtls-crypto/src/pkc/primitive/mlkem.rs:284-357 | when those products fit, agreement is decided by e*r + e2 + ev - s*e1 - s*eu alone, the noise of key, encryption and rounding, and holds when that is at most 831 |
| `MlKemOverflow.AgreementForKey` | crates/noxtls-crypto/src/pkc/primitive/mlkem.rs:215-357 | the same from a condition on the key alone: at most 193 negative coefficients in each secret polynomial |
| `MlDsaPoly.ModQ` | crates/noxtls-crypto/src/pkc/primitive/mldsa.rs:1567-1595 | the residue class of any i64 in [0, 8380417) |
| `MlDsaPoly.PolyMul` | crates/noxtls-crypto/src/pkc/primitive/mldsa.rs:893-911 | the exact negacyclic product reduced; no i64 accumulator overflows |
| `MlDsaPoly.AddPolyInplace` | crates/noxtls-crypto/src/pkc/primitive/mldsa.rs:927-931 | in place, the sum reduced |
| `MlDsaPoly.SubPolyInplace` | crates/noxtls-crypto/src/pkc/primitive/mldsa.rs:990-997 | in place, the difference reduced |
| `MlDsaPoly.CenteredAbsLeast` | crates/noxtls-crypto/src/pkc/primitive/mldsa.rs:1635-1643 | the centred absolute value is at most q/2 and at most the size of any representative |
| `MlDsaPoly.MaxAbs` | crates/noxtls-crypto/src/pkc/primitive/mldsa.rs:1658-1669 | the largest centred absolute value of a vector, attained |
| `Weights.WeightBound` | crates/noxtls-crypto/src/pkc/primitive/mldsa.rs:465-534 | a product coefficient is at most the one-norm of one factor times the size of the other |
| `MlDsaChallenge.FirstPass` | crates/noxtls-crypto/src/pkc/primitive/mldsa.rs:1507-1529 | after n of the 65 positions, exactly the indices found there hold signs, and their count is the counter |
| `MlDsaChallenge.Replay` | crates/noxtls-crypto/src/pkc/primitive/mldsa.rs:1512-1522 | going over the positions again places nothing more |
| `MlDsaChallenge.TerminatesIff` | crates/noxtls-crypto/src/pkc/primitive/mldsa.rs:1507-1529 | the loop ends if and only if the 65 positions hold at least 49 distinct indices, and then within one pass |
| `MlDsaChallenge.ConstantStreamNeverEnds` | crates/noxtls-crypto/src/pkc/primitive/mldsa.rs:1507-1529 | on a stream of equal bytes it never ends |
| `MlDsaChallenge.ChallengeIsSparse` | crates/noxtls-crypto/src/pkc/primitive/mldsa.rs:1507-1529 | the challenge has exactly 49 nonzero coefficients, each 1 or -1 |
| `MlDsaChallenge.ChallengeIs` | crates/noxtls-crypto/src/pkc/primitive/mldsa.rs:1507-1529 | each coefficient from the stream bytes: the sign found with its index first, or zero |
| `MlDsaChallenge.ChallengePolyFromDigest` | crates/noxtls-crypto/src/pkc/primitive/mldsa.rs:1507-1529 | the loop, with a termination proof where it terminates |
| `MlDsaCodec.LosslessIff` | crates/noxtls-crypto/src/pkc/primitive/mldsa.rs:1356-1404 | the twelve-bit codec keeps a polynomial if and only if every reduced coefficient is below 4096 |
| `MlDsaCodec.LargeCoefficientLost` | crates/noxtls-crypto/src/pkc/primitive/mldsa.rs:1356-1404 | a coefficient 4096 comes back as 0 |
| `MlDsaCodec.EncodePoly12bit` | crates/noxtls-crypto/src/pkc/primitive/mldsa.rs:1356-1368 | the chunk loop writes the packing of the low twelve bits of each reduced coefficient |
| `MlDsaCodec.DecodePoly12bit` | crates/noxtls-crypto/src/pkc/primitive/mldsa.rs:1387-1404 | the loop reads them back, every coefficient below 4096 for any bytes |
| `MlDsaCodec.Rounding10` | crates/noxtls-crypto/src/pkc/primitive/mldsa.rs:1281-1341 | the ten-bit form rounds down, losing at most 8184 |
| `MlDsaCodec.ReencodingLowers` | crates/noxtls-crypto/src/pkc/primitive/mldsa.rs:1281-1341 | re-encoding a decoded step gives the step below, except zero |
| `MlDsaCodec.StepsRoundDown` | crates/noxtls-crypto/src/pkc/primitive/mldsa.rs:1281-1341 | ten-bit and four-bit steps and ten-bit coefficients are exact floors |
| `MlDsaCodec.RoundTrip10` | crates/noxtls-crypto/src/pkc/primitive/mldsa.rs:1281-1341 | through the bytes a coefficient becomes exactly its ten-bit rounding |
| `MlDsaCodec.EncodePoly10bit` | crates/noxtls-crypto/src/pkc/primitive/mldsa.rs:1281-1297 | the chunk loop writes the packed steps that RoundTrip10 reads back; its mask changes nothing |
| `MlDsaCodec.DecodePoly10bit` | crates/noxtls-crypto/src/pkc/primitive/mldsa.rs:1316-1341 | the loop reads what RoundTrip10 states |
| `MlDsaCodec.CompressVecKHint` | crates/noxtls-crypto/src/pkc/primitive/mldsa.rs:1419-1429 | the four-bit commitment bytes |
| `MlDsaCodec.SmallRoundTrip` | crates/noxtls-crypto/src/pkc/primitive/mldsa.rs:1069-1164 | coefficients in [-2, 253] survive the one-byte codec |
| `MlDsaCodec.EncodeSmallVec` | crates/noxtls-crypto/src/pkc/primitive/mldsa.rs:1069-1077 | the nested loops write the bytes that SmallRoundTrip reads back |
| `MlDsaCodec.DecodeSmallVec` | crates/noxtls-crypto/src/pkc/primitive/mldsa.rs:1119-1132 | the nested loops read what SmallRoundTrip states, entries in [-2, 253] for any bytes |
| `MlDsa.SampleMaskPoly` | crates/noxtls-crypto/src/pkc/primitive/mldsa.rs:802-821 | mask coefficients in [-2^17, 2^17); the clamp never acts |
| `MlDsa.SampleUniformPoly` | crates/noxtls-crypto/src/pkc/primitive/mldsa.rs:728-743 | matrix entries: 23 bits reduced |
| `MlDsa.MatRow` | crates/noxtls-crypto/src/pkc/primitive/mldsa.rs:865-877 | one row times a vector, reduced after each product |
| `MlDsaScheme.KeygenFromSeed` | crates/noxtls-crypto/src/pkc/primitive/mldsa.rs:418-444 | both key encodings from a seed |
| `MlDsaScheme.TrySign` | crates/noxtls-crypto/src/pkc/primitive/mldsa.rs:494-529 | one pass of the loop: a signature exactly when both norm tests pass |
| `MlDsaScheme.SignInternal` | crates/noxtls-crypto/src/pkc/primitive/mldsa.rs:465-534 | the first attempt that passes, the error after 64, or the length error |
| `MlDsaScheme.VerifyInternal` | crates/noxtls-crypto/src/pkc/primitive/mldsa.rs:555-596 | acceptance and every rejection, in order |
| `MlDsaTranscript.AcceptedIff` | crates/noxtls-crypto/src/pkc/primitive/mldsa.rs:555-596 | acceptance in SHA3-256 and SHAKE256 alone: both lengths, the challenge over the hash of key hash and message and over the commitment, and the tail |
| `MlDsaTranscript.AcceptanceBinds` | crates/noxtls-crypto/src/pkc/primitive/mldsa.rs:555-596 | a signature accepted for two different pairs of key and message exhibits a collision at a stated place |
| `MlDsaTranscript.SignedHashes` | crates/noxtls-crypto/src/pkc/primitive/mldsa.rs:465-534 | challenge and tail of a signature, in the hash functions alone |
| `MlDsaTranscript.SignedAnswer` | crates/noxtls-crypto/src/pkc/primitive/mldsa.rs:465-534 | the answer field: the low twelve bits of (y + c*s1) modulo q, c drawn from the challenge field |
| `MlDsaTranscript.SignedCommitment` | crates/noxtls-crypto/src/pkc/primitive/mldsa.rs:465-534 | the commitment field: the top four bits of A*y |
| `MlDsaTranscript.MaskIs` | crates/noxtls-crypto/src/pkc/primitive/mldsa.rs:802-821 | y drawn from key, message and nonce, 18 bits a coefficient |
| `MlDsaTranscript.MatrixIs` | crates/noxtls-crypto/src/pkc/primitive/mldsa.rs:728-743 | A drawn from rho, row and column, 23 bits a coefficient |
| `MlDsaOpening.RowIs` | crates/noxtls-crypto/src/pkc/primitive/mldsa.rs:865-877 | a row times a vector is the sum of five exact ring products, reduced once |
| `MlDsaOpening.AnswerOpensCommitment` | crates/noxtls-crypto/src/pkc/primitive/mldsa.rs:486-520 | A*z - c*t = w - c*s2 modulo q in every row, for any private key bytes |
| `MlDsaOpening.TestedResidue` | crates/noxtls-crypto/src/pkc/primitive/mldsa.rs:513-518 | what the second norm test looks at: (w - c*s2) modulo q |
| `MlDsaTranscript.PublicKeyIs` | crates/noxtls-crypto/src/pkc/primitive/mldsa.rs:418-444 | the public key, field by field |
| `MlDsaTranscript.PublicVectorAt` | crates/noxtls-crypto/src/pkc/primitive/mldsa.rs:418-444 | each coefficient of t = A*s1 + s2 |
| `MlDsaTranscript.PrivateKeyIs` | crates/noxtls-crypto/src/pkc/primitive/mldsa.rs:418-444 | the hashed fields of the private key |
| `MlDsaTranscript.SecretsAre` | crates/noxtls-crypto/src/pkc/primitive/mldsa.rs:838-849 | each secret coefficient is a stream byte modulo 5, centred |
| `MlDsaTranscript.SecretBytes` | crates/noxtls-crypto/src/pkc/primitive/mldsa.rs:1119-1132 | where each secret coefficient stands in a private key |
| `MlDsaScheme.DerivePublicFromPrivate` | crates/noxtls-crypto/src/pkc/primitive/mldsa.rs:615-642 | the two masking passes cancel: the public key recomputed from the private one |
| `MlDsaTranscript.DerivedIs` | crates/noxtls-crypto/src/pkc/primitive/mldsa.rs:615-642 | what that public key is, for any private key bytes |
| `MlDsaCorrectness.AnswerNorm` | crates/noxtls-crypto/src/pkc/primitive/mldsa.rs:506-511 | with secrets of size at most b the answer is at most 2^17 + 49*b in every coefficient |
| `MlDsaCorrectness.HonestAnswerNorm` | crates/noxtls-crypto/src/pkc/primitive/mldsa.rs:506-511 | for honest keys at most 2^17 + 98 |
| `MlDsaCorrectness.NeverRejects` | crates/noxtls-crypto/src/pkc/primitive/mldsa.rs:506-518 | for any private key bytes at all both norm tests pass at every nonce |
| `MlDsaCorrectness.SignsAtFirstNonce` | crates/noxtls-crypto/src/pkc/primitive/mldsa.rs:465-534 | signing ends if and only if its first challenge loop ends, and returns the first attempt |
| `MlDsaCorrectness.AcceptsIff` | crates/noxtls-crypto/src/pkc/primitive/mldsa.rs:555-596 | verification accepts exactly on two hash equations; its norm test never decides |
| `MlDsaCorrectness.SignedIsAcceptedIff` | crates/noxtls-crypto/src/pkc/primitive/mldsa.rs:465-596 | a signature of any private key is accepted under a public key if and only if both hash the commitment to one challenge |
| `MlDsaCorrectness.SignThenVerify` | crates/noxtls-crypto/src/pkc/primitive/mldsa.rs:465-596 | with matching keys signing succeeds and its signature verifies |
| `MlDsaCorrectness.HonestKeys` | crates/noxtls-crypto/src/pkc/primitive/mldsa.rs:418-444 | generated halves match, secrets decode to what was sampled, and the private half gives the public one back |
| `MlDsaCorrectness.HonestSignaturesVerify` | crates/noxtls-crypto/src/pkc/primitive/mldsa.rs:418-596 | key generation, signing and verification end to end |
| `Certificates.TimeOrder` | crates/noxtls-x509/src/certs/validate.rs:677-691 | string order of canonical times is numeric order |
| `Certificates.CanonicalTimeIs` | crates/noxtls-x509/src/certs/validate.rs:706-725 | for every byte string: a panic exactly at 13 bytes ending in Z whose byte 2 continues a character, a canonical time exactly for 12 or 14 digits and Z, otherwise a refusal |
| `Certificates.AccentedTimePanics` | crates/noxtls-x509/src/certs/validate.rs:706-725 | an input that panics |
| `Certificates.TimeWindow` | crates/noxtls-x509/src/certs/validate.rs:677-691 | a certificate passes exactly when the instant lies in its validity period, ends included, and panics exactly when reading that period does |
| `PathMeaning.TimeCheckIs` | crates/noxtls-x509/src/certs/validate.rs:677-691 | which end of the validity period is missed |
| `PathMeaning.YearIs` | crates/noxtls-x509/src/certs/validate.rs:706-725 | two-digit years are 1950 to 2049 |
| `Certificates.DnsMatchIff` | crates/noxtls-x509/src/certs/validate.rs:1275-1285 | a name matches exactly when, ignoring case, it is the constraint or labels and a dot before it |
| `Certificates.CheckNameConstraints` | crates/noxtls-x509/src/certs/validate.rs:1231-1259 | no excluded constraint matches and, if any are permitted, one does, for every name |
| `PathMeaning.MatchIsCover` | crates/noxtls-x509/src/certs/validate.rs:1275-1285 | a constraint, less leading dots, covers exactly its own name and what ends in a dot and it, in either case of letters |
| `PathMeaning.NamesCheckIs` | crates/noxtls-x509/src/certs/validate.rs:1231-1259 | passes exactly when no name of the subject is excluded and each is permitted if any are |
| `PathMeaning.IssuerCheckIs` | crates/noxtls-x509/src/certs/validate.rs:638-657 | passes exactly for a certificate marked as authority, whose key usage, if any, has the certificate-signing bit, and whose path length, if any, is not exceeded; otherwise names the first condition missed |
| `PathMeaning.OptionsCheckIs` | crates/noxtls-x509/src/certs/validate.rs:858-897 | passes exactly when required policy, usage and revocation pointers are there; otherwise names what is missing |
| `PathPolicy.Unique` | crates/noxtls-x509/src/certs/validate.rs:1019-1027 | the same policies without repeats |
| `PathPolicy.UniquePolicies` | crates/noxtls-x509/src/certs/validate.rs:1019-1027 | the loop keeps first occurrences in order |
| `PathPolicy.RemapPolicies` | crates/noxtls-x509/src/certs/validate.rs:978-1004 | the nested loops produce the list that RemappedAre describes |
| `PathPolicy.RemappedAre` | crates/noxtls-x509/src/certs/validate.rs:978-1004 | a policy is present after mapping if and only if it was and nothing maps it, or it is the image of one that was |
| `PathPolicy.CrossingOnlyNarrows` | crates/noxtls-x509/src/certs/validate.rs:915-936 | without mappings no policy appears that was not there |
| `PathPolicy.CountersOnlyFall` | crates/noxtls-x509/src/certs/validate.rs:1129-1139 | no step raises or clears a skip counter |
| `PathPolicy.StepsKeepDistinct` | crates/noxtls-x509/src/certs/validate.rs:915-936 | no step makes the policy list repeat |
| `PathPolicy.RetainedParts` | crates/noxtls-x509/src/certs/validate.rs:915-936 | narrowing keeps order |
| `PathPolicy.NarrowedKeepsOrder` | crates/noxtls-x509/src/certs/validate.rs:915-936 | the policies left by a certificate stand in the order they had |
| `PathPolicy.UniqueGrows` | crates/noxtls-x509/src/certs/validate.rs:1019-1027 | first occurrences keep order |
| `PathPolicy.RemappedParts` | crates/noxtls-x509/src/certs/validate.rs:978-1004 | mapping goes policy by policy and mapping by mapping, in order |
| `PathSearch.ValidateChainStep` | crates/noxtls-x509/src/certs/validate.rs:325-492 | the recursive backtracking method over mutable state computes the search function; terminates by remaining hops; a panic ends the search |
| `PathSearch.TryCandidates` | crates/noxtls-x509/src/certs/validate.rs:425-491 | candidates are tried in order, each on a clone of the state; the first success or panic, or the last error |
| `PathSearch.TryCandidate` | crates/noxtls-x509/src/certs/validate.rs:435-485 | one candidate issuer: checks, counters, recursion |
| `PathSearch.CrossToAnchor` | crates/noxtls-x509/src/certs/validate.rs:383-423 | the anchor branch |
| `PathSearch.ChainValidationState.UpdateEffective` | crates/noxtls-x509/src/certs/validate.rs:915-936 | narrowing in place by the retain loop |
| `PathSearch.ChainValidationState.ApplyMappings` | crates/noxtls-x509/src/certs/validate.rs:978-1004 | mapping in place |
| `PathSearch.ChainValidationState.Descend` | crates/noxtls-x509/src/certs/validate.rs:1129-1139 | all three counters, unless self-issued |
| `PathSearch.FilterBySubject` | crates/noxtls-x509/src/certs/validate.rs:425-431 | matching intermediates, in list order |
| `PathSearch.ValidateCertificateChain` | crates/noxtls-x509/src/certs/validate.rs:249-288 | the entry point with its two early errors and the panic on an unreadable instant |
| `PathTheorems.SearchFindsFirst` | crates/noxtls-x509/src/certs/validate.rs:325-492 | from any state, a success or a panic is that of the first list of candidates that can be followed to either; a refusal means no list can |
| `PathTheorems.LastErrorWins` | crates/noxtls-x509/src/certs/validate.rs:425-491 | when every candidate fails the error is that of the last |
| `PathTheorems.SearchErrors` | crates/noxtls-x509/src/certs/validate.rs:325-492 | the errors of the search itself |
| `PathTheorems.EnterErrors` | crates/noxtls-x509/src/certs/validate.rs:325-366 | entering a certificate fails as its first failing check does |
| `PathTheorems.CrossErrors` | crates/noxtls-x509/src/certs/validate.rs:383-485 | crossing to an issuer fails as its first failing check does |
| `PathTheorems.FollowIsPath` | crates/noxtls-x509/src/certs/validate.rs:325-492 | following a list from the leaf is accepted if and only if it is a path in closed form, with that path's report, and panics if and only if the list breaks at a certificate with unreadable times |
| `PathConditions.PathIff` | crates/noxtls-x509/src/certs/validate.rs:325-492 | a list is a path exactly on stated conditions on certificate fields: names, times, options, authority, path length, name constraints, signatures, distinct serials, skip counters and policies |
| `PathConditions.IssuersOnPath` | crates/noxtls-x509/src/certs/validate.rs:383-485 | every issuer on a path is an authority that may sign certificates within its path length |
| `PathConditions.CountersAre` | crates/noxtls-x509/src/certs/validate.rs:952-1200 | every skip counter at every certificate, in closed form: at most t exactly when the options start it or some limit has been counted down to t |
| `PathConditions.PoliciesAre` | crates/noxtls-x509/src/certs/validate.rs:915-936 | without mappings, the policies are those every limiting certificate names |
| `PathConditions.CrossedAre` | crates/noxtls-x509/src/certs/validate.rs:978-1004 | one crossing with mappings: what is carried over, then the narrowing |
| `PathConditions.ReportIs` | crates/noxtls-x509/src/certs/validate.rs:325-492 | the report: how many certificates, which anchor, which policies |
| `PathTheorems.SearchIsFirstPath` | crates/noxtls-x509/src/certs/validate.rs:325-492 | among the lists that are paths or break, of at most sixteen intermediates, the first in list order decides: its report, or a panic; the search refuses if and only if there is none |
| `PathTheorems.ReadableSearchIsFirstPath` | crates/noxtls-x509/src/certs/validate.rs:325-492 | when every certificate has readable times, the search succeeds if and only if a path exists, and reports the first |
| `PathTheorems.FirstIsUnique` | crates/noxtls-x509/src/certs/validate.rs:325-492 | there is at most one deciding list |
| `PathTheorems.ValidationIff` | crates/noxtls-x509/src/certs/validate.rs:249-288 | the same for the entry point, for every instant string and certificate list |
| `PathTheorems.ReportBounds` | crates/noxtls-x509/src/certs/validate.rs:325-492 | chain length at most 18, an existing anchor, distinct policies |
| `PathTheorems.SelfIssuedLeafUnsigned` | crates/noxtls-x509/src/certs/validate.rs:367-381 | a self-issued leaf is matched by name alone: the signature predicate is never consulted |
| `PathTheorems.SelfIssuedLeafIff` | crates/noxtls-x509/src/certs/validate.rs:367-381 | a self-issued leaf is accepted if and only if its own checks pass and an anchor carries its name |
| `PathTheorems.UnsignedLeafAccepted` | crates/noxtls-x509/src/certs/validate.rs:367-381 | a certificate accepted with signatures enforced although every signature check fails |
| `PathTheorems.SignaturesOnPath` | crates/noxtls-x509/src/certs/validate.rs:383-485 | every other signature on an accepted path has been checked against its issuer |
| `DtlsReplay.NewNumber` | crates/noxtls/src/protocol/dtls.rs:104-113 | sliding the bitmap keeps it equal to the last 64 numbers of the accepted set |
| `DtlsReplay.DtlsReplayWindow.CheckAndMark` | crates/noxtls/src/protocol/dtls.rs:96-124 | accepts exactly the numbers that are new and less than 64 behind, and remembers them |
| `DtlsReplay.DtlsReplayWindow.RestoreFromSnapshot` | crates/noxtls/src/protocol/dtls.rs:158-162 | any snapshot at all becomes the state of the window |
| `DtlsReplay.DtlsReplayWindow.TakeSnapshot` | crates/noxtls/src/protocol/dtls.rs:138-144 | the state of the window, which shows what it remembers |
| `DtlsReplay.AdmissionIsState` | crates/noxtls/src/protocol/dtls.rs:96-124 | two histories that leave one state admit the same numbers, so a restored window decides as the one the snapshot was taken from |
| `DtlsReplay.DtlsEpochReplayTracker.CheckAndMark` | crates/noxtls/src/protocol/dtls.rs:205-224 | decides as a reference that keeps every accepted number of the current and previous epoch |
| `DtlsReplay.NoReplay` | crates/noxtls/src/protocol/dtls.rs:205-224 | in any run over any epochs, a record number is accepted at most the first time it is presented |
| `DtlsReplay.OnlyFirstAccepted` | crates/noxtls/src/protocol/dtls.rs:205-224 | a number presented at any earlier point of a run is refused at every later one, whether it was accepted or not |
| `DtlsReplay.AcceptedSet` | crates/noxtls/src/protocol/dtls.rs:205-224 | the reference set is exactly what the run accepted |
| `DtlsReplay.EpochsAdvance` | crates/noxtls/src/protocol/dtls.rs:236-241 | the current epoch never moves back |
| `DtlsReplay.FreshIsAccepted` | crates/noxtls/src/protocol/dtls.rs:205-224 | an unseen number of a live epoch less than 64 behind is always accepted |
| `DtlsReplay.DecisionIff` | crates/noxtls/src/protocol/dtls.rs:205-224 | every decision of every run from the calls alone: the first call, a new highest epoch, or in the highest epoch or the one before it a number not accepted yet and less than 64 behind; nothing else is let in |
| `DtlsReplay.LiveEpochs` | crates/noxtls/src/protocol/dtls.rs:236-241 | which two epochs are live, from the calls alone |
| `DtlsRecords.HeaderRoundTrip` | crates/noxtls/src/protocol/dtls.rs:524-595 | a header with a 48-bit sequence number parses back |
| `DtlsRecords.HeaderCanonical` | crates/noxtls/src/protocol/dtls.rs:561-595 | only encodings parse |
| `DtlsRecords.PacketRoundTrip` | crates/noxtls/src/protocol/dtls.rs:607-657 | packets encode exactly under both limits and parse back |
| `DtlsRecords.PacketCanonical` | crates/noxtls/src/protocol/dtls.rs:607-657 | an accepted packet re-encodes to itself |
| `DtlsRecords.TypeCodes` | crates/noxtls/src/protocol/dtls.rs:524-595 | the content type codes |
| `DtlsRecords.HeaderLayout` | crates/noxtls/src/protocol/dtls.rs:524-560 | where each header field stands |
| `DtlsRecords.BuildNonce` | crates/noxtls/src/protocol/dtls.rs:1063-1079 | the in-place loop leaves four bytes of the static value and folds the record number into the other eight |
| `DtlsRecords.NoncesDiffer` | crates/noxtls/src/protocol/dtls.rs:1063-1079 | under one static value no two record numbers share a nonce |
| `DtlsRecords.NonceIs` | crates/noxtls/src/protocol/dtls.rs:1063-1079 | byte i of the nonce: the static value, from place 4 on with the 64-bit record number mixed in, top byte first |
| `DtlsRecords.OpenRecord` | crates/noxtls/src/protocol/dtls.rs:1006-1046 | every outcome, and the tracker state: unchanged when screening fails, marked before decryption otherwise |
| `DtlsRecords.SealedOpens` | crates/noxtls/src/protocol/dtls.rs:955-1048 | given a correct cipher, a sealed record passes the screen and decrypts to what was sealed |
| `DtlsRecords.SealedIs` | crates/noxtls/src/protocol/dtls.rs:955-1005 | a sealed record: header, ciphertext and tag, sealed with the header as associated data |
| `DtlsRecords.OpenedIs` | crates/noxtls/src/protocol/dtls.rs:1006-1046 | what is handed to the cipher when a record is opened |
| `DtlsRecords.SpentStep` | crates/noxtls/src/protocol/dtls.rs:1006-1046 | opening packets moves the tracker by their numbers alone, whatever decrypts |
| `DtlsRecords.FirstPacketSpendsNumber` | crates/noxtls/src/protocol/dtls.rs:1006-1046 | in any run a packet is refused once an earlier packet that passed the screen, forged or not, carried its number |
| `DtlsFragments.FragmentRoundTrip` | crates/noxtls/src/protocol/dtls.rs:735-898 | encoding succeeds exactly on fitting fragments and parses back |
| `DtlsFragments.FragmentCanonical` | crates/noxtls/src/protocol/dtls.rs:735-774 | only encodings parse |
| `DtlsFragments.FragmentLayout` | crates/noxtls/src/protocol/dtls.rs:856-898 | where each field of a fragment stands |
| `DtlsFragments.EncodeFragments` | crates/noxtls/src/protocol/dtls.rs:677-716 | the splitting loop; refuses exactly fragment size zero and bodies over 24 bits |
| `DtlsFragments.PartsPartition` | crates/noxtls/src/protocol/dtls.rs:677-716 | every byte lies in exactly one part |
| `DtlsFragments.PartAt` | crates/noxtls/src/protocol/dtls.rs:677-716 | fragment k starts at k times the fragment size, and all but the last are full |
| `DtlsFragments.Reassemble` | crates/noxtls/src/protocol/dtls.rs:792-833 | the buffers-and-flags loop, with every error |
| `DtlsFragments.ReassembleIff` | crates/noxtls/src/protocol/dtls.rs:792-833 | slices of a message in any order, overlap and repetition reassemble to it if and only if they leave no byte out |
| `DtlsFragments.SplitRoundTrip` | crates/noxtls/src/protocol/dtls.rs:677-833 | any list drawn from a message's fragments reassembles to it if and only if none is missing |
| `DtlsFragments.ReassembledIsSound` | crates/noxtls/src/protocol/dtls.rs:792-833 | for arbitrary input every byte of an accepted message was carried at its place |
| `DtlsFragments.ReassembledIff` | crates/noxtls/src/protocol/dtls.rs:792-833 | for any inputs at all: the result is the message all of them belong to, within the limit, each byte from the last input covering it |
| `DtlsFragments.ReassemblyErrors` | crates/noxtls/src/protocol/dtls.rs:792-833 | which of the two errors |
| `DtlsRetransmit.DtlsFlightRetransmitTracker.TrackOutbound` | crates/noxtls/src/protocol/dtls.rs:334-375 | replace in place or append and drop the oldest; refuses exactly oversized sequence numbers |
| `DtlsRetransmit.DtlsFlightRetransmitTracker.MarkAcked` | crates/noxtls/src/protocol/dtls.rs:394-404 | acknowledges the record of the key, and says whether there was one |
| `DtlsRetransmit.DtlsFlightRetransmitTracker.CollectDueRetransmitPackets` | crates/noxtls/src/protocol/dtls.rs:446-467 | drops exhausted records, returns the due packets in order and reschedules them |
| `DtlsRetransmit.DtlsFlightRetransmitTracker.PruneAcked` | crates/noxtls/src/protocol/dtls.rs:482-486 | keeps exactly the unacknowledged |
| `DtlsRetransmit.DtlsFlightRetransmitTracker.PendingRetransmitPackets` | crates/noxtls/src/protocol/dtls.rs:420-426 | the packets of the unacknowledged records, in order |
| `DtlsRetransmit.InvHolds` | crates/noxtls/src/protocol/dtls.rs:334-486 | every list reachable by any run mirrors the history of every key |
| `DtlsRetransmit.RunKeepsKeysDistinct` | crates/noxtls/src/protocol/dtls.rs:334-486 | keys stay distinct and the list within its limit in every run |
| `DtlsRetransmit.RetransmissionDiscipline` | crates/noxtls/src/protocol/dtls.rs:334-486 | since it was last tracked a key is emitted at most cap times, never after an acknowledgement, and emission k waits at least initial*2^k, saturating |
| `DtlsRetransmit.OnlyTrackedIsEmitted` | crates/noxtls/src/protocol/dtls.rs:446-467 | nothing untracked or acknowledged is emitted |
| `DtlsRetransmitLiveness.EmittedIff` | crates/noxtls/src/protocol/dtls.rs:446-467 | in any run, a listed key is emitted if and only if it is unacknowledged, has attempts left, and its doubled timeout has passed |
| `DtlsRetransmitLiveness.ReturnedIff` | crates/noxtls/src/protocol/dtls.rs:446-467 | the packets handed out are exactly those last tracked for the keys emitted |
| `DtlsRetransmitLiveness.CollectKeeps` | crates/noxtls/src/protocol/dtls.rs:446-467 | collecting drops a key if and only if it is unacknowledged with its attempts used up |
| `DtlsRetransmitLiveness.TrackKeeps` | crates/noxtls/src/protocol/dtls.rs:334-375 | tracking lists the key and drops another exactly when the list is full, the key new and that other the oldest |
| `DtlsRetransmitLiveness.OthersKeep` | crates/noxtls/src/protocol/dtls.rs:334-486 | acknowledging drops nothing, pruning exactly the acknowledged |
| `DtlsRetransmit.PacketsParts` | crates/noxtls/src/protocol/dtls.rs:446-467 | packets are handed out record by record, in order |
| `Der.ParseDerLength` | crates/noxtls-x509/src/certs/asn1.rs:85-108 | the accumulating loop returns the length and its size exactly as the strict grammar of LenCanonical has it, and every refusal |
| `Der.LenRoundTrip` | crates/noxtls-x509/src/certs/cert_write.rs:767-782 | every length below 2^32 parses back |
| `Der.LenCanonical` | crates/noxtls-x509/src/certs/asn1.rs:85-108 | the strict parser accepts nothing but encodings |
| `Der.LenIs` | crates/noxtls-x509/src/certs/cert_write.rs:767-782 | a length below 128 is itself, otherwise a count and the shortest bytes that spell it |
| `Der.NodeRoundTrip` | crates/noxtls-x509/src/certs/asn1.rs:44-66 | a node parses back whatever follows |
| `Der.NodeCanonical` | crates/noxtls-x509/src/certs/asn1.rs:44-66 | what parses is the one encoding of the node, followed by the rest |
| `Der.WriteDerInteger` | crates/noxtls-x509/src/certs/cert_write.rs:34-49 | stripping loop and inserted zero give the body that IntegerBodyIs characterises |
| `Der.IntegerBodyIs` | crates/noxtls-x509/src/certs/cert_write.rs:34-49 | the body written is the one minimal encoding of the value |
| `Ecdsa.DerIntegerToScalar` | crates/noxtls-x509/src/certs/key_format.rs:630-657 | right-aligned copy, with every refusal |
| `Ecdsa.ScalarIff` | crates/noxtls-x509/src/certs/key_format.rs:630-657 | a body reads as a scalar if and only if it is that scalar's written body |
| `Ecdsa.SignatureRoundTrip` | crates/noxtls-x509/src/certs/cert_write.rs:741-748 | every pair of scalars comes back |
| `Ecdsa.SignatureCanonical` | crates/noxtls-x509/src/certs/key_format.rs:594-611 | an accepted byte string is the encoding of what it decodes to |
| `Ecdsa.SignatureBijection` | crates/noxtls-x509/src/certs/key_format.rs:594-611 | parsing is the inverse of writing, both ways |
| `Ecdsa.SignatureLayout` | crates/noxtls-x509/src/certs/cert_write.rs:741-748 | where the parts of a written signature stand |
| `Ecdsa.ParsersAgree` | crates/noxtls-x509/src/certs/validate.rs:779-837 | the validator's copy accepts the same strings with the same values |
| `CertificateDer.ParseDerPositiveIntegerU32` | crates/noxtls-x509/src/certs/certificate.rs:972-993 | the shifting loop yields the value of the body modulo 2^32, and every refusal |
| `CertificateDer.SmallIntegerExactIff` | crates/noxtls-x509/src/certs/certificate.rs:972-993 | an accepted body gives its exact value if and only if it has fewer than five bytes or starts with zero |
| `CertificateDer.TopByteDropped` | crates/noxtls-x509/src/certs/certificate.rs:972-993 | the five-byte body 1, 0, 0, 0, 0 is accepted and read as 0 |
| `CertificateDer.ParseExtensionList` | crates/noxtls-x509/src/certs/certificate.rs:666-793 | the extension loop and its count limit; of extension values only those of basicConstraints |
| `CertificateExtensions.ConstraintsRead` | crates/noxtls-x509/src/certs/certificate.rs:843-872 | an optional boolean and an optional integer are read as the authority flag and the path length |
| `CertificateExtensions.ConstraintsAre` | crates/noxtls-x509/src/certs/certificate.rs:843-872 | and nothing else is accepted |
| `CertificateExtensions.AuthorityRead` | crates/noxtls-x509/src/certs/certificate.rs:843-872 | flag and any u32 path length, flag alone, length alone, and the empty sequence, each read exactly |
| `CertificateExtensions.ExtensionsIff` | crates/noxtls-x509/src/certs/certificate.rs:666-793 | an extension list is accepted if and only if it is the encoding of at most 256 acceptable extensions, and says what the last basicConstraints says |
| `CertificateLayout.AuthorityIsRead` | crates/noxtls-x509/src/certs/certificate.rs:98-250 | an accepted certificate carries exactly the flag and path length of that extension |
| `CertificateDer.SignedBytesArePrefix` | crates/noxtls-x509/src/certs/certificate.rs:98-250 | for every accepted certificate the kept signed bytes are exactly its first element |
| `CertificateLayout.CertificateIs` | crates/noxtls-x509/src/certs/certificate.rs:98-250 | every accepted certificate has the stated layout and every parsed field is the one at its place |
| `CertificateLayout.CertificateReads` | crates/noxtls-x509/src/certs/certificate.rs:98-250 | and every byte string of that layout with well-formed fields is accepted, field by field |
| `CertificateLayout.ValidityIff` | crates/noxtls-x509/src/certs/certificate.rs:399-408 | two times of either kind, nothing else |
| `CertificateLayout.AlgorithmIff` | crates/noxtls-x509/src/certs/certificate.rs:301-315 | an object identifier and at most one parameter node |
| `CertificateLayout.KeyIff` | crates/noxtls-x509/src/certs/certificate.rs:98-250 | an algorithm and the key bits |
| `CertificateLayout.TailIff` | crates/noxtls-x509/src/certs/certificate.rs:98-250 | unique identifiers skipped, then nothing or one tagged extension list |
| `CertificateDer.CertificateRoundTrip` | crates/noxtls-x509/src/certs/cert_write.rs:262-318 | a built certificate of at most 2^20 bytes parses to version 3, the normalised serial, one name, both times, algorithm, key, CA flag, signature, and the signed bytes themselves |
| `CertificateLayout.NameBodyIs` | crates/noxtls-x509/src/certs/cert_write.rs:262-318 | the written name: one common name, as UTF8String |
| `CertificateLayout.ExtensionsWritten` | crates/noxtls-x509/src/certs/cert_write.rs:262-318 | the written extensions: critical basicConstraints with the flag |
| `CertificateLayout.BuildsIff` | crates/noxtls-x509/src/certs/cert_write.rs:262-318 | a certificate body can be built exactly when serial and name are not empty and both times have a DER form |
| `Sha2.FoldAppend` | crates/noxtls-crypto/src/hash/mdigest/sha256.rs:163-177 | compressing a concatenation at a block boundary is compressing one part after the other |
| `Sha2.BlockFilled` | crates/noxtls-crypto/src/hash/mdigest/sha256.rs:163-177 | a filled buffer compresses to the state of the longer message |
| `Sha2.LastTwoBlocks` | crates/noxtls-crypto/src/hash/mdigest/sha256.rs:192-213 | the two-block ending equals compressing the padded message |
| `Sha2.LastBlock` | crates/noxtls-crypto/src/hash/mdigest/sha512.rs:296-315 | the one-block ending equals compressing the padded message |
| `Sha2.Hasher.Update` | crates/noxtls-crypto/src/hash/mdigest/sha256.rs:163-177 | appends to the message hashed, for any split |
| `Sha2.Hasher.Finalize` | crates/noxtls-crypto/src/hash/mdigest/sha512.rs:296-315 | the digest of everything appended: compression folded over the padded message |
| `Sha2.Sha` | crates/noxtls-crypto/src/hash/mdigest/sha256.rs:228-235 | the one-shot digest |
| `Sha2.PaddingInjective` | crates/noxtls-crypto/src/hash/mdigest/sha512.rs:296-315 | below the counter bound no two messages share padded blocks |
| `Sha2.PaddedIs` | crates/noxtls-crypto/src/hash/mdigest/sha512.rs:296-315 | the padded message by position: message, a one bit, the fewest zeros, the length in bits |
| `Sha2.DigestByte` | crates/noxtls-crypto/src/hash/mdigest/sha512.rs:296-315 | digest byte i belongs to state word i / word, top byte first |
| `Sponge.AbsorbBlock` | crates/noxtls-crypto/src/hash/sha3.rs:119-127 | in place, lanes mixed and permuted |
| `Sponge.PadTail` | crates/noxtls-crypto/src/hash/sha3.rs:153-157 | the tail buffer is the data followed by the padding, also when domain and last bit share a byte |
| `Sponge.PaddingIsPad101` | crates/noxtls-crypto/src/hash/sha3.rs:153-157 | bit for bit the padding is the domain suffix, a one, zeros and a one |
| `Sponge.KeccakSponge` | crates/noxtls-crypto/src/hash/sha3.rs:145-174 | absorbs exactly the padded message and returns the first n bytes of the output stream |
| `Sponge.Squeeze` | crates/noxtls-crypto/src/hash/sha3.rs:160-173 | lane by lane, permuting between rounds, and a final cut |
| `Sponge.PrefixLaw` | crates/noxtls-crypto/src/hash/sha3.rs:246-249 | a shorter output is a prefix of a longer one |
| `Sponge.MixedBytes` | crates/noxtls-crypto/src/hash/sha3.rs:119-127 | absorbing mixes block byte i into state byte i by exclusive or and leaves the rest alone |
| `Sponge.StreamStart` | crates/noxtls-crypto/src/hash/sha3.rs:160-173 | output starts with the bytes of the state, lane by lane, low byte first |
| `Sponge.StreamNext` | crates/noxtls-crypto/src/hash/sha3.rs:160-173 | one rate further on it is the output of the permuted state |
| `BcryptPbkdf.DeriveBlock` | crates/noxtls-crypto/src/hash/mdigest/bcrypt_pbkdf.rs:348-362 | the exclusive or of the round chain |
| `BcryptPbkdf.LinksAre` | crates/noxtls-crypto/src/hash/mdigest/bcrypt_pbkdf.rs:348-362 | the first link hashes salt and big-endian block counter, each later one the link before it |
| `BcryptPbkdf.MixIs` | crates/noxtls-crypto/src/hash/mdigest/bcrypt_pbkdf.rs:348-362 | each bit of a block is the parity of that bit over its links |
| `BcryptPbkdf.Scatter` | crates/noxtls-crypto/src/hash/mdigest/bcrypt_pbkdf.rs:364-373 | one pass writes its whole share of key positions and no other |
| `BcryptPbkdf.SharesCover` | crates/noxtls-crypto/src/hash/mdigest/bcrypt_pbkdf.rs:342-376 | the shares of all passes add up to the key length |
| `BcryptPbkdf.EveryPassCopies` | crates/noxtls-crypto/src/hash/mdigest/bcrypt_pbkdf.rs:347-376 | every pass has at least one byte to copy and no position reads past a block |
| `BcryptPbkdf.BcryptPbkdfSha512` | crates/noxtls-crypto/src/hash/mdigest/bcrypt_pbkdf.rs:311-380 | exactly ceil(len/32) passes, byte d from place d/stride of block (d mod stride)+1; refuses exactly the invalid arguments |
| `BcryptPbkdf.KeyByteIs` | crates/noxtls-crypto/src/hash/mdigest/bcrypt_pbkdf.rs:342-376 | byte stride*i + c of the key is place i of the block with counter c + 1, the stride being the length over 32, rounded up |
| `Tickets.TicketStore.Insert` | crates/noxtls/src/protocol/psk.rs:120-126 | append and drop the oldest over the bound |
| `Tickets.TicketStore.Rotate` | crates/noxtls/src/protocol/psk.rs:295-298 | removes consumed and expired tickets and counts them |
| `Tickets.TicketStore.InvalidateIdentity` | crates/noxtls/src/protocol/psk.rs:272-277 | removes the tickets of an identity and counts them |
| `TicketGrammar.InvalidationLeaves` | crates/noxtls/src/protocol/psk.rs:272-277 | what is left is exactly the tickets of other identities |
| `Tickets.RotationLeaves` | crates/noxtls/src/protocol/psk.rs:295-298 | what is left is exactly the unconsumed and unexpired |
| `Tickets.StoreHoldsNewest` | crates/noxtls/src/protocol/psk.rs:120-126 | after any inserts the store holds exactly the last max_entries tickets in order |
| `Tickets.TicketStore.ToBytes` | crates/noxtls/src/protocol/psk.rs:319-346 | the serialising loop writes the bytes that StoreRoundTripIff reads back, and fails on the first oversized field |
| `Tickets.FromBytes` | crates/noxtls/src/protocol/psk.rs:365-442 | the reading loop with eviction, and every refusal |
| `Tickets.StoreRoundTripIff` | crates/noxtls/src/protocol/psk.rs:319-442 | a store that can be written is read back as itself if and only if it lies within the decode limits |
| `Tickets.DecodedIsValid` | crates/noxtls/src/protocol/psk.rs:365-442 | anything accepted has 1 <= max_entries and at most max_entries tickets |
| `Tickets.StoreCanonical` | crates/noxtls/src/protocol/psk.rs:365-442 | current-version bytes whose bound holds their tickets re-encode to themselves |
| `Tickets.TicketLayout` | crates/noxtls/src/protocol/psk.rs:319-360 | where identity, nonce and the fixed fields of a written ticket stand |
| `Tickets.TailLayout` | crates/noxtls/src/protocol/psk.rs:319-360 | where each fixed field stands |
| `Tickets.StoreLayout` | crates/noxtls/src/protocol/psk.rs:319-346 | where the fixed part of a written store stands |
| `Tickets.FirstVersionBack` | crates/noxtls/src/protocol/psk.rs:365-442 | a version 1 ticket is read with early data limit zero and every other field as written |
| `TicketGrammar.DecodeIff` | crates/noxtls/src/protocol/psk.rs:365-442 | any bytes decode if and only if they are a stored list of either version within the limits, to its newest tickets under its bound |
| `TicketGrammar.WritableIff` | crates/noxtls/src/protocol/psk.rs:319-346 | a store can be written exactly when bound, count and field lengths fit |
| `TicketGrammar.SealsIff` | crates/noxtls/src/protocol/psk.rs:460-500 | and sealed exactly when also the key is not empty and the lengths fit |
| `TicketGrammar.SealedStoreIs` | crates/noxtls/src/protocol/psk.rs:460-540 | what a sealed store is made of and what is handed to the cipher |
| `Tickets.SealRoundTrip` | crates/noxtls/src/protocol/psk.rs:460-540 | given a correct cipher, an encrypted store opens to what its plain bytes decode to |
| `Tickets.AgeMatchesIff` | crates/noxtls/src/protocol/psk.rs:677-710 | for every skew: a ticket matches if and only if it is alive and the offered age is the expected one moved by at most the skew on the 32-bit circle |
| `Base64.EncodeBase64` | crates/noxtls-pem/src/lib.rs:614-643 | the loop with its one- and two-byte endings writes the text that Base64RoundTrip decodes |
| `Base64.DecodeBase64` | crates/noxtls-pem/src/lib.rs:662-708 | the nested loops decode quartet by quartet and refuse bad characters, padding order, width and place |
| `Base64.Base64RoundTrip` | crates/noxtls-pem/src/lib.rs:614-708 | every byte string comes back |
| `Base64.AlphabetIs` | crates/noxtls-pem/src/lib.rs:614-708 | the alphabet, read both ways |
| `Base64.GroupIs` | crates/noxtls-pem/src/lib.rs:614-643 | four letters spell in base 64 what three bytes spell in base 256; shorter groups padded |
| `Base64.GroupAt` | crates/noxtls-pem/src/lib.rs:614-643 | group k encodes bytes 3k to 3k+2 |
| `Base64.CanonicalIff` | crates/noxtls-pem/src/lib.rs:662-708 | accepted text re-encodes to itself if and only if its dropped bits are zero |
| `Base64.TwoSpellings` | crates/noxtls-pem/src/lib.rs:662-708 | QQ== and QR== both decode to one byte |
| `Pem.MarkerPanicsIff` | crates/noxtls-pem/src/lib.rs:587-599 | the marker parser slices out of range exactly on five to nine dashes |
| `Pem.BlocksPanicIff` | crates/noxtls-pem/src/lib.rs:511-571 | scanning panics if and only if its arguments pass and the first line it cannot get past is five to nine dashes after trimming |
| `Pem.DerToPem` | crates/noxtls-pem/src/lib.rs:435-462 | the printing loop writes the marker lines and 64-column payload that PemRoundTrip scans back, with every refusal |
| `Pem.PemToDerBlocks` | crates/noxtls-pem/src/lib.rs:511-571 | the scanning loop returns what folding one line at a time returns, with every error |
| `Pem.PemRoundTrip` | crates/noxtls-pem/src/lib.rs:435-571 | scanning concatenated blocks returns in order exactly the payloads under the label sought, and fails when there are none |
| `PemGrammar.BlocksIff` | crates/noxtls-pem/src/lib.rs:511-571 | any text is accepted with given payloads if and only if it is made of plain lines and well-formed blocks and those are what the blocks under the label hold |
| `PemGrammar.MarkerIff` | crates/noxtls-pem/src/lib.rs:587-599 | a marker line is five dashes, the kind, the label between spaces, five dashes |
| `PemGrammar.LinesAre` | crates/noxtls-pem/src/lib.rs:511-571 | how a text is split into lines |
| `PemGrammar.PrintIs` | crates/noxtls-pem/src/lib.rs:435-462 | a printed block, spelled out |
| `PemGrammar.ChunksAre` | crates/noxtls-pem/src/lib.rs:435-462 | payload lines of 64 characters, the last shorter |
| `PemGrammar.PrintErrors` | crates/noxtls-pem/src/lib.rs:435-462 | what printing refuses, and how |
| `PemGrammar.ScanArguments` | crates/noxtls-pem/src/lib.rs:511-571 | what scanning refuses before it looks at a line |
| `PemGrammar.TrimUnique` | crates/noxtls-pem/src/lib.rs:511-571 | trimming drops white space from both ends and nothing else |
| `PemGrammar.SpacesAre` | crates/noxtls-pem/src/lib.rs:511-571 | the white space characters |
| `PemGrammar.ControlsAre` | crates/noxtls-pem/src/lib.rs:511-571 | the control characters |

## Left out

- The `Connection` handshake, RSA, P-256, X25519, X448, Ed25519 and AES-GCM: not part of this model.
- Round functions and constants (SHA-2 compression, Keccak-f, Blowfish tables): parameters, since they are tables.
- `verify_certificate_signature`: its dispatch on algorithm identifiers is one function parameter of the path search.
- Parsing of extensions other than basicConstraints: a parameter says whether such an extension is accepted; the values it yields are inputs of the path search instead.
- `subject_common_name`, host name matching, certificate signing requests, SPKI, PKCS#8 and PKCS#1 key files: they compose the DER nodes already covered and would add easy members.
- The DER node parser inside `mldsa.rs`, which accepts non-canonical lengths: only the strict parser is modelled.
- Rejection sampling of the ML-KEM matrix: its termination depends on the hash stream; a sampled polynomial with coefficients in [0, 3329) is a parameter.
- Text: certificate times are bytes, since the source slices them by byte; DNS names, policies and PEM text are sequences of characters, and case folding is that of ASCII, as in the source; base64 text with other characters is refused with one error kind either way.
- Shifts and masks by whole bytes in the DTLS, DER, base64 and PEM code are written as division and remainder; in the integer and lattice code they are the bitwise operators of `Words`.
- Concatenating writers (`extend_from_slice`, `push`) are sequences; aliasing and capacity are not modelled.
- ML-KEM and ML-DSA vectors: polynomials are updated in place, vectors of polynomials are rebuilt as sequences.
- Sealed ticket files: file permissions, nonce generation and I/O.
- Constant-time behaviour, zeroisation and unforgeability: not functional correctness.
- MlKemAgreement.Agreement: the noise is an explicit polynomial of the key, the coins and the rounding; how likely it is to leave its window is not modelled.
- CertificateDer.ParseExtensionList: the values of extensions other than basicConstraints are dropped behind a yes-or-no parameter, because the path search takes them as inputs.
- MlDsaCorrectness.SignThenVerify: assumes that the challenge loop of the first attempt ends, which depends on the hash stream.
- PathConditions.PoliciesAre: the closed form is for paths without mappings; with mappings each crossing is `PathConditions.CrossedAre`.
