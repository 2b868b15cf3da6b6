# Verification of dezhan

dezhan is an immutable backup vault: objects are compressed, encrypted, cut into chunks, erasure
coded and stored under their digests; an index with retention locks, an audit chain and a journal
keep track of them.  This project models its five hardest parts in Dafny 4.11 and proves what they
promise.  `dafny verify dfyconfig.toml` checks all of it.

- **Erasure coding** (`GaloisField`, `LinearAlgebra`, `GaussJordan`, `Erasure`).  The
  multiplication loop makes a field of the bytes.  The elimination keeps the identity block times
  the input equal to the working matrix.  Cauchy submatrices have a trivial kernel, so any K of the
  K + M shards give the data back.
- **DEFLATE** (`BitOps`, `Huffman`, `DeflateFormat`, `FixedCode`, `Inflate`, `Deflate`, `Streams`).
  `DeflateFormat` is a reference decoder on bit sequences (RFC 1951).  The inflater is proved to
  agree with it on every input, errors included, and the compressor to produce what it decodes to
  the input.  `Streams` says what a writer of any such stream may put, with dynamic, fixed and
  stored blocks, and that it is read back.  The compressor's first fit codes length 258 as symbol
  284 with all extra bits set, where section 3.2.5 of RFC 1951 uses 285; both decode to 258.
- **Ed25519** (`Word64`, `Field25519`, `Scalar25519`, `Edwards`, `Curve25519`, `PointCode`,
  `Ed25519`, `Signatures`).  Limbs are of a 64-bit type, so every intermediate result is shown to
  fit.  The limb formulas are proved to compute the Edwards addition; closure, commutativity, the
  identity and inverses of that addition are proved, down to the square root that unpacks a point.
  The field formulas are stated under the predicate `Open`, so that a proof meets their products
  only where it unfolds them.  `Signatures` says what a signature binds.
- **Content-addressed store** (`Cipher`, `Octets`, `Shards`, `ObjectFormat`, `Totals`,
  `ContentStore`, `ParallelPut`, `Layout`, `Objects`, `ObjectRuns`).  The disk is a map from names
  to shard directories.  Ghost fields remember what each directory was written for; shard files may
  be damaged at any time.  `Layout` says what the files hold, byte by byte; `ObjectRuns` follows
  objects from end to end.
- **Vault** (`TrustedTime`, `Audit`, `VaultState`, `Snapshot`, `VaultSteps`, `Vault`, `Worm`,
  `Versions`, `AuditRuns`, `Records`, `StateFile`, `Verifier`).  `VaultSteps` says what each
  operation does; the class `Vault` does it on memory, snapshot and journal, and keeps the journal
  a refinement of the memory.  `Worm`, `Versions` and `AuditRuns` are about whole runs.

## Hypotheses

Each is written out where it is used.

- `Edwards.PrimeModulus`: 2^255 - 19 is prime, in the form that raising to P - 2 inverts.
- `Edwards.Complete`: the denominators of the addition do not vanish on the curve.
- `Edwards.Associative`: the addition is associative on the curve.
- `Edwards.BaseOrder`: the base point has order L.
- `Shards.CollisionFree`: SHA-256 has no collision among the finitely many strings that were
  hashed.  It is assumed only for these strings, and only where names or chains must be unique.
- In `Shards.Holds`, that the index file is intact and that no damaged shard has the digest of the
  stored one.
- SHA-256, SHA-512, HMAC and the ChaCha20 block function are parameters: any functions.

## Where the code decides

Each of these has its exact condition and an input.

- Opening ignores the journal when there is no snapshot (`Worm.LostWithoutSnapshot`), so the
  journal refines the memory once a snapshot exists (`Worm.ReopenKeeps`).  The journal stays on
  disk, and a crash in the first save brings it back (`Vault.StaleJournal`).
- A crash between writing a snapshot and emptying the journal replays old records over new ones
  (`VaultState.CrashRecovery`, `Vault.Vault.CrashInSave`, `Vault.Vault.CrashInHold`).
- The first reading after opening starts trusted time at 0, and before it the clock is that of the
  snapshot.  A delete before that reading goes by that clock (`Worm.RetentionHolds`,
  `Worm.DeleteBeforeReading`).
- Putting, marking and deleting versions change a name without consulting its lock
  (`Worm.EntryStep`, `Worm.LocksAreBypassed`).
- Sending a part number again does not adjust the total (`Objects.UploadPart`,
  `ObjectRuns.PartSentTwice`).
- A blob that is on disk is not written again by a put, even if it is damaged
  (`ObjectRuns.PutThenGet`, `ObjectRuns.PutOverDamage`).
- Versions do not record that an object is composite, so a collection does not spare its parts for
  their sake (`ObjectRuns.CollectVersion`, `ObjectRuns.LargeVersionIsLost`), and reading a version
  of it returns its list (`ObjectRuns.PutThenGetVersion`).
- A scrub repairs the list of a composite object and not its parts (`ObjectRuns.ScrubObjects`,
  `ObjectRuns.ScrubMissesParts`).
- A line with an empty name may not read back (`Records.ReadsBackExactly`,
  `Records.NamelessBucket`).
- Deleting a delete marker makes the newest version current again, but with a new lock and as a
  single object (`VaultSteps.MarkerUndone`, `Worm.MarkerUndoneUnlocks`).
- The check of a signature does not ask for S < L (`Ed25519.ShiftedResponse`).

## Model

| member | source | states |
|---|---|---|
| `GaloisField.Mul` | trusted_core/src/dezhan-trusted_core-erasure.adb:5-25 | the shift-and-add loop computes the product whose laws follow |
| `GaloisField.Pow` | trusted_core/src/dezhan-trusted_core-erasure.adb:27-41 | the square-and-multiply loop computes the n-fold product |
| `GaloisField.Inv` | trusted_core/src/dezhan-trusted_core-erasure.adb:45-46 | raising to 254 gives the inverse element |
| `GaloisField.ProductCommutative` | trusted_core/src/dezhan-trusted_core-erasure.adb:5-25 | multiplication commutes, for all symbols |
| `GaloisField.ProductByX` | trusted_core/src/dezhan-trusted_core-erasure.adb:5-25 | multiplying by x is a shift and a reduction by x^8 + x^4 + x^3 + x^2 + 1, for every symbol |
| `GaloisField.ProductAssociative` | trusted_core/src/dezhan-trusted_core-erasure.adb:5-25 | multiplication is associative, for all symbols |
| `GaloisField.ProductDistributes` | trusted_core/src/dezhan-trusted_core-erasure.adb:5-25 | multiplication distributes over exclusive or, on both sides |
| `GaloisField.PowerOfOrder` | trusted_core/src/dezhan-trusted_core-erasure.adb:27-46 | every symbol raised to 256 is itself |
| `GaloisField.InverseLaw` | trusted_core/src/dezhan-trusted_core-erasure.adb:45-46 | a nonzero symbol times its inverse is 1, and the inverse is not zero |
| `GaloisField.NoZeroDivisors` | trusted_core/src/dezhan-trusted_core-erasure.adb:5-25 | a product is zero exactly when a factor is |
| `GaussJordan.Invert` | trusted_core/src/dezhan-trusted_core-erasure.adb:88-164 | the in-place elimination succeeds exactly for nonsingular matrices, and then returns a left inverse |
| `GaussJordan.TreatColumn` | trusted_core/src/dezhan-trusted_core-erasure.adb:104-160 | one column: the identity block times the input stays the working matrix, columns done stay unit columns, and no pivot means singular |
| `GaussJordan.NoPivotIsSingular` | trusted_core/src/dezhan-trusted_core-erasure.adb:109-120 | a column without a pivot gives a nonzero vector that the input matrix kills |
| `Erasure.DataShardIsVerbatim` | trusted_core/src/dezhan-trusted_core-erasure.adb:57-58 | the first K rows of the code copy the data |
| `Erasure.CauchyKernel` | trusted_core/src/dezhan-trusted_core-erasure.adb:50-59 | a vector killed by at least as many distinct Cauchy rows as it has nonzero entries is zero |
| `Erasure.AnyKShardsSuffice` | trusted_core/src/dezhan-trusted_core-erasure.adb:185-218 | for all K and M in range, every K of the K+M coding rows form a nonsingular matrix |
| `Erasure.Coeff` | trusted_core/src/dezhan-trusted_core-erasure.adb:57-58 | the coefficient is the inverse of the sum of the two points |
| `Erasure.CoefficientIs` | trusted_core/src/dezhan-trusted_core-erasure.adb:50-59 | the coefficient of data shard j in parity shard i times the exclusive or of 8 + i and j is 1 |
| `Erasure.Encode` | trusted_core/src/dezhan-trusted_core-erasure.adb:63-82 | every parity symbol is its coding row applied to its data column; the rest is zero |
| `Erasure.ChooseShards` | trusted_core/src/dezhan-trusted_core-erasure.adb:185-197 | the chosen shards are the first K present ones: a present shard that is not chosen comes after K chosen ones |
| `Erasure.Reconstruct` | trusted_core/src/dezhan-trusted_core-erasure.adb:168-235 | succeeds exactly when at least K shards are present; then it returns the data that the present shards were encoded from, for every such data |
| `Huffman.Construct` | storage/src/dezhan-storage-deflate.adb:64-81 | the counting sort builds the table of the canonical code of the lengths |
| `Huffman.DecodeRecovers` | storage/src/dezhan-storage-deflate.adb:83-101 | for every code that is not over-subscribed, decoding the canonical code of a symbol gives that symbol and consumes exactly its bits |
| `Huffman.DecodeExact` | storage/src/dezhan-storage-deflate.adb:83-101 | decoding gives symbol s and leaves the rest if and only if the input is the code of s followed by the rest |
| `Huffman.CodesAreCanonical` | storage/src/dezhan-storage-deflate.adb:64-101 | the two rules of section 3.2.2 of RFC 1951, for every code: codes of one length are consecutive in the order of their symbols, and a shorter code comes before the leading bits of every longer one |
| `FixedCode.FixedCodeIsCanonical` | storage/src/dezhan-storage-deflate.adb:281-292 | the code that the writer emits for each literal/length symbol is the canonical code of the fixed lengths |
| `FixedCode.DistanceCodeIsCanonical` | storage/src/dezhan-storage-deflate.adb:311-319 | the five-bit reversed distance code is the canonical code of thirty equal lengths |
| `FixedCode.LengthHasSymbol` | storage/src/dezhan-storage-deflate.adb:299-310 | first fit finds a symbol for every length from 3 to 258; 258 goes to symbol 284 with all extra bits set |
| `FixedCode.DistanceHasSymbol` | storage/src/dezhan-storage-deflate.adb:311-319 | first fit finds a symbol for every distance from 1 to 32768 |
| `Inflate.Inflater.Bits` | storage/src/dezhan-storage-deflate.adb:38-55 | takes the given number of bits, least significant first, or fails at the end of the input |
| `Inflate.Inflater.Decode` | storage/src/dezhan-storage-deflate.adb:83-101 | the canonical decoding loop does what the specification of a symbol says, errors included |
| `Inflate.Inflater.Codes` | storage/src/dezhan-storage-deflate.adb:103-133 | literals and matches up to the end of the block, against the specification, errors included |
| `Inflate.Inflater.FixedBlock` | storage/src/dezhan-storage-deflate.adb:135-147 | a block with the fixed codes |
| `Inflate.Inflater.DynamicBlock` | storage/src/dezhan-storage-deflate.adb:149-199 | a block with codes in its header: run-length coded lengths, bounds and all error cases, as the reference decoder reads it; what it means is stated by `Streams.DynamicDecodes` |
| `Inflate.Inflater.StoredBlock` | storage/src/dezhan-storage-deflate.adb:208-224 | a stored block: alignment, length, copy, and its error cases; the complement of the length is skipped |
| `Inflate.Decompress` | storage/src/dezhan-storage-deflate.adb:32-248 | for every byte string: the result of the reference decoder, or failure exactly when that is malformed; what it means is stated by `Streams.StreamDecodes` |
| `Streams.LengthTable` | storage/src/dezhan-storage-deflate.adb:17-22 | the length tables are those of section 3.2.5 of RFC 1951, in closed form |
| `Streams.DistanceTable` | storage/src/dezhan-storage-deflate.adb:23-28 | the distance tables likewise |
| `Streams.CopyIs` | storage/src/dezhan-storage-deflate.adb:125-130 | every byte of a copy is the one that many bytes before it, overlapping or not |
| `Streams.ItemsDecode` | storage/src/dezhan-storage-deflate.adb:103-133 | literals and copies written with any two codes that are not over-subscribed, and any symbols that fit, are read back as the bytes they stand for |
| `Streams.RunsDecode` | storage/src/dezhan-storage-deflate.adb:164-190 | every run-length form of code lengths is read back: 16 repeats the last one 3 to 6 times, 17 stands for 3 to 10 zeros, 18 for 11 to 138 |
| `Streams.LengthsDecode` | storage/src/dezhan-storage-deflate.adb:150-162 | the lengths of the code of code lengths, three bits each in the order 16, 17, 18, 0 and from 8 outwards, are read back |
| `Streams.DynamicDecodes` | storage/src/dezhan-storage-deflate.adb:149-199 | for every header and every sequence of items with its codes: the bits of both are read as the bytes that the items stand for |
| `Streams.StoredDecodes` | storage/src/dezhan-storage-deflate.adb:207-224 | padding, length, complement and bytes are read as those bytes |
| `Streams.StreamDecodes` | storage/src/dezhan-storage-deflate.adb:32-248 | any stored, fixed and dynamic blocks one after the other decompress to what they stand for |
| `Streams.DecompressStream` | storage/src/dezhan-storage-deflate.adb:32-248 | and the decompressor returns it |
| `Tokens.BlockDecodes` | storage/src/dezhan-storage-deflate.adb:103-133 | the fixed code of any valid sequence of literals and matches decodes to the bytes it expands to |
| `Tokens.FixedStreamDecodes` | storage/src/dezhan-storage-deflate.adb:204-242 | a final fixed block holding such a sequence decompresses to those bytes, whatever the padding |
| `Deflate.BitWriter.PutBits` | storage/src/dezhan-storage-deflate.adb:257-266 | appends the low bits of a value to the bit stream |
| `Deflate.ReverseBits` | storage/src/dezhan-storage-deflate.adb:268-277 | reverses the bits of a code |
| `Deflate.BitWriter.PutLitLen` | storage/src/dezhan-storage-deflate.adb:281-292 | appends the canonical code of a symbol |
| `Deflate.EmitMatch` | storage/src/dezhan-storage-deflate.adb:299-321 | appends the code of a length and a distance |
| `Deflate.FindMatch` | storage/src/dezhan-storage-deflate.adb:355-385 | every match found by the hash chains is at a valid distance and really repeats |
| `Deflate.CopyReproduces` | storage/src/dezhan-storage-deflate.adb:120-131 | copying a match of that length from that distance, byte by byte and overlapping, gives the next bytes of the data |
| `Deflate.Compress` | storage/src/dezhan-storage-deflate.adb:252-422 | for every byte string, empty included, the output decompresses to that byte string |
| `Deflate.RoundTrip` | storage/src/dezhan-storage-deflate.adb:32-422 | compressing and then decompressing with the code gives the data back |
| `Word64.ShiftRight` | trusted_core/src/dezhan-trusted_core-ed25519.adb:30-32 | the shift of a signed word is floor division |
| `Word64.BandMask` | trusted_core/src/dezhan-trusted_core-ed25519.adb:26-26 | masking the bit pattern of a signed word with 2^n - 1 is the remainder |
| `Field25519.Car25519` | trusted_core/src/dezhan-trusted_core-ed25519.adb:65-78 | one carry pass leaves the digits of V mod 2^256, plus 38 (V div 2^256) in limb 0 |
| `Field25519.Sel25519` | trusted_core/src/dezhan-trusted_core-ed25519.adb:80-89 | swaps two field elements or keeps them, by a mask |
| `Field25519.Pack25519` | trusted_core/src/dezhan-trusted_core-ed25519.adb:91-112 | the 32 bytes are the residue below P: V mod P, for every limb vector in range |
| `Field25519.AddF` | trusted_core/src/dezhan-trusted_core-ed25519.adb:137-142 | the sum, and how the bound on the limbs grows |
| `Field25519.SubF` | trusted_core/src/dezhan-trusted_core-ed25519.adb:144-149 | the difference, and how the bound on the limbs grows |
| `Field25519.MulF` | trusted_core/src/dezhan-trusted_core-ed25519.adb:151-166 | for all limbs of magnitude below 2^18: the product modulo 2^255 - 19, fully carried, with no intermediate outside 64 bits |
| `Field25519.Inv25519` | trusted_core/src/dezhan-trusted_core-ed25519.adb:173-183 | the power 2^255 - 21 |
| `Field25519.Pow2523` | trusted_core/src/dezhan-trusted_core-ed25519.adb:185-195 | the power 2^252 - 3 |
| `Scalar25519.ClearColumn` | trusted_core/src/dezhan-trusted_core-ed25519.adb:264-274 | clearing one high column subtracts a multiple of the order and leaves small columns |
| `Scalar25519.ModL` | trusted_core/src/dezhan-trusted_core-ed25519.adb:261-287 | for all columns that Reduce and Sign produce: the 32 bytes are the number modulo L, below L, with no 64-bit overflow |
| `Edwards.AddOnCurve` | trusted_core/src/dezhan-trusted_core-ed25519.adb:197-218 | the sum of two points on the curve is on the curve |
| `Edwards.AddNegate` | trusted_core/src/dezhan-trusted_core-ed25519.adb:300-334 | a point and its negative add up to the identity |
| `Edwards.SignatureEquation` | trusted_core/src/dezhan-trusted_core-ed25519.adb:461-467 | h(-A) + ((r + ha) mod L)B = rB for A = aB and a base of order L |
| `Curve25519.AddPt` | trusted_core/src/dezhan-trusted_core-ed25519.adb:197-218 | the limb code computes the unified extended-coordinates addition, in a range that is closed under it |
| `Curve25519.SumStands` | trusted_core/src/dezhan-trusted_core-ed25519.adb:197-218 | coordinates that stand for two curve points give coordinates that stand for their sum |
| `Curve25519.Cswap` | trusted_core/src/dezhan-trusted_core-ed25519.adb:220-225 | swaps two points when the bit is 1 |
| `Curve25519.Scalarmult` | trusted_core/src/dezhan-trusted_core-ed25519.adb:237-251 | the ladder keeps its two rungs one apart and returns the scalar multiple |
| `PointCode.Unpack25519` | trusted_core/src/dezhan-trusted_core-ed25519.adb:129-135 | the field element in the low 255 bits |
| `PointCode.Differ` | trusted_core/src/dezhan-trusted_core-ed25519.adb:114-120 | true exactly when the elements are not congruent modulo P |
| `PointCode.Par25519` | trusted_core/src/dezhan-trusted_core-ed25519.adb:122-127 | the low bit of the residue below P |
| `PointCode.PackPoint` | trusted_core/src/dezhan-trusted_core-ed25519.adb:227-235 | the encoding of the curve point that the coordinates stand for |
| `PointCode.CandidateIsRoot` | trusted_core/src/dezhan-trusted_core-ed25519.adb:309-318 | for an ordinate of the curve, the candidate root solves the equation up to sign |
| `PointCode.SquareRoot` | trusted_core/src/dezhan-trusted_core-ed25519.adb:309-328 | finds a root exactly when there is one |
| `PointCode.EncodingNames` | trusted_core/src/dezhan-trusted_core-ed25519.adb:227-235 | the encoding of a point names that point |
| `PointCode.NamesOnce` | trusted_core/src/dezhan-trusted_core-ed25519.adb:300-334 | 32 bytes name at most one point |
| `PointCode.Unpackneg` | trusted_core/src/dezhan-trusted_core-ed25519.adb:300-334 | for all 32 bytes, reduced ordinate or not: succeeds exactly when they name a curve point, and returns its negative |
| `Ed25519.Reduce` | trusted_core/src/dezhan-trusted_core-ed25519.adb:289-298 | the digest as a number modulo L |
| `Ed25519.Scalarbase` | trusted_core/src/dezhan-trusted_core-ed25519.adb:253-259 | the scalar multiple of the base point |
| `Ed25519.PublicKey` | trusted_core/src/dezhan-trusted_core-ed25519.adb:353-365 | the encoding of aB, as in section 5.1.5 of RFC 8032 |
| `Ed25519.ResponseColumns` | trusted_core/src/dezhan-trusted_core-ed25519.adb:413-424 | the schoolbook columns of r + ha, within the range that ModL takes |
| `Ed25519.Sign` | trusted_core/src/dezhan-trusted_core-ed25519.adb:367-431 | the signature of section 5.1.6 of RFC 8032, byte for byte; `Signatures.SignatureIs` writes out what is hashed |
| `Ed25519.Verify` | trusted_core/src/dezhan-trusted_core-ed25519.adb:433-468 | for every key, message and signature: accepts exactly when the key names a point and the equation of section 5.1.7 of RFC 8032 holds for it; `Signatures.OtherMessage` says what binds the message |
| `Signatures.CurveNumbers` | trusted_core/src/dezhan-trusted_core-ed25519.adb:36-61 | d is -121665/121666, the base point has ordinate 4/5 and an even abscissa, and the order and the modulus are those of section 5.1 of RFC 8032 |
| `Signatures.SecretIs` | trusted_core/src/dezhan-trusted_core-ed25519.adb:345-351 | the secret scalar is the low 254 bits of the digest of the seed without the lowest three, and bit 254 |
| `Signatures.SignatureIs` | trusted_core/src/dezhan-trusted_core-ed25519.adb:367-431 | for every seed and message, with every hashed byte string written out: the nonce hashes the upper half of the digest of the seed and the message, the challenge hashes commitment, key and message |
| `Signatures.OtherMessage` | trusted_core/src/dezhan-trusted_core-ed25519.adb:433-468 | a signature accepted for one message is accepted for another exactly if the digests of commitment, key and message give the same multiple of the public point |
| `Signatures.MessageMatters` | trusted_core/src/dezhan-trusted_core-ed25519.adb:433-468 | for any two different messages and any seed there is a hash under which the signature of the one is accepted and rejected for the other |
| `Ed25519.SignatureIsAccepted` | trusted_core/src/dezhan-trusted_core-ed25519.adb:367-468 | every signature of the scheme is accepted under the public key of its seed |
| `Ed25519.SignThenVerify` | trusted_core/src/dezhan-trusted_core-ed25519.adb:367-468 | Verify accepts the output of Sign, for every seed and message |
| `Ed25519.ResponseModuloOrder` | trusted_core/src/dezhan-trusted_core-ed25519.adb:433-468 | acceptance depends on the response only modulo L, for every key, message and commitment |
| `Ed25519.ShiftedResponse` | trusted_core/src/dezhan-trusted_core-ed25519.adb:433-468 | adding L to the response, where that fits, gives other bytes that are accepted exactly if the first are: the code does not ask for S < L as section 5.1.7 of RFC 8032 does |
| `Cipher.XCrypt` | trusted_core/src/dezhan-trusted_core-cipher.adb:81-102 | byte i is xored with byte i mod 64 of the block at counter plus i div 64, modulo 2^32 |
| `Cipher.KeystreamBlocks` | trusted_core/src/dezhan-trusted_core-cipher.adb:81-102 | encrypting zeros gives the blocks of the block function, one counter after the other |
| `Cipher.CryptBoth` | trusted_core/src/dezhan-trusted_core-cipher.adb:81-102 | the exclusive or of two outputs is that of the two inputs |
| `Cipher.CryptedTwice` | trusted_core/src/dezhan-trusted_core-cipher.adb:81-102 | encrypting twice gives the data back |
| `Cipher.KeystreamsDisjoint` | storage/src/dezhan-storage-cas.adb:47-48 | two different bytes of one object never use the same keystream byte |
| `Layout.StoredByte` | storage/src/dezhan-storage-cas.adb:552-576 | byte i of the stored blob of chunk c is that byte of the payload xored with byte i mod 64 of the block at 128c + i div 64 under the encryption key and the nonce of the object |
| `Layout.CipherOnDisk` | storage/src/dezhan-storage-cas.adb:268-317 | the data shards of a chunk, as they are written, hold the payload under the keystream |
| `Layout.KeystreamUsedOnce` | storage/src/dezhan-storage-cas.adb:41-48 | no two bytes of an object are under the same byte of the keystream |
| `Layout.DataFile` | storage/src/dezhan-storage-cas.adb:282-304 | a data shard holds its 1024 bytes of the blob, padded with zeros |
| `Layout.ParityFile` | storage/src/dezhan-storage-cas.adb:282-304 | a parity shard holds the sums of the data bytes with the coefficients of its row |
| `Layout.IndexFile` | storage/src/dezhan-storage-cas.adb:289-315 | the index holds the length, the numbers of shards and the digest of every shard |
| `Layout.ManifestFile` | storage/src/dezhan-storage-cas.adb:20-27 | the manifest holds the lengths of payload and data in eight bytes each, most significant first, the flag and the nonce |
| `Layout.ManifestSlot` | storage/src/dezhan-storage-cas.adb:568-573 | slot c of the manifest is the digest of the stored blob of chunk c |
| `Layout.ManifestNamed` | storage/src/dezhan-storage-cas.adb:676-687 | the name of an object is the digest of its manifest, and its tag is a code over that name |
| `Shards.IndexRoundTrip` | storage/src/dezhan-storage-cas.adb:288-315 | the index file reads back: length, shard counts and every digest |
| `Shards.StoreShards` | storage/src/dezhan-storage-cas.adb:268-317 | the files are the K data shards, two parity shards and the index |
| `Shards.ReadShards` | storage/src/dezhan-storage-cas.adb:322-382 | returns the blob exactly when at least K shards are as they were stored, else reports corruption |
| `Shards.RepairShards` | storage/src/dezhan-storage-cas.adb:388-458 | recoverable exactly when K good shards are left; then every shard is bit-identical to the stored one and the number rewritten is the number that was bad; otherwise nothing changes |
| `Shards.RestoredIsWhole` | storage/src/dezhan-storage-cas.adb:384-387 | after a repair all shards are good, the content is the same and there is nothing left to repair |
| `Shards.TwoLossesAreRecoverable` | storage/src/dezhan-storage-cas.adb:34-40 | with at most two bad shards a blob can be recovered |
| `ObjectFormat.ManifestRoundTrip` | storage/src/dezhan-storage-cas.adb:245-259 | a manifest reads back: lengths, flag, nonce and every chunk digest |
| `ObjectFormat.ManifestFits` | storage/src/dezhan-storage-cas.adb:540-542 | the single-manifest limit is 255 chunks; objects up to 2000000 bytes always fit |
| `ObjectFormat.ChunksJoin` | storage/src/dezhan-storage-cas.adb:552-560 | consecutive chunks make up the payload |
| `ObjectFormat.DeriveNonce` | storage/src/dezhan-storage-cas.adb:60-105 | the loop computes the nonce whose laws follow |
| `ObjectFormat.RollingInjective` | storage/src/dezhan-storage-cas.adb:57-82 | payloads have the same rolling digest exactly if they are the same, unless strings hashed for them collide or one hashes to zero |
| `ObjectFormat.NoncesDistinct` | storage/src/dezhan-storage-cas.adb:50-56 | distinct payloads get distinct nonces exactly if their authentication codes differ in the first 96 bits |
| `ObjectFormat.CutLosesNonces` | storage/src/dezhan-storage-cas.adb:101-103 | for any two payloads with different digests there is a code that tells them apart but not in the first 96 bits |
| `ObjectFormat.KeysApart` | storage/src/dezhan-storage-cas.adb:29-31 | the keys for encryption and for tags are codes over different labels |
| `ContentStore.ChoosePayload` | storage/src/dezhan-storage-cas.adb:505-537 | the compressed form is stored exactly when a prefix of 131072 bytes shrinks and the whole does |
| `ContentStore.Store.StoreChunk` | storage/src/dezhan-storage-cas.adb:268-317 | a blob is written with all its shards under its digest, unless a directory of that name is there; every other directory is as before |
| `ContentStore.Store.StoreManifest` | storage/src/dezhan-storage-cas.adb:677-686 | the manifest likewise, and its tag is that of the key whether it was there or not |
| `ContentStore.Store.Put` | storage/src/dezhan-storage-cas.adb:501-688 | stores exactly when the payload fits 255 chunks, else changes nothing; the chunks and the manifest of the object are then there, those that were not before with all their shards, those that were with the shards they had, and nothing else is new or changed; the object is on disk, unless two byte strings hashed so far collide; all objects stored before stay, except for the tag of the same id under another key |
| `ContentStore.ReadableAfter` | storage/src/dezhan-storage-cas.adb:268-317 | after blobs were stored, one can be read exactly if it was not there before or could be read then |
| `ContentStore.Store.DoChunk` | storage/src/dezhan-storage-cas.adb:552-576 | stores the shards of the encrypted chunk under its digest, if it is not there, touches no other directory, and writes exactly its manifest slot |
| `ContentStore.Store.Load` | storage/src/dezhan-storage-cas.adb:694-780 | for an object on disk: its data if every blob is recoverable, corruption if not; never its data under a key with another tag |
| `ContentStore.Store.Get` | storage/src/dezhan-storage-cas.adb:782-785 | returns the data exactly when the manifest and all chunks are recoverable |
| `ContentStore.Store.Verify` | storage/src/dezhan-storage-cas.adb:787-799 | true exactly when the manifest and all chunks are recoverable, without a key |
| `ContentStore.Store.Repair` | storage/src/dezhan-storage-cas.adb:460-499 | restores every recoverable blob of the object, leaves the others and all other directories alone, reports exactly whether all were recoverable, and by how many the good shards of the store increase |
| `ContentStore.Store.RepairTwice` | storage/src/dezhan-storage-cas.adb:460-499 | a second repair rewrites no shard |
| `ContentStore.RepairKeeps` | storage/src/dezhan-storage-cas.adb:460-499 | a repair keeps every object on disk, and what can be read |
| `ContentStore.ObjectsSurvive` | storage/src/dezhan-storage-cas.adb:322-382 | losing or corrupting up to two shards of every blob loses no object |
| `ContentStore.Store.CollectGarbage` | storage/src/dezhan-storage-cas.adb:804-904 | what is left is exactly the live manifests and the chunks that readable live manifests list; the count is the number of directories removed |
| `ContentStore.LiveObjectsStay` | storage/src/dezhan-storage-cas.adb:804-904 | a live object with a readable manifest keeps its manifest, tag and chunks, with the shards they had |
| `ContentStore.CollectTwice` | storage/src/dezhan-storage-cas.adb:804-904 | a second collection removes nothing |
| `ParallelPut.HandedOutOnce` | storage/src/dezhan-storage-cas.adb:610-649 | in every interleaving no index is with two workers or handed out after it is done |
| `ParallelPut.EveryRunIsSequential` | storage/src/dezhan-storage-cas.adb:602-673 | in every interleaving of any number of workers that ends without a failure all chunks are stored and the manifest is that of the sequential loop |
| `ParallelPut.ParallelManifest` | storage/src/dezhan-storage-cas.adb:583-673 | for every object: that manifest is the one that a put stores |
| `Objects.PutObject` | vault/src/dezhan-vault.adb:516-602 | an object of any size is stored, as one manifest or as parts of 900000 bytes; blobs that were there keep their shards, new ones have all of theirs, and only the manifests of the object are new or get another tag |
| `Objects.StoreComposite` | vault/src/dezhan-vault.adb:546-575 | the parts and their list are stored, in order; what was there keeps its shards, and what is new has all of them |
| `Objects.GetObject` | vault/src/dezhan-vault.adb:604-665 | succeeds exactly when every piece is readable and fits the recorded size, and returns the content exactly when that size is right, else the content and bytes up to that size; it is corrupt if a part is missing |
| `Objects.UploadPart` | vault/src/dezhan-vault.adb:693-717 | stores the part under its number, with all shards of what is new and those that were there, or changes nothing if it is too large; the running total stays the sum of the part sizes exactly when the number is new or the replaced part is as long |
| `Objects.CompleteUpload` | vault/src/dezhan-vault.adb:719-756 | the object is the parts in ascending order of their numbers, unless their list is too long; only the list is stored, the parts keep their shards |
| `Objects.KeptReadableAfter` | vault/src/dezhan-vault.adb:516-665 | an object that was put can be read exactly if every blob of it that was on disk before could be read then |
| `Objects.WholeObjectsSurvive` | vault/src/dezhan-vault.adb:604-665 | losing up to two shards of every blob loses no object |
| `Objects.LiveIds` | vault/src/dezhan-vault.adb:1092-1115 | the live ids are exactly those of the index objects with the parts on their lists, and of uploads and versions without any; none exactly when a list is unreadable |
| `Objects.CollectVaultGarbage` | vault/src/dezhan-vault.adb:1071-1127 | what is left is exactly what these ids reach, and the count is exact; it stops before removing anything exactly when the list of a composite object is unreadable |
| `Objects.CollectionSpares` | vault/src/dezhan-vault.adb:1071-1127 | what could be read of the index, the uploads and single versions can be read after a collection |
| `Objects.CollectVaultTwice` | vault/src/dezhan-vault.adb:1071-1127 | a second collection of the same vault removes nothing |
| `Objects.KeptByCollection` | vault/src/dezhan-vault.adb:1071-1127 | an object that can be read is kept exactly if its id and all ids on its list are live |
| `ObjectRuns.CollectVersion` | vault/src/dezhan-vault.adb:1110-1115 | for every index, uploads and versions, and every object known only as a version: after a collection it reads back exactly if all its parts are needed by something else, and is corrupt if not |
| `ObjectRuns.LargeVersionIsLost` | vault/src/dezhan-vault.adb:1110-1115 | every object of more than 2000000 bytes, put on a new store and left only as a version, is corrupt after a collection |
| `ObjectRuns.GetVersion` | vault/src/dezhan-vault.adb:895-901 | a version reads as the object that it has the id of: of a composite object the list of its parts |
| `ObjectRuns.PutThenGetVersion` | vault/src/dezhan-vault.adb:886-904 | what is put reads back as a version exactly if it has at most 2000000 bytes; else the list does, which is shorter |
| `ObjectRuns.GetAfterLoss` | vault/src/dezhan-vault.adb:604-665 | an object that was on disk reads back as its content, whichever two shards of every blob are missing or damaged by now |
| `ObjectRuns.PutThenGet` | vault/src/dezhan-vault.adb:516-665 | what is put reads back, for every size, exactly if every blob of it that was on disk before the put could be read then, and is corrupt if not |
| `ObjectRuns.PutInNewStore` | vault/src/dezhan-vault.adb:516-665 | what is put in a new store reads back, for every key and size |
| `ObjectRuns.PutOverDamage` | storage/src/dezhan-storage-cas.adb:274-276 | a byte that is put, loses the shards of its manifest and is put again is corrupt |
| `ObjectRuns.UploadThenGet` | vault/src/dezhan-vault.adb:604-756 | parts sent with any numbers in any order, completed and read back, unless one or the list is refused: the last part of every number, in ascending order; it reads back exactly if every blob that was on disk before could be read then and the counted bytes, those of the first part of every number, are as many |
| `ObjectRuns.SentByNumber` | vault/src/dezhan-vault.adb:693-717 | parts with distinct numbers, in any order, are all there under their numbers |
| `ObjectRuns.AllCounted` | vault/src/dezhan-vault.adb:693-717 | if no number is sent twice the counted bytes are those of the parts |
| `ObjectRuns.UploadInTurn` | vault/src/dezhan-vault.adb:604-756 | parts sent without numbers read back as their concatenation |
| `ObjectRuns.PartSentTwice` | vault/src/dezhan-vault.adb:711-714 | a part sent again: a longer one makes the object corrupt, a shorter one makes it read back at the length of the first |
| `ObjectRuns.ScrubObjects` | vault/src/dezhan-vault.adb:1019-1026 | a scrub repairs exactly the single objects and the lists of the index, and passes an object exactly if that one object is recoverable, whatever its parts |
| `ObjectRuns.ScrubMissesParts` | vault/src/dezhan-vault.adb:1019-1026 | every object of more than 2000000 bytes whose parts have lost their shards passes a scrub and is corrupt |
| `ObjectRuns.ScrubRestores` | vault/src/dezhan-vault.adb:1019-1026 | after a scrub every shard of the objects that passed is as stored; the manifest of a part is as it was |
| `Audit.HashOf` | trusted_core/src/dezhan-trusted_core-audit.adb:7-38 | the buffer is the 89-byte serialization and the result its hash |
| `Audit.SerialInjective` | trusted_core/src/dezhan-trusted_core-audit.adb:26-37 | the serialization determines every hashed field |
| `Audit.SerialParts` | trusted_core/src/dezhan-trusted_core-audit.adb:26-37 | what is hashed: sequence number, time and detail in eight bytes each, most significant first, the kind, the subject and the previous hash, in this order |
| `Audit.GenesisEntry` | trusted_core/src/dezhan-trusted_core-audit.adb:40-52 | a valid genesis entry |
| `Audit.Append` | trusted_core/src/dezhan-trusted_core-audit.adb:54-72 | the new entry links to the last one |
| `Audit.VerifyChain` | trusted_core/src/dezhan-trusted_core-audit.adb:74-91 | true exactly for a genesis entry followed by links |
| `Audit.SequenceCounts` | trusted_core/src/dezhan-trusted_core-audit.ads:66-76 | in a valid chain entry i has sequence number i |
| `Audit.HeadBindsHistory` | trusted_core/src/dezhan-trusted_core-audit.adb:74-91 | two valid chains with the same head hash are equal in length and in every entry, unless the hash collides on what was hashed for them |
| `Audit.TamperingShows` | trusted_core/src/dezhan-trusted_core-audit.ads:113-127 | changing any past entry in any field makes the chain invalid |
| `TrustedTime.Tick` | trusted_core/src/dezhan-trusted_core-clock_guard.adb:12-67 | the branches compute the floor, the anomaly and the sticky seal whose laws on the readings follow |
| `TrustedTime.TickSeals` | trusted_core/src/dezhan-trusted_core-clock_guard.adb:30-67 | one reading, in terms of it and the one before: when it seals, and which anomaly it is |
| `TrustedTime.FloorCounts` | trusted_core/src/dezhan-trusted_core-clock_guard.ads:37-52 | after any readings the floor is the start plus the monotonic time counted, saturating |
| `TrustedTime.WallClockIrrelevant` | trusted_core/src/dezhan-trusted_core-clock_guard.ads:45-47 | readings that differ only in the wall clock give the same floor |
| `TrustedTime.SealedByAlarm` | trusted_core/src/dezhan-trusted_core-clock_guard.adb:25-67 | after any readings the guard is sealed exactly when it was before, or from some reading to the next, without a reboot, the monotonic clock went back or the wall clock is further than the tolerance from where the monotonic clock puts it |
| `Worm.FloorStep` | trusted_core/src/dezhan-trusted_core-clock_guard.ads:39-52 | in any operation the floor rises by at most what the monotonic clock reports, whatever the wall clock says |
| `Snapshot.Save` | vault/src/dezhan-vault.adb:279-323 | replaying the records of a snapshot gives the state back; its audit records are the log |
| `Vault.Load` | vault/src/dezhan-vault.adb:482-499 | snapshot and journal are replayed in order |
| `VaultState.ReplayAppend` | vault/src/dezhan-vault.adb:482-499 | replaying two pieces is replaying them one after the other |
| `VaultState.CrashRecovery` | vault/src/dezhan-vault.adb:309-319 | replaying any old journal over a newer snapshot: log, index and versions each come back exactly if the journal has no entry numbered one past the log, its last records about names agree with the index, and all its versions are known; the counter is that of its last counter record |
| `VaultState.LogAfterReplay` | vault/src/dezhan-vault.adb:462-478 | a replay only adds to the log, and leaves it alone exactly if no audit record is numbered one past its end |
| `VaultState.HistoryAfterReplay` | vault/src/dezhan-vault.adb:413-436 | a replay only adds to a history, and only versions that records name |
| `VaultState.ReplayTwice` | vault/src/dezhan-vault.adb:376-380 | replaying a journal twice is replaying it once, exactly if none of its entries is numbered one past the log that the first replay leads to |
| `VaultState.SecondReplayAdds` | vault/src/dezhan-vault.adb:462-478 | two entries in the wrong order: the second replay adds the one that the first left out |
| `VaultState.LastRecordWins` | vault/src/dezhan-vault.adb:437-461 | after a replay each name has what the last record about it left |
| `Vault.Vault.constructor` | vault/src/dezhan-vault.adb:501-514 | an empty disk gives a log with a genesis entry |
| `Vault.Vault.SaveAll` | vault/src/dezhan-vault.adb:279-323 | the disk has the state in memory and the journal is empty |
| `Vault.Vault.CommitJrnl` | vault/src/dezhan-vault.adb:335-356 | the disk has the state in memory: by an append, or by a snapshot past the limit |
| `Vault.Vault.AddAudit` | vault/src/dezhan-vault.adb:143-155 | the log is one entry longer and still a valid chain |
| `Vault.Vault.PutObject` | vault/src/dezhan-vault.adb:594-601 | index, log and journal after a put, or the refusal; snapshot plus journal rebuild the state |
| `Vault.Vault.DeleteObject` | vault/src/dezhan-vault.adb:1129-1156 | deletes or refuses as `VaultSteps.DeleteDecides` says and records either outcome; snapshot plus journal rebuild the state |
| `Vault.Vault.CreateBucket` | vault/src/dezhan-vault.adb:799-808 | adds a bucket, or the refusal |
| `Vault.Vault.DeleteBucket` | vault/src/dezhan-vault.adb:816-836 | removes a bucket that no object name is in, or the refusal |
| `Vault.Vault.SetVersioning` | vault/src/dezhan-vault.adb:848-853 | sets the flag and saves |
| `Vault.Vault.RecordVersion` | vault/src/dezhan-vault.adb:859-884 | appends a version with a new id; snapshot plus journal rebuild the state |
| `Vault.Vault.DeleteMarker` | vault/src/dezhan-vault.adb:906-939 | drops the name and appends a delete marker; snapshot plus journal rebuild the state |
| `Vault.Vault.DeleteVersion` | vault/src/dezhan-vault.adb:941-985 | removes the version and repoints the name to the newest one left |
| `Vault.Vault.Scrub` | vault/src/dezhan-vault.adb:1015-1058 | quarantines and releases, with one commit for the whole pass |
| `Vault.Vault.TickClock` | vault/src/dezhan-vault.adb:1158-1183 | the first reading sets the baseline; a new seal is audited and saved |
| `Vault.Vault.SetLegalHold` | vault/src/dezhan-vault.adb:1185-1215 | sets or releases the hold, audited and saved |
| `Vault.Vault.TickFromSystem` | vault/src/dezhan-vault.adb:1221-1232 | a reading with the boot id, which is saved when it changes |
| `Vault.Vault.Seal` | vault/src/dezhan-vault.adb:1234-1241 | the operator's seal, audited and saved once |
| `Vault.Vault.SetModes` | vault/src/dezhan-vault.adb:1243-1262 | the ingest and sync modes, saved |
| `Vault.Vault.Reopen` | vault/src/dezhan-vault.adb:482-514 | if there is a snapshot, opening gives exactly the durable state that was in memory; if not, it starts over, and the journal stays |
| `Vault.Vault.CrashInSave` | vault/src/dezhan-vault.adb:279-323 | a save that stops before the journal is emptied, and the next start: with a snapshot before it the log is exact, and all of the state is exactly if the journal agrees with it |
| `Vault.Vault.CrashInHold` | vault/src/dezhan-vault.adb:1185-1199 | after a crash while a hold is set, the hold is there exactly if the journal did not mention the object |
| `Vault.StaleJournal` | vault/src/dezhan-vault.adb:507-513 | put a, put b, reopen without a snapshot, put c, crash in the first save: a and b are back, and the log has an entry of the dead session, so that it is a chain only if two entries have the same hash |
| `VaultSteps.DeleteDecides` | vault/src/dezhan-vault.adb:1129-1156 | a delete removes the name, and nothing else, exactly when the vault is not sealed, the log has room, the object is not on hold, and its time is over or it has a governance lock that is bypassed |
| `VaultSteps.NewestIs` | vault/src/dezhan-vault.adb:960-976 | the newest version is the last that is not a delete marker |
| `VaultSteps.DeleteIsRecorded` | vault/src/dezhan-vault.adb:1129-1156 | either decision is the newest entry of the log; without a decision nothing changes |
| `VaultSteps.MarkerUndone` | vault/src/dezhan-vault.adb:906-985 | deleting a delete marker restores the history; the index is as before exactly when the name stood for its newest version, single, not quarantined, with an expired governance lock |
| `VaultSteps.NextKeepsInv` | vault/src/dezhan-vault.adb:143-155 | every operation keeps the log a valid chain and the versions ordered, and only adds to the log, except a start without a snapshot |
| `VaultSteps.RunKeepsInv` | vault/src/dezhan-vault.adb:462-478 | after any run the log verifies and entry i has sequence number i |
| `Worm.LockedStep` | vault/src/dezhan-vault.adb:1129-1156 | in a step a name stands for the same object, with the same id, size and metadata, under the same lock, exactly if the operation does not replace it and is not a delete of an object off hold that bypasses a governance lock or comes at a clock past the retention time; a put replaces it unless object, mode and end are the same |
| `Worm.RetentionHolds` | vault/src/dezhan-vault.adb:1129-1215 | until the monotonic deltas of a run sum to its retention time, an object under a governance or compliance lock is there and locked throughout the run, with the same id, size and metadata, exactly if no operation replaces it, no delete bypasses a governance lock, and no delete before a session's first reading meets a snapshot clock past the retention time |
| `Worm.ClosedRefuses` | vault/src/dezhan-vault.adb:118-126 | a sealed or closed vault refuses puts and changes of its buckets, a sealed one deletes as well, and nothing changes |
| `Worm.SealStep` | vault/src/dezhan-vault.adb:1234-1241 | only the operator seals the vault, and only starting over without a snapshot unseals it |
| `Worm.SealHolds` | vault/src/dezhan-vault.adb:1234-1241 | once sealed, a vault stays sealed in every run, unless it starts over without a snapshot |
| `Worm.SettingsStep` | vault/src/dezhan-vault.adb:799-853 | what each operation does to the buckets, the versioning flags, the modes and the boot id: an open vault creates a new bucket and deletes an empty one |
| `AuditRuns.AuditStep` | vault/src/dezhan-vault.adb:516-1241 | exactly what each of the fifteen operations adds to the audit log: kind, subject, detail and time |
| `AuditRuns.AuditTrail` | vault/src/dezhan-vault.adb:516-1241 | after every run the log says exactly what the operations decided, in their order |
| `AuditRuns.SubjectTells` | vault/src/dezhan-vault.adb:128-137 | the subject of an entry is a digest of the name: for any two names there is a hash that tells their entries apart |
| `Worm.HoldHolds` | trusted_core/src/dezhan-trusted_core-retention.ads:100-110 | an object on hold stays on hold, and the same object, in every run, up to the first operation that releases or replaces it, and no further; deletes never do |
| `Worm.EntryStep` | trusted_core/src/dezhan-trusted_core-retention.ads:100-110 | what each of the fifteen operations does to every name, its object, its lock and its quarantine, from what is known before it: a put needs an open vault, a scrub quarantines exactly what its last repair could not restore |
| `Worm.ReopenKeeps` | vault/src/dezhan-vault.adb:501-514 | opening keeps the durable state exactly when there is a snapshot or nothing to keep |
| `Worm.LostWithoutSnapshot` | vault/src/dezhan-vault.adb:507-513 | an object put before the first snapshot is gone after opening again |
| `Worm.DeleteBeforeReading` | vault/src/dezhan-vault.adb:1165-1170 | a run from an empty disk: a compliance object put at time 0 for ten seconds is deleted right after opening, with no time passed |
| `Worm.LocksAreBypassed` | vault/src/dezhan-vault.adb:594-599 | runs from an empty disk: a second put, a delete marker and the deletion of the only version each end a compliance lock at once; a put with the same lock puts another object in its place |
| `Worm.MarkerUndoneUnlocks` | vault/src/dezhan-vault.adb:906-985 | a run from an empty disk: a delete marker and its deletion bring a compliance object back without its lock |
| `Versions.HistoryStep` | vault/src/dezhan-vault.adb:859-985 | what each operation does to the versions of every name |
| `Versions.VersionStep` | vault/src/dezhan-vault.adb:942-985 | a version goes in a step exactly if it is deleted itself, or the vault starts over without a snapshot |
| `Versions.VersionRemains` | vault/src/dezhan-vault.adb:859-985 | a version stays in every run up to the first operation that drops it, and no further |
| `Versions.RecordedIsFetched` | vault/src/dezhan-vault.adb:859-904 | a recorded version is read as the object that the name stood for, after every run in which it is not dropped, unless egress is denied |
| `Records.Field` | vault/src/dezhan-vault.adb:213-235 | the nested scans return the n-th blank-separated field |
| `Records.HexRoundTrip` | vault/src/dezhan-vault.adb:164-186 | hexadecimal digits read back |
| `Records.TextRoundTrip` | vault/src/dezhan-vault.adb:188-210 | names and texts in hexadecimal read back |
| `Records.DecimalRoundTrip` | vault/src/dezhan-vault.adb:241-274 | decimal numbers read back |
| `Records.LineRoundTrip` | vault/src/dezhan-vault.adb:240-480 | every record with a non-empty name is read back from its line |
| `Records.ObjectLine` | vault/src/dezhan-vault.adb:261-270 | the fields of an object line, in their order |
| `Records.LockLine` | vault/src/dezhan-vault.adb:261-270 | the fields of the lock, the flags and the size on it |
| `Records.VersionLine` | vault/src/dezhan-vault.adb:256-260 | the fields of a version line |
| `Records.EntryLine` | vault/src/dezhan-vault.adb:271-278 | the fields of an audit line |
| `Records.ReadsBackExactly` | vault/src/dezhan-vault.adb:240-480 | exactly which records are read back from their lines: all but a boot id with a blank, and those with an empty name whose fields move up |
| `Records.LineIsFeedless` | vault/src/dezhan-vault.adb:240-275 | every line is on one line, if the boot id is |
| `StateFile.FileRebuilds` | vault/src/dezhan-vault.adb:279-323 | reading a snapshot file line by line gives the state that its records stand for |
| `StateFile.TextRebuilds` | vault/src/dezhan-vault.adb:279-499 | the text of a snapshot and then that of a journal, split at line feeds and read, give the state that their records stand for |
| `StateFile.VaultFromText` | vault/src/dezhan-vault.adb:482-499 | for every vault with a snapshot, names that are not empty and a boot id of one word, the text on its disk gives the state in its memory |
| `StateFile.SaveAndLoad` | vault/src/dezhan-vault.adb:279-499 | the text of a snapshot, read back, is the state |
| `Verifier.Verify` | verifier/src/dezhan_verify.adb:124-169 | accepts exactly the files whose audit lines are readable and form a valid chain |
| `Verifier.SnapshotsAreAccepted` | verifier/src/dezhan_verify.adb:124-169 | in every snapshot file of a state that satisfies the invariant, whatever its names, the verifier finds exactly the log |
| `Verifier.SaveThenVerify` | verifier/src/dezhan_verify.adb:124-169 | the verifier accepts every snapshot that Save writes |

## Left out

- SHA-256, SHA-512, HMAC and the ChaCha20 rounds: parameters here; secrecy and collision resistance are not stated.
- The associativity of the Edwards addition, the primality of 2^255 - 19 and the order of the base point: hypotheses.
- Directory paths and hexadecimal object names: directories are keyed by the digest itself.
- Torn journal lines, a full disk and exceptions inside file operations: writes are whole; the one crash that is modelled is between the two writes of a save.
- Version ids are the counter values themselves, not their decimal text; a versioning flag that is off is the same as none.
- Vault.Vault.Scrub: takes the outcome of each repair as input; the repairs are those of `ObjectRuns.ScrubObjects`.
- Vault.Vault.PutObject: takes the id that `Objects.PutObject` returned.
- Objects.GetObject: starts after the guards for one-way ingest, presence and quarantine.
- ObjectRuns.GetVersion: starts after the guards for one-way ingest and presence, which are in `Versions.RecordedIsFetched`.
- Vault.Vault.TickFromSystem: when the audit log is full the new boot id is in memory only.
- VaultSteps.NextKeepsInv: an audit log of 2^31 entries makes the operation fail as a whole, where the code would stop midway.
- Objects.CollectVaultGarbage: takes the index, the uploads and the versions as lists.
- Records.ReadsBackExactly: text that is not a number reads as some number, where the code raises an exception.
- ContentStore.Store.Load: an index or manifest that is malformed counts as corruption, where the code raises other exceptions as well.
- ParallelPut: a worker stores its shards in one step; writing the digest is byte by byte.
- Signed checkpoints (`Make_Checkpoint` and its check): a signature over the head, which adds nothing to `Ed25519.SignThenVerify`.
- Extending retention: no operation of the vault uses it.
- Queries, listings, export and metrics: one-line functions of the state.
- The server, authentication, command line, Go tooling: clients and string plumbing.
