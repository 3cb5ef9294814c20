# DFIM integrity pipeline: a verified model

DFIM protects a boot image by splitting it into 4096-byte blocks, building a Merkle tree over their
digests, backing up the tree's root and dimensions with a Hamming(7,4) code, and writing all of it to
a sidecar. Later the image is validated against the sidecar: on the heap, in fixed buffers, or inside
the kernel on one scratch record with its own SHA-256. Around that pipeline stand a signed sidecar
with a release floor, a checksummed state database, crash-safe recovery of an image and its sidecar,
TPM attestation, a per-address rate limiter and an evaluation gate.

This project models those parts in Dafny and proves what they are for. `dafny verify dfyconfig.toml`
checks all of it.

## How the model is laid out

Each component has reference definitions (datatypes and functions that say what the answer is),
methods with the loops and the in-place updates of the code, proved equal to them, and lemmas that
say what the reference definitions mean.

| modules | component |
|---|---|
| `Basics`, `Observer` | bytes, error codes, image limits, hash collisions; the work cap |
| `Merkle`, `MerkleRoot` | building, proving, verifying, soundness and completeness; what a root binds |
| `HammingCode`, `Hamming`, `HammingBlock` | the code, its bit loops, the byte codec |
| `Partition`, `ProofCodec`, `Sidecar` | blocks; the v1 sidecar, printed and parsed |
| `Pipeline`, `BootImage`, `RootBinding` | what validation means; the heap builder and validator; when validation binds the root |
| `CompactValidate`, `KernelScratch` | the fixed-buffer and kernel forms |
| `Sha256`, `Sha256Facts`, `Sha256Abc` | FIPS 180-4; facts that pin it; its known answer for "abc" |
| `BpfSha256` | the workspace implementation |
| `SignedManifest`, `SignedImage` | the signed v2 sidecar |
| `StateDb`, `HostVerify` | the state database and the host's verify path |
| `Recovery` | recovery as a step protocol with I/O errors and crashes |
| `RateLimit`, `Attestation`, `EvalGate`, `Kdf` | the remaining components |

Conventions:

- The hash is a parameter `H` from byte strings to 32-byte digests, so every theorem above SHA-256
  holds of every hash. No injectivity is assumed. Soundness reads "equal, or the strings that this
  very computation hashed contain two different ones with one digest": `CollisionIn(H, inputs)`,
  where `inputs` is exactly the set of strings the build and the verification hash.
- ECDSA is an abstract record of functions. One law is assumed, and only where a lemma requires
  `Correct()`: what a usable private key signs, its public key verifies.
- Where the code returns an error code the model returns the same one. Preconditions on lengths say
  only that a Rust slice holds at most `isize::MAX` bytes.
- File contents, clock readings, process identifiers, hasher and faults are inputs.

Three statements in the repository's own comments are not what its code does. The model follows
the code:

- Strict Hamming decoding is described as rejecting multi-bit corruption. It rejects exactly the
  words whose syndrome points past the codeword (`HammingCode.StrictRejectsExactly`); some double
  flip is accepted with wrong data at every width (`Hamming.SomeDoubleFlipIsAccepted`); and at width
  4, the one the sidecar uses, nothing is ever rejected (`HammingCode.PerfectCodeAcceptsAll`). Such damage is caught by the comparison
  with the header (`Pipeline.TwoFlipsInOneByteAreRejected`).
- Metadata resolution carries a "corrected" flag and uses an error-correcting code, but never repairs
  a header: any disagreement is rejected and the flag is always false
  (`Pipeline.MetadataResolvesExactly`, `Pipeline.AcceptedMeans`).
- The width limit of 247 data bits does not fit the 64-bit words of the codec; 57 is the largest that
  does (`HammingCode.ParityBitsIsLeast`).

## Model

| member | source | states |
|---|---|---|
| `Merkle.AcceptsExactly` | dfim_core_engine/src/merkle.rs:47-188 | what the verifier accepts, exactly: at every index, in range or not, the block standing there with its own sibling path, and any other block of any length but 64 with any proof of any length only if the build and this verification hash two different strings to one digest |
| `Merkle.MerkleSoundness` | dfim_core_engine/src/merkle.rs:47-188 | any block not 64 bytes long accepted at an index, with any proof of any length, is the block standing at that index, below n the block at that index, or a collision |
| `Merkle.MerkleCompleteness` | dfim_core_engine/src/merkle.rs:100-188 | the honest proof of every block is accepted and has exactly Depth(n) steps |
| `Merkle.DepthIsCeilLog2` | dfim_core_engine/src/merkle.rs:63-79 | the number of layers above n leaves is the least d with 2^d >= n |
| `Merkle.DepthOfBootImage` | dfim_core_engine/src/merkle.rs:100-129 | at most 6 steps for the 64 blocks a boot image may have |
| `Merkle.PathLeadsToRoot` | dfim_core_engine/src/merkle.rs:100-129 | at every index the path of the leaf standing there climbs to the root, in as many steps as the tree is deep |
| `Merkle.SourceInRange` | dfim_core_engine/src/merkle.rs:69-73 | below n the leaf standing at an index is the one with that index |
| `Merkle.ClimbReachesSource` | dfim_core_engine/src/merkle.rs:167-188 | a proof of the tree's depth that ends at its root started at the leaf standing at that index and is that leaf's path: proofs are unique, or a collision |
| `Merkle.LongClimb` | dfim_core_engine/src/merkle.rs:167-188 | a proof longer than the tree is deep constructs a 64-byte string that hashes to a leaf digest, or a collision |
| `Merkle.ShortClimb` | dfim_core_engine/src/merkle.rs:167-188 | a shorter proof constructs a 64-byte string that hashes to the block's digest, or a collision |
| `Merkle.ParentLengthBlockIsAccepted` | dfim_core_engine/src/merkle.rs:135-188 | why block length matters: in every tree of two or more blocks the 64 bytes of any two sibling leaves are accepted as a block in the place of one of another length |
| `Merkle.ClimbInjective` | dfim_core_engine/src/merkle.rs:167-188 | two proofs of one length end at one digest only from one start by one path, or a collision |
| `Merkle.ProofPinsBlock` | dfim_core_engine/src/merkle.rs:167-188 | for any root, even one no tree has, an index accepts at most one block and one proof of each length, or a collision |
| `MerkleRoot.SameRootExactly` | dfim_core_engine/src/merkle.rs:47-87 | two lists of blocks, none of 64 bytes, have one root exactly when repeating last nodes layer by layer completes them to the same list, or the two builds collide |
| `MerkleRoot.CompletedPrefix` | dfim_core_engine/src/merkle.rs:63-79 | completing keeps the blocks in front, and adds nothing exactly when their number is a power of two |
| `MerkleRoot.CompletedKeepsRoot` | dfim_core_engine/src/merkle.rs:63-79 | the completed list has the depth and the root of the list it came from |
| `MerkleRoot.GrowsUnderItsRootExactly` | dfim_core_engine/src/merkle.rs:69-73 | a list can grow at the same depth without a change of root exactly when its length is not a power of two |
| `MerkleRoot.RootAndCountFixBlocks` | dfim_core_engine/src/merkle.rs:47-87 | root and block count together fix the blocks, or the two builds collide |
| `MerkleRoot.RootIsTopDown` | dfim_core_engine/src/merkle.rs:47-87 | the loops over layers compute the recursive root of the completed list: blocks hashed as they are, the left half before the right |
| `MerkleRoot.EqualRootsAgree` | dfim_core_engine/src/merkle.rs:63-87 | layers of equal depth with one root hold the same digest at every position, or a collision |
| `MerkleRoot.ShallowRoot` | dfim_core_engine/src/merkle.rs:63-87 | a shallower tree with the root of a deeper one yields a 64-byte string that hashes to its first leaf, or a collision |
| `MerkleRoot.FullClimbsBindRoot` | dfim_core_engine/src/merkle.rs:167-188 | when a power of two of leaves all climb to one digest in as many steps as the tree is deep, that digest is their own root, or a collision |
| `Merkle.ClimbIndexModulo` | dfim_core_engine/src/merkle.rs:167-188 | the verifier sees the index only modulo 2^(number of steps) |
| `Merkle.LayerTicksBound` | dfim_core_engine/src/merkle.rs:63-79 | the layers above n leaves cost at most 2n-2 units of work |
| `Merkle.HashLeaves` | dfim_core_engine/src/merkle.rs:53-58 | the leaf loop yields every block's digest in order and spends one unit each |
| `Merkle.HashLayer` | dfim_core_engine/src/merkle.rs:64-76 | one pass of the pairing loop yields the parent layer, the last node doubled when odd |
| `Merkle.BuildLayers` | dfim_core_engine/src/merkle.rs:60-79 | the outer loop yields all layers up to the root and spends exactly LayerTicks |
| `Merkle.Build` | dfim_core_engine/src/merkle.rs:47-87 | empty input is the only error; otherwise root and layers are the reference ones and at most 3n-2 of the 3n permitted units are spent, so the cap never fires |
| `Merkle.Prove` | dfim_core_engine/src/merkle.rs:100-129 | out of range is InvalidParameter; in range the proof is the sibling path, with no other error |
| `Merkle.VerifyProof` | dfim_core_engine/src/merkle.rs:167-188 | never an error; true exactly when the climb from the leaf ends at the root |
| `Observer.NewObserver` | dfim_core_engine/src/observer.rs:15-23 | a zero cap is refused, any other starts at zero |
| `Observer.PatternObserver.Tick` | dfim_core_engine/src/observer.rs:26-32 | counts one, saturating, and fails exactly when the cap is passed |
| `Observer.PatternObserver.Reset` | dfim_core_engine/src/observer.rs:42-44 | the count is zero again |
| `Basics.ValidateImageByteLen` | dfim_core_engine/src/boot_validate.rs:47-59 | accepts exactly 1 to 262144 bytes, which is then 1 to 64 blocks; its overflow branch never fires |
| `Basics.ValidateBlockCount` | dfim_core_engine/src/boot_validate.rs:36-44 | accepts exactly 1 to 64 blocks; none is a bad parameter, too many an overflow |
| `Basics.ToLEDigit` | dfim_core_engine/src/parser.rs:35-124 | byte i of a little-endian field is digit i of the number in base 256 |
| `Basics.ToBEDigit` | dfim_core_engine/src/bpf_sha256.rs:142-167 | byte i of a big-endian field is the digit counted from the other end |
| `HammingCode.ParityPositionIsPowerOfTwo` | dfim_core_engine/src/hamming.rs:39-41 | the bit trick finds exactly the powers of two |
| `HammingCode.ParityBitsIsLeast` | dfim_core_engine/src/hamming.rs:15-29 | the parity count is the least r with 2^r >= n+r+1, and n+r <= 64 exactly when n <= 57 |
| `HammingCode.DataCountOfTotal` | dfim_core_engine/src/hamming.rs:46-81 | exactly n of the n+r positions are data positions |
| `HammingCode.EncodedIsCodeword` | dfim_core_engine/src/hamming.rs:46-81 | an encoded word has every parity clear and carries its data |
| `HammingCode.CodewordIsEncodedData` | dfim_core_engine/src/hamming.rs:46-81 | every codeword is the encoding of its own data |
| `HammingCode.CodewordsWithEqualData` | dfim_core_engine/src/hamming.rs:46-81 | two codewords with the same data are equal |
| `HammingCode.CodewordsAreFarApart` | dfim_core_engine/src/hamming.rs:46-165 | no word is within one bit of two codewords: distinct ones differ in at least three bits |
| `HammingCode.ParityAfterFlip` | dfim_core_engine/src/hamming.rs:89-131 | flipping position k+1 flips exactly the parities named by the bits of k+1 |
| `HammingCode.ParityIsOddCount` | dfim_core_engine/src/hamming.rs:69-78 | a parity is set exactly when an odd number of the positions it covers are |
| `HammingCode.NatBitIsDigit` | dfim_core_engine/src/hamming.rs:72-76 | the bit test on a position is its digit in base two |
| `HammingCode.EncodedDataBit` | dfim_core_engine/src/hamming.rs:58-67 | data bits lie, in order, on the positions that are no power of two |
| `HammingCode.EncodedNibble` | dfim_core_engine/src/hamming.rs:46-81 | Hamming(7,4) spelled out bit by bit |
| `HammingCode.SyndromeZero` | dfim_core_engine/src/hamming.rs:89-131 | the syndrome is zero exactly when all parities are clear |
| `HammingCode.SyndromeLocatesFlip` | dfim_core_engine/src/hamming.rs:89-131 | a codeword with position k+1 flipped has syndrome k+1 |
| `HammingCode.SyndromeRepairs` | dfim_core_engine/src/hamming.rs:89-131 | flipping the position a syndrome names gives a codeword |
| `HammingCode.StrictMeaning` | dfim_core_engine/src/hamming.rs:134-165 | strict decoding accepts exactly the words within one bit of a codeword, and the data is that codeword's |
| `HammingCode.StrictRejectsExactly` | dfim_core_engine/src/hamming.rs:134-165 | it rejects exactly the words whose syndrome is past the end of the codeword |
| `HammingCode.PerfectCodeAcceptsAll` | dfim_core_engine/src/hamming.rs:134-165 | at a width with 2^r = n+r+1, width 4 among them, every word is accepted |
| `Hamming.CeilLog2` | dfim_core_engine/src/hamming.rs:267-278 | the least r with n <= 2^r, and 1 for n at most 1 |
| `Hamming.ParityBitCount` | dfim_core_engine/src/hamming.rs:15-29 | out of 4..247 is InvalidParameter; otherwise the least sufficient parity count, the cap never met |
| `Hamming.ComputeParity` | dfim_core_engine/src/hamming.rs:71-76 | the exclusive or over the positions that parity p covers |
| `Hamming.SpreadData` | dfim_core_engine/src/hamming.rs:58-67 | data bits land, in order, on the non-parity positions and nowhere else |
| `Hamming.FillParities` | dfim_core_engine/src/hamming.rs:69-78 | the parity loop of the encoder, parity by parity |
| `Hamming.EncodeBits` | dfim_core_engine/src/hamming.rs:46-81 | bad width or oversized data is InvalidParameter; otherwise a codeword that carries the data |
| `Hamming.ComputeSyndrome` | dfim_core_engine/src/hamming.rs:98-110 | bit p of the result is parity p |
| `Hamming.CollectData` | dfim_core_engine/src/hamming.rs:119-128 | gathers the data positions in order |
| `Hamming.DecodeBits` | dfim_core_engine/src/hamming.rs:89-131 | masks the word, flips the position the syndrome names if there is one, returns data and syndrome |
| `Hamming.DecodeBitsStrict` | dfim_core_engine/src/hamming.rs:134-165 | Ok exactly when some codeword is within one bit of the masked word, and then with that codeword's data |
| `Hamming.SingleFlipIsCorrected` | dfim_core_engine/src/hamming.rs:46-165 | at every width 4..57 an encoded word decodes to its data with syndrome 0, and with bit k flipped to the same data with syndrome k+1, in both decoders |
| `Hamming.DecodedBit` | dfim_core_engine/src/hamming.rs:89-131 | for every received word each decoded bit is the bit at its position, flipped exactly when the syndrome names that position |
| `Hamming.DoubleFlipIsNotCorrected` | dfim_core_engine/src/hamming.rs:134-165 | two different flips never decode to the original data |
| `Hamming.DoubleFlipSyndrome` | dfim_core_engine/src/hamming.rs:89-131 | the syndrome of a double flip is the exclusive or of the two positions |
| `Hamming.DoubleFlipRejectedExactly` | dfim_core_engine/src/hamming.rs:134-165 | a double flip is rejected exactly when that exclusive or lies past the end of the codeword |
| `Hamming.SomeDoubleFlipIsAccepted` | dfim_core_engine/src/hamming.rs:134-165 | at every width and for all data, flipping the first two bits is accepted with wrong data |
| `Hamming.RejectsSomethingExactly` | dfim_core_engine/src/hamming.rs:134-165 | some word is rejected exactly when the code is not perfect, and then some double flip of every codeword is |
| `HammingBlock.NibbleSurvivesOneFlip` | dfim_core_engine/src/hamming.rs:171-255 | a nibble survives any one flip of its codeword byte, the unused top bit free |
| `HammingBlock.NibbleChangesOnTwoFlips` | dfim_core_engine/src/hamming.rs:171-255 | two flips always change the nibble |
| `HammingBlock.BlockRoundTrip` | dfim_core_engine/src/hamming.rs:171-255 | decoding an encoded block gives the block back |
| `HammingBlock.EncodedPair` | dfim_core_engine/src/hamming.rs:171-187 | each byte becomes the codewords of its high and its low nibble, in that order |
| `HammingBlock.BlockSurvivesOneFlipPerByte` | dfim_core_engine/src/hamming.rs:171-255 | so does decoding it after at most one flip in the low seven bits of every byte |
| `HammingBlock.BlockChangesOnTwoFlips` | dfim_core_engine/src/hamming.rs:171-255 | two flips in one byte change the decoded byte, whatever happened to the rest |
| `HammingBlock.EncodeBlock` | dfim_core_engine/src/hamming.rs:171-187 | empty input is the only error; the output decodes to the input |
| `HammingBlock.DecodeBlock` | dfim_core_engine/src/hamming.rs:241-255 | empty or odd input is InvalidParameter, anything else decodes: no other error is reachable |
| `HammingBlock.DecodeBlockIntoStrict` | dfim_core_engine/src/hamming.rs:213-235 | fills the front of the caller's buffer with the decoded bytes, keeps the rest, and changes nothing when it refuses |
| `Partition.BlocksDetermineZeroPad` | dfim_windows_uefi/src/manifest.rs:35-54 | two images have the same blocks exactly when they are equal after zero padding |
| `Partition.BlocksHoldImage` | dfim_windows_uefi/src/pipeline.rs:57-76 | byte for byte the blocks hold the image and then zeros, in no more blocks than it needs |
| `Partition.PartitionBlocks` | dfim_windows_uefi/src/pipeline.rs:57-76 | the blocks are consecutive 4096-byte pieces with a zero-filled tail; length and block-size errors as in the code |
| `ProofCodec.ParsePrintedProofs` | dfim_core_engine/src/parser.rs:75-111 | printed proofs parse back and leave exactly what follows them |
| `ProofCodec.PrintParsedProofs` | dfim_core_engine/src/parser.rs:75-111 | whatever parses is the print of its result followed by what is left |
| `ProofCodec.PrintedProofBytes` | dfim_windows_uefi/src/manifest.rs:84-92 | a printed proof is its count byte and its digests in order |
| `ProofCodec.ProofErrors` | dfim_core_engine/src/parser.rs:75-111 | which proof is refused for which reason |
| `ProofCodec.AppendProofs` | dfim_windows_uefi/src/manifest.rs:84-94 | appends every proof, or InvalidParameter when one is longer than 16 steps |
| `ProofCodec.ReadOne` | dfim_core_engine/src/parser.rs:75-111 | one proof, its whole length checked before it is read, agrees with the reference parser |
| `ProofCodec.ReadProofs` | dfim_core_engine/src/parser.rs:75-111 | the proof loop never reads past the end and agrees with the reference parser, error codes included |
| `Sidecar.ParsePrinted` | dfim_core_engine/src/parser.rs:35-124 | parsing a printed manifest gives it back |
| `Sidecar.PrintParsed` | dfim_core_engine/src/parser.rs:35-124 | every accepted byte string, of any length, re-prints to itself |
| `Sidecar.RoundTripExactly` | dfim_windows_uefi/src/manifest.rs:57-95 | serializing succeeds exactly on printable manifests, and the result parses back exactly when the backup's length fits 32 bits, which the serializer does not check |
| `Sidecar.PrintInjective` | dfim_windows_uefi/src/manifest.rs:57-95 | no two parseable manifests print alike |
| `Sidecar.HeaderFields` | dfim_windows_uefi/src/manifest.rs:75-82 | where each field of the header lies |
| `Sidecar.ParseErrors` | dfim_core_engine/src/parser.rs:35-124 | which byte string is refused with which error, in the order of the tests |
| `Sidecar.SerializeErrors` | dfim_windows_uefi/src/manifest.rs:64-92 | which manifest cannot be serialized, with which error |
| `Sidecar.SerializeBootSidecar` | dfim_windows_uefi/src/manifest.rs:57-95 | error codes as in the code; the output parses back to the manifest |
| `Sidecar.ParseBlockStream` | dfim_core_engine/src/parser.rs:35-124 | accepts without reading out of range, and only byte strings that are the print of the result |
| `Pipeline.AcceptedMeans` | dfim_windows_uefi/src/pipeline.rs:81-111 | an image is accepted exactly when its length is in range, header and decoded backup agree, both counts match and every block's proof is in order; the result carries the header's root and "corrected" is false |
| `Pipeline.OneFlipPerByteIsAccepted` | dfim_windows_uefi/src/pipeline.rs:20-54 | a backup with at most one flip among the low seven bits of each byte resolves to the header's fields |
| `Pipeline.TwoFlipsInOneByteAreRejected` | dfim_windows_uefi/src/pipeline.rs:20-54 | two flips in any one of the first eighty bytes always lead to rejection, whatever else happened |
| `Pipeline.MetadataResolvesExactly` | dfim_windows_uefi/src/pipeline.rs:20-54 | metadata resolves exactly when the header is in order and an even backup of at least eighty bytes decodes to its fields, and then to those fields |
| `Pipeline.MetadataErrors` | dfim_windows_uefi/src/pipeline.rs:20-54 | which metadata is refused with which error, in the order of the tests |
| `Pipeline.ValidationErrors` | dfim_windows_uefi/src/pipeline.rs:81-111 | which image is refused with which error |
| `Pipeline.HonestManifestIsPrintable` | dfim_windows_uefi/src/manifest.rs:100-129 | the manifest of every image of 1 to 262144 bytes is within all format limits, with an 80-byte backup and proofs of at most 6 steps |
| `Pipeline.HonestSidecarIsAccepted` | dfim_windows_uefi/src/pipeline.rs:81-111 | end to end: that manifest prints, parses back and validates the image |
| `Pipeline.ManifestPinsImage` | dfim_windows_uefi/src/pipeline.rs:81-111 | a manifest, hand-made or not, accepts at most one image up to zero padding, or the two validations expose a collision |
| `Pipeline.RootAndCountPinImage` | dfim_windows_uefi/src/pipeline.rs:81-111 | root and block count of an image suffice: any image any such sidecar accepts is that image up to zero padding, or a collision |
| `Pipeline.PaddingIsInvisible` | dfim_windows_uefi/src/pipeline.rs:57-111 | images equal after padding get the same verdict and error code |
| `BootImage.CollectProofs` | dfim_windows_uefi/src/manifest.rs:117-120 | proves every block of the image, without error |
| `BootImage.BuildBootSidecar` | dfim_windows_uefi/src/manifest.rs:100-129 | succeeds exactly on images of 1 to 262144 bytes, and its output parses and accepts the image |
| `BootImage.FecRecoverMetadata` | dfim_windows_uefi/src/pipeline.rs:20-30 | the three fields of the decoded backup, or the decoder's error, or BufferTooShort |
| `BootImage.ResolveMetadata` | dfim_windows_uefi/src/pipeline.rs:34-54 | returns the header's own fields and false, or an error; never anything repaired |
| `BootImage.VerifyAll` | dfim_windows_uefi/src/pipeline.rs:97-103 | Ok exactly when every block is accepted at its own index, else IntegrityFailure |
| `BootImage.ValidateBootImage` | dfim_windows_uefi/src/pipeline.rs:81-111 | the verdict and error code described by AcceptedMeans |
| `Sha256.PadIsMinimal` | dfim_core_engine/src/bpf_sha256.rs:142-167 | the padding of section 5.1.1 of FIPS 180-4 fills whole blocks and none shorter would |
| `Sha256.PadHoldsLength` | dfim_core_engine/src/bpf_sha256.rs:142-167 | for messages under 2^61 bytes the last eight bytes hold the exact length in bits |
| `Sha256.PadBytes` | dfim_core_engine/src/bpf_sha256.rs:154-164 | byte for byte the padded message is the message, the 0x80 mark and zeros up to the length |
| `Sha256Facts.ChChooses` | dfim_core_engine/src/bpf_sha256.rs:55-57 | choice takes the bits of the second word where the first is set and of the third elsewhere |
| `Sha256Facts.MajIsMajority` | dfim_core_engine/src/bpf_sha256.rs:59-61 | majority is what at least two of the three words have |
| `Sha256Facts.BigSumsByShifts` | dfim_core_engine/src/bpf_sha256.rs:50-82 | the two large sums, with rotation spelled out by shifts as section 3.2 of FIPS 180-4 defines it |
| `Sha256Facts.SmallSumsByShifts` | dfim_core_engine/src/bpf_sha256.rs:50-82 | the two small sums in the same way |
| `Sha256Facts.InitialFromPrimes` | dfim_core_engine/src/bpf_sha256.rs:5-47 | the initial state holds the fractions of the square roots of the first eight primes |
| `Sha256Facts.KFromPrimes0` | dfim_core_engine/src/bpf_sha256.rs:5-47 | round constants 0 to 3 hold the fractions of the cube roots of their primes; `KFromPrimes4` to `KFromPrimes60` say the same of the others, four at a time |
| `Sha256Abc.KnownAnswer` | dfim_core_engine/src/bpf_sha256.rs:85-167 | the digest of "abc" is the one FIPS 180-4 gives, derived round by round |
| `Sha256.AbsorbStep` | dfim_core_engine/src/bpf_sha256.rs:148-152 | each further block compresses the state that the earlier ones left |
| `Sha256.PadShort` | dfim_core_engine/src/bpf_sha256.rs:154-164 | with at most 55 bytes left the padded message ends in one block of this shape |
| `Sha256.PadLong` | dfim_core_engine/src/bpf_sha256.rs:154-164 | with 56 to 63 left the length spills into a second block |
| `Sha256.AbsorbPrefix` | dfim_core_engine/src/bpf_sha256.rs:148-152 | the state after n blocks depends only on those blocks |
| `BpfSha256.FillSchedule` | dfim_core_engine/src/bpf_sha256.rs:85-94 | the in-place schedule equals the recurrence of section 6.2.2 of FIPS 180-4, whatever the array held |
| `BpfSha256.RunRounds` | dfim_core_engine/src/bpf_sha256.rs:96-115 | sixty-four rounds over eight rotating variables equal the recursive definition |
| `BpfSha256.CompressBlockRaw` | dfim_core_engine/src/bpf_sha256.rs:85-125 | the state becomes its compression with the block |
| `BpfSha256.ResetSha256` | dfim_core_engine/src/bpf_sha256.rs:127-130 | the state becomes the initial value of section 5.3.3 |
| `Sha256.WordRoundTrip` | dfim_core_engine/src/bpf_sha256.rs:85-138 | a word written as big-endian bytes is the word read from them |
| `BpfSha256.StateToDigest` | dfim_core_engine/src/bpf_sha256.rs:132-138 | the word loop: reading the digest as big-endian words gives the state back, word by word |
| `BpfSha256.Sha256Digest` | dfim_core_engine/src/bpf_sha256.rs:142-167 | the FIPS 180-4 digest of every message, whatever the workspace held before |
| `BpfSha256.ParentHashBpf` | dfim_core_engine/src/bpf_sha256.rs:171-186 | the specialised form equals the digest of left followed by right |
| `CompactValidate.CompactFormExists` | dfim_core_engine/src/boot_validate.rs:197-203 | every manifest with proofs of at most 16 steps and a backup of at most 128 bytes has a compact form |
| `CompactValidate.CompactErrors` | dfim_core_engine/src/boot_validate.rs:72-269 | an overlong backup, an overlong proof and a block of another size are bad parameters; otherwise the climb decides |
| `CompactValidate.BlocksAgree` | dfim_core_engine/src/boot_validate.rs:273-305 | the first-failure scan gives the heap form's all-blocks verdict |
| `CompactValidate.CompactAgreesWithHeap` | dfim_core_engine/src/boot_validate.rs:217-305 | same verdict and same error code as the heap validator on every image and every manifest both can hold |
| `CompactValidate.CompactAcceptsWhatHeapAccepts` | dfim_core_engine/src/boot_validate.rs:273-305 | what the heap form accepts, its compact form accepts |
| `CompactValidate.CompactAcceptsHonestImage` | dfim_core_engine/src/boot_validate.rs:273-305 | every image is accepted with the compact form of its own sidecar |
| `CompactValidate.VerifyBlock` | dfim_core_engine/src/boot_validate.rs:72-93 | over 16 steps is InvalidParameter; otherwise the heap verifier's answer on the used siblings |
| `CompactValidate.ValidateBlockCompact` | dfim_core_engine/src/boot_validate.rs:255-269 | wrong block length is InvalidParameter, a failed proof IntegrityFailure |
| `CompactValidate.ResolveMetadataInto` | dfim_core_engine/src/boot_validate.rs:217-251 | the same fields or error whatever the caller's buffer held before |
| `CompactValidate.ValidateBootImageCompact` | dfim_core_engine/src/boot_validate.rs:273-305 | the whole no-alloc validator, error codes included |
| `KernelScratch.BpfValidateScratch.ResolveMetadataFromScratch` | dfim_core_engine/src/boot_validate.rs:113-157 | verdict and error of the no-alloc form; on success its root and count are left in the record, index and proof untouched |
| `KernelScratch.BpfValidateScratch.ValidateBlockFromScratch` | dfim_core_engine/src/boot_validate.rs:162-183 | verdict and error of the no-alloc block check with real SHA-256, whatever the workspace held |
| `KernelScratch.ClimbInWorkspace` | dfim_core_engine/src/boot_validate.rs:169-177 | hashing every step in one reused workspace gives the reference climb |
| `KernelScratch.KernelAcceptsOnlyTreeBlocks` | dfim_core_engine/src/boot_validate.rs:162-183 | what the kernel accepts at an index of a SHA-256 tree is that tree's block, or the two computations contain a SHA-256 collision |
| `StateDb.ParseWrapped` | dfim_core_engine/src/state_db.rs:30-95 | whatever can be wrapped unwraps to the same payload |
| `StateDb.StateParsedExactly` | dfim_core_engine/src/state_db.rs:30-143 | a payload is returned exactly for itself, when its header is good, and for its own envelope |
| `StateDb.SidecarHeaderExactly` | dfim_core_engine/src/state_db.rs:97-115 | the header test passes exactly on what begins with a printed v1 header of one to 64 blocks |
| `StateDb.OtherVersionsAreRefused` | dfim_core_engine/src/state_db.rs:30-115 | a sidecar of another version, the signed one included, is no state database |
| `StateDb.StateErrors` | dfim_core_engine/src/state_db.rs:30-143 | which state is refused with which error, in the order of the tests |
| `StateDb.MarksSpelled` | dfim_core_engine/src/state_db.rs:30-143 | the marks read DFIMSTAT, DFIMBOOT and STATE_ |
| `StateDb.WrapAuthenticatedStateDb` | dfim_core_engine/src/state_db.rs:47-64 | error codes as in the code; the envelope parses back to the payload |
| `HostVerify.VerifyAcceptsExactly` | dfim_cli_provisioner/src/verify.rs:244-291 | for every image and every state: verified exactly when the state parses to a baseline that validates the image under the image's own Merkle root, with that root and count reported |
| `HostVerify.RejectionReasons` | dfim_cli_provisioner/src/verify.rs:244-291 | which input is rejected for which reason, in the order of the tests |
| `HostVerify.VerifiedMeansOwnSidecar` | dfim_cli_provisioner/src/verify.rs:244-291 | so verified exactly when root, count and every proof are those a build of the image gives and the backup, damaged or not, still agrees, or a collision |
| `HostVerify.VerifyPinsOriginal` | dfim_cli_provisioner/src/verify.rs:244-291 | verified against the state made from an original image means that image up to zero padding, or a collision |
| `HostVerify.HonestStateVerifies` | dfim_cli_provisioner/src/verify.rs:244-318 | every image verifies against its own sidecar, bare or in the envelope |
| `HostVerify.LiveRoot` | dfim_cli_provisioner/src/verify.rs:314-318 | building and re-parsing a sidecar yields the image's own Merkle root and cannot fail |
| `RootBinding.RootBoundExactly` | dfim_windows_uefi/src/pipeline.rs:81-111 | a manifest that validates an image carries the image's own root exactly when its proofs are the image's own, or a collision |
| `RootBinding.RootBoundByLengths` | dfim_windows_uefi/src/pipeline.rs:81-111 | with a power of two of blocks, exactly when every proof is as long as the tree is deep, or a collision |
| `RootBinding.ForeignManifestValidates` | dfim_windows_uefi/src/pipeline.rs:81-111 | for every image and every continuation, root and proofs cut from the longer tree validate the image, and that root is the image's own exactly when the tree fills in the same continuation, or the two builds collide |
| `RootBinding.ValidationAloneDoesNotBindRoot` | dfim_windows_uefi/src/pipeline.rs:81-111 | for every image a printable manifest with another root is accepted by validation alone, or the two builds collide |
| `RootBinding.LengthsDoNotBindRoot` | dfim_windows_uefi/src/pipeline.rs:81-111 | the condition on lengths is confined to powers of two: for every other count a manifest with full-length proofs validates under another root, or a collision |
| `SignedManifest.HeaderCheckedExactly` | dfim_windows_uefi/src/signed_manifest.rs:143-173 | the header tests pass exactly on the printed headers with one to 64 blocks, the expected key identifier and a release that is not zero and not below the floor |
| `SignedManifest.V2HeaderSlices` | dfim_windows_uefi/src/signed_manifest.rs:100-111 | where each field of the signed header lies |
| `SignedManifest.RootBackedUpExactly` | dfim_windows_uefi/src/signed_manifest.rs:235-243 | the backup holds the root exactly when it is even, at least 80 bytes, and its first 32 decoded bytes are the root |
| `SignedManifest.V2ParsedExactly` | dfim_windows_uefi/src/signed_manifest.rs:133-250 | accepted with these fields exactly when they are in order for the policy, the signed part is their print, and key and signature decode and verify it |
| `SignedManifest.V2Errors` | dfim_windows_uefi/src/signed_manifest.rs:133-185 | length first, then the header's error, then the signature's |
| `SignedManifest.V2HeaderErrors` | dfim_windows_uefi/src/signed_manifest.rs:143-173 | which header is refused with which error |
| `SignedManifest.SignatureErrors` | dfim_windows_uefi/src/signed_manifest.rs:179-185 | a key that does not decode is a bad parameter, a bad signature an integrity failure |
| `SignedManifest.V2BodyLikeV1` | dfim_windows_uefi/src/signed_manifest.rs:187-234 | what follows the header is read as in the unsigned sidecar, except that every bad backup length counts as too short |
| `SignedManifest.SignedSidecarExactly` | dfim_windows_uefi/src/signed_manifest.rs:77-130 | when a signed sidecar can be built, and the error otherwise |
| `SignedManifest.CanonicalIsAccepted` | dfim_windows_uefi/src/signed_manifest.rs:133-250 | a canonical body with a signature that verifies is accepted with the fields it was made from |
| `SignedManifest.AcceptedIsCanonical` | dfim_windows_uefi/src/signed_manifest.rs:133-250 | whatever is accepted is a canonical body, re-printed byte for byte, followed by a signature that verifies |
| `SignedManifest.V2BodyInjective` | dfim_windows_uefi/src/signed_manifest.rs:77-130 | the signed bytes determine manifest, counter and key identifier |
| `SignedManifest.SignedSidecarAcceptedExactly` | dfim_windows_uefi/src/signed_manifest.rs:77-265 | a sidecar built for an image of 1 to 262144 bytes is accepted exactly when the counter meets the floor and the key identifier matches, with those values reported |
| `SignedManifest.AcceptedMeetsPolicy` | dfim_windows_uefi/src/signed_manifest.rs:133-250 | nothing below the floor, of counter zero, of another key identifier or without a verifying signature is accepted |
| `SignedManifest.ManifestOfBytes` | dfim_windows_uefi/src/signed_manifest.rs:133-250 | the policy decides whether bytes are accepted, never what they say |
| `SignedManifest.SidecarPinsImage` | dfim_windows_uefi/src/signed_manifest.rs:253-265 | one sidecar accepts at most one image up to zero padding under any two policies, or a collision |
| `SignedImage.AppendHonestProofs` | dfim_windows_uefi/src/signed_manifest.rs:114-123 | proves and appends block by block, without error |
| `SignedImage.PrintV2Header` | dfim_windows_uefi/src/signed_manifest.rs:100-111 | the 92 header bytes, field by field |
| `SignedImage.BuildSignedBootSidecarV2` | dfim_windows_uefi/src/signed_manifest.rs:77-130 | the sidecar that SignedSidecarAcceptedExactly speaks of, or the code's error |
| `SignedImage.ReadProofsBounded` | dfim_windows_uefi/src/signed_manifest.rs:198-223 | the digest-by-digest loop agrees with the v1 proof parser and never passes the signed end |
| `SignedImage.ReadV2Body` | dfim_windows_uefi/src/signed_manifest.rs:187-234 | backup, proofs and nothing else before the signature |
| `SignedImage.ParseAndVerifyBootSidecarV2` | dfim_windows_uefi/src/signed_manifest.rs:133-250 | whatever it returns is canonical for the policy and re-prints to the signed bytes |
| `SignedImage.ValidateSignedBootImageV2` | dfim_windows_uefi/src/signed_manifest.rs:253-265 | signature and policy first, then the image, error codes included |
| `Recovery.CrashKeepsSettled` | dfim_cli_provisioner/src/recovery.rs:93-127 | after any crash a settled file holds, whole, one of the entries it had since its directory was last synced |
| `Recovery.StepKeepsSafe` | dfim_cli_provisioner/src/recovery.rs:93-127 | no permitted system call, whether it succeeds, fails part of the way or is cut off, leaves a protected file with anything but an allowed content |
| `Recovery.StepEffect` | dfim_cli_provisioner/src/recovery.rs:93-127 | what each call does to the names it is about when it goes well, when it can go well, and that it leaves all other names alone |
| `Recovery.RunsKeepSafe` | dfim_cli_provisioner/src/recovery.rs:72-127 | so over every run of permitted calls under every fault plan |
| `Recovery.FailedStepKeepsFiles` | dfim_cli_provisioner/src/recovery.rs:93-127 | a call that fails without a crash leaves both protected files as they were |
| `Recovery.MixedPairPins` | dfim_cli_provisioner/src/recovery.rs:33-61 | beside a source's sidecar, a target validates only if it is that source's image up to zero padding, or a collision |
| `Recovery.ReaderSeesAuthorisedPair` | dfim_cli_provisioner/src/recovery.rs:33-127 | after any run the target is the original or a whole authorised image, and a changed sidecar belongs to an authorised attempt and validates only that attempt's image, or a collision |
| `Recovery.RestoredSurvivesCrashes` | dfim_cli_provisioner/src/recovery.rs:116-142 | a completed recovery survives every later crash exactly when no other entry is left on disk |
| `Recovery.CrashKeepsRestored` | dfim_cli_provisioner/src/recovery.rs:116-142 | and then stays so after it |
| `Recovery.UnsyncedRenameIsUnsafe` | dfim_cli_provisioner/src/recovery.rs:105-115 | without the sync before the rename a crash may leave any bytes in the target |
| `Recovery.Machine.Do` | dfim_cli_provisioner/src/recovery.rs:93-127 | one system call under the next fault keeps the invariant |
| `Recovery.Machine.CopyPermissions` | dfim_cli_provisioner/src/recovery.rs:101-104 | the temporary gets the target's permissions exactly when examining the target went well; a target that cannot be examined is no error; nothing else changes |
| `Recovery.Machine.PrepareTemporary` | dfim_cli_provisioner/src/recovery.rs:93-107 | on success the temporary holds the payload, synced; short of a crash nothing else has changed; without faults the calls are exactly these, in this order, and the permissions are the target's |
| `Recovery.Machine.Install` | dfim_cli_provisioner/src/recovery.rs:109-127 | on success the target holds the payload, on Unix durably; the other file is untouched |
| `Recovery.Machine.WriteAndReplace` | dfim_cli_provisioner/src/recovery.rs:93-127 | both halves together; without faults it fails exactly when the temporary name is taken, and then changes nothing; otherwise the calls come in the order of the source and the target keeps its permissions |
| `Recovery.Machine.AtomicReplace` | dfim_cli_provisioner/src/recovery.rs:72-91 | touches only its temporary and its target; without faults it succeeds exactly when the temporary name was free, and either way leaves no temporary |
| `Recovery.Machine.ReadNonEmpty` | dfim_cli_provisioner/src/recovery.rs:63-70 | the visible content, refused when empty, nothing changed |
| `Recovery.Machine.CheckRestored` | dfim_cli_provisioner/src/recovery.rs:43-60 | reads both files back, and reports what the prevalidation saw |
| `Recovery.Machine.RecoverTargetAtomically` | dfim_cli_provisioner/src/recovery.rs:33-61 | an unauthorised source changes nothing; the invariant holds throughout; a changed target sits beside the source's sidecar; Ok means exactly the source's pair, on Unix durably; without faults it succeeds exactly when no leftover temporary has one of its two names, and then makes exactly the calls of the protocol, in order, and keeps both files' permissions |
| `Recovery.Machine.ThreeAttempts` | dfim_cli_provisioner/src/recovery.rs:33-91 | leftover temporaries delay a recovery at most twice: of three attempts without faults the last succeeds |
| `Recovery.Machine.Run` | dfim_cli_provisioner/src/recovery.rs:33-127 | after any number of attempts cut off or failing anywhere, with power losses between, each file holds its original or a whole authorised payload; an Ok at the end, on Unix also one followed only by power losses, means the pair is exactly that source's, on Unix whatever crash comes next |
| `RateLimit.CheckSpendsCredit` | dfim_management_api/src/ratelimit.rs:37-49 | a check passes exactly when the address has a whole token, costs exactly one when it does, and costs other addresses nothing |
| `RateLimit.RefillComposes` | dfim_management_api/src/ratelimit.rs:37-49 | waiting in parts refills like waiting once, by rate * time up to the burst |
| `RateLimit.CreditAccountedFor` | dfim_management_api/src/ratelimit.rs:37-97 | after any run the credit is what the start, or a window that began full, leaves after its acceptances |
| `RateLimit.AnswersExactly` | dfim_management_api/src/ratelimit.rs:27-97 | the limiter, exactly: from an empty table a check is accepted exactly when in every window that ends with it, it still fits within burst + rate * length |
| `RateLimit.AcceptedWithinCredit` | dfim_management_api/src/ratelimit.rs:37-97 | from any sound state acceptances never exceed the credit at hand plus what the rate adds |
| `RateLimit.RateBound` | dfim_management_api/src/ratelimit.rs:27-97 | after any history, in any window without cleanup, one address is accepted at most burst + rate * length times, whatever others do |
| `RateLimit.AcceptedIsGranted` | dfim_management_api/src/ratelimit.rs:91-97 | the acceptances that are bounded are the yes answers a caller of the limiter sees |
| `RateLimit.CleanupIsInvisible` | dfim_management_api/src/ratelimit.rs:108-114 | over every run, cleanups with rate * max_age >= burst change no answer |
| `RateLimit.EarlyCleanupIsVisible` | dfim_management_api/src/ratelimit.rs:108-114 | the condition is exact: for every smaller max_age some run serves more requests with the cleanup than without |
| `RateLimit.RateLimiter.constructor` | dfim_management_api/src/ratelimit.rs:63-75 | starts as the empty table |
| `RateLimit.RateLimiter.CheckIp` | dfim_management_api/src/ratelimit.rs:84-97 | looking at one shard answers and updates as one flat table would |
| `RateLimit.RateLimiter.CleanupShards` | dfim_management_api/src/ratelimit.rs:108-114 | pruning shard by shard prunes the flat table |
| `RateLimit.RateLimiter.Run` | dfim_management_api/src/ratelimit.rs:84-114 | a whole run of the sharded limiter gives the flat table's answers |
| `RateLimit.RateLimiter.ServeWindow` | dfim_management_api/src/ratelimit.rs:27-97 | the rate bound of the sharded limiter itself, for every address at once |
| `Attestation.PrintedQuoteIsRead` | dfim_cli_provisioner/src/attestation.rs:277-324 | every printed quote of the required shape is read, with its two digests |
| `Attestation.ReadQuoteIsPrinted` | dfim_cli_provisioner/src/attestation.rs:277-324 | whatever is read re-prints to the same bytes |
| `Attestation.QuotesExactly` | dfim_cli_provisioner/src/attestation.rs:277-324 | the reader accepts exactly the printed quotes (TPMS_ATTEST, section 10.12 of TPM 2.0 Library Part 2) of the required shape |
| `Attestation.Cursor.Take` | dfim_cli_provisioner/src/attestation.rs:352-363 | returns the next bytes or leaves the offset alone; the offset never passes the end |
| `Attestation.Cursor.ReadUint` | dfim_cli_provisioner/src/attestation.rs:365-384 | the next bytes as a big-endian number |
| `Attestation.Cursor.ReadTpm2b` | dfim_cli_provisioner/src/attestation.rs:386-393 | a two-byte length and that many bytes, exactly when both are there |
| `Attestation.ReadHead` | dfim_cli_provisioner/src/attestation.rs:278-285 | succeeds exactly on the right magic, tag and a complete signer |
| `Attestation.ReadClock` | dfim_cli_provisioner/src/attestation.rs:286-299 | succeeds exactly on 32 bytes of extra data and a clock marked safe |
| `Attestation.ReadPcrs` | dfim_cli_provisioner/src/attestation.rs:301-323 | succeeds exactly on one SHA-256 bank with the fixed selection, a 32-byte digest and nothing after it |
| `Attestation.ParseQuote` | dfim_cli_provisioner/src/attestation.rs:277-324 | succeeds exactly on quotes and returns their two digests |
| `Attestation.QualifyingInputInjective` | dfim_cli_provisioner/src/attestation.rs:69-79 | different challenges hash different strings |
| `Attestation.ChallengeBinding` | dfim_cli_provisioner/src/attestation.rs:222-275 | evidence accepted for two challenges under one policy means the challenges are equal, or their two hashed strings collide |
| `Attestation.HonestEvidenceIsAccepted` | dfim_cli_provisioner/src/attestation.rs:222-275 | evidence made by the enrolled key for a challenge that meets the policy is accepted |
| `Attestation.AcceptedExactly` | dfim_cli_provisioner/src/attestation.rs:222-275 | accepted exactly when release, generation and root meet the policy, the registers are the enrolled ones, key and signature decode and verify, and the evidence prints a quote with the two digests; reported is the challenge's own |
| `Attestation.QuoteMarks` | dfim_cli_provisioner/src/attestation.rs:277-312 | the fixed bytes of a quote and of its register selection |
| `Attestation.SelectedRegisters` | dfim_cli_provisioner/src/attestation.rs:310-312 | the bitmap names registers 0, 2, 4, 7 and 14 |
| `Attestation.QualifyingSlices` | dfim_cli_provisioner/src/attestation.rs:69-79 | where each field of the hashed string lies |
| `Attestation.ChallengeCodec` | dfim_cli_provisioner/src/attestation.rs:82-111 | bytes parse to a challenge exactly when they are its encoding |
| `Attestation.EvidenceCodec` | dfim_cli_provisioner/src/attestation.rs:115-165 | bytes parse to evidence exactly when they are its encoding |
| `Attestation.EvidenceLayout` | dfim_cli_provisioner/src/attestation.rs:115-132 | where the fields of an evidence envelope lie, and which evidence has none |
| `Attestation.ChallengeSlices` | dfim_cli_provisioner/src/attestation.rs:82-91 | where the fields of a challenge envelope lie |
| `Attestation.MarksSpelled` | dfim_cli_provisioner/src/attestation.rs:69-132 | the domain of the hashed string and the marks of the two envelopes, spelled out |
| `EvalGate.StateRoundTrip` | dfim_host_init/src/lib.rs:64-150 | what is written is what is read back |
| `EvalGate.ReadStateExactly` | dfim_host_init/src/lib.rs:74-150 | a file is read as a state exactly when it is the file written for it, but for two reserved bytes, with a checksum over what it holds |
| `EvalGate.MarksSpelled` | dfim_host_init/src/lib.rs:64-104 | the mark of the file and the domain of its checksum, spelled out |
| `EvalGate.TagPinsState` | dfim_host_init/src/lib.rs:96-150 | two readable files with one stored tag carry the same state, or their tagged strings collide |
| `EvalGate.FilesTrackStates` | dfim_host_init/src/lib.rs:161-193 | a run over files gives the answers and final state of a run over states |
| `EvalGate.PassedStaysInWindow` | dfim_host_init/src/lib.rs:161-193 | over every run readings let through never decrease and stay within thirty days, the activation never moves, the watermark is the last one let through |
| `EvalGate.GateOpensExactly` | dfim_host_init/src/lib.rs:161-193 | after any run the gate opens, reports tampering or reports expiry exactly as the reading compares with those let through and with thirty days past activation |
| `EvalGate.RefusalsLeaveNoTrace` | dfim_host_init/src/lib.rs:161-193 | deleting a refused reading changes no other answer and not the state |
| `EvalGate.GateFromMissingFile` | dfim_host_init/src/lib.rs:161-193 | from a missing file the first reading anchors the window and all of the above follows |
| `EvalGate.StatePath.CheckEvalLicense` | dfim_host_init/src/lib.rs:161-193 | a refused call, or one whose write cannot begin, leaves the file unchanged; a failed write never opens the gate |
| `EvalGate.StatePath.WriteState` | dfim_host_init/src/lib.rs:118-125 | the new file, or after a failure the old one or a prefix of the new |
| `EvalGate.UnreadableStaysClosed` | dfim_host_init/src/lib.rs:128-193 | a torn or otherwise unreadable file keeps the gate closed for good |
| `EvalGate.WindowDespiteFailures` | dfim_host_init/src/lib.rs:118-193 | from a missing file, with any writes failing in any way, the readings let through never decrease and the last is at most thirty days after the first |
| `EvalGate.StatePath.RunGate` | dfim_host_init/src/lib.rs:161-193 | a whole run of calls gives the answers and the file the run lemmas speak of |
| `Kdf.DecimalInjective` | dfim_core_engine/src/kdf.rs:72-86 | two numbers with the same decimal digits are equal |
| `Kdf.DecimalDenotes` | dfim_core_engine/src/kdf.rs:72-86 | the digits printed denote the number, without a leading zero |
| `Kdf.TextShape` | dfim_core_engine/src/kdf.rs:72-94 | a bar before each further number, the two lists on lines of their own |
| `Kdf.JoinedInjective` | dfim_core_engine/src/kdf.rs:72-86 | two lists, of any lengths, that join to the same text are equal |
| `Kdf.ManifestTextInjective` | dfim_core_engine/src/kdf.rs:67-94 | two pairs of lists with the same canonical bytes are the same pair |
| `Kdf.JoinNumbers` | dfim_core_engine/src/kdf.rs:72-86 | the loop joins the numbers with a separator between any two |
| `Kdf.CanonicalManifestBytes` | dfim_core_engine/src/kdf.rs:67-94 | both lists empty is EmptyInput; otherwise the canonical text |

## Left out

- EncodeBits: widths 58 to 247, whose codeword does not fit the 64-bit word the code uses.
- DecodeBits: widths 58 to 247, for the same reason.
- DecodeBitsStrict: widths 58 to 247, for the same reason.
- The non-strict `decode_block_into`, which is the strict loop with the plain decoder.
- ParseQuote: does not distinguish the error messages of the source; the same holds of the attestation verifier and of recovery, whose failures are one outcome each.
- The attestation policy codec: a fixed layout like the challenge's, it would only add easy members.
- `verify_v2_image_bytes`: a length test in front of the signed validation modelled here.
- Path handling and file reading of the provisioner; recovery sources are values read beforehand.
- The file system of the recovery model: target and sidecar at different paths, temporary names that no user file has, one recovery at a time, process identifiers and sequence numbers as inputs.
- Outside edits of the evaluation state file; only answers and bytes of the file are modelled, not its permissions.
- CheckIp: tokens are exact reals, the rounding of 64-bit floats is not modelled; locks and concurrent callers are not modelled either.
- `tokens_remaining` and `tracked_ips` of the limiter, which only read.
- Overflow checks on lengths that no 64-bit slice can reach.
- ECDSA, HKDF and HMAC internals, and constant-time comparison, which is plain equality here.
- The management API, its database and metrics, the plugin host, the UEFI entry point, TPM device access, the eBPF program and its build script, and the tools: handlers, formatting and device calls.
