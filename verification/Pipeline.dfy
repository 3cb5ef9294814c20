/** Building a sidecar for an image and validating an image against one. */
module Pipeline {
  import opened Basics
  import opened Merkle
  import opened HammingBlock
  import opened Partition
  import opened Sidecar

  // ------------------------------------------------------------- the honest sidecar

  /** Root, block size and block count: what the Hamming backup protects. */
  function Metadata(root: Digest, blockSize: nat, blockCount: nat): (b: Bytes)
    ensures |b| == 40
  {
    root + ToLE(blockSize, 4) + ToLE(blockCount, 4)
  }

  function ImageRoot(H: Hash, image: Bytes): (root: Digest)
    requires image != []
  {
    Root(H, Leaves(H, Blocks(image)))
  }

  function HonestProofs(H: Hash, image: Bytes): (ps: seq<MerkleProof>)
    requires image != []
    ensures |ps| == BlockCount(image)
  {
    var leaves := Leaves(H, Blocks(image));
    seq(|leaves|, i requires 0 <= i < |leaves| => MerkleProof(Path(H, leaves, i)))
  }

  function HonestManifest(H: Hash, image: Bytes): (m: BootManifest)
    requires 1 <= |image| <= MAX_IMAGE_BYTES
  {
    var n := BlockCount(image);
    BootManifest(ImageRoot(H, image), DFIM_BLOCK_SIZE, n,
                 EncodedBlock(Metadata(ImageRoot(H, image), DFIM_BLOCK_SIZE, n)), HonestProofs(H, image))
  }

  lemma HonestManifestIsPrintable(H: Hash, image: Bytes)
    requires 1 <= |image| <= MAX_IMAGE_BYTES
    ensures Printable(HonestManifest(H, image)) && |HonestManifest(H, image).fecBackup| == 80
    ensures forall i :: 0 <= i < BlockCount(image) ==> |HonestProofs(H, image)[i].steps| == Depth(BlockCount(image)) <= 6
  {
    var ps := HonestProofs(H, image);
    DepthOfBootImage(BlockCount(image));
    forall i | 0 <= i < |ps|
      ensures |ps[i].steps| == Depth(BlockCount(image))
    {
      MerkleCompleteness(H, Blocks(image), i);
    }
    hide EncodedBlock, Path, Root;
  }

  // ------------------------------------------------------------- validation

  datatype ValidatedBootImage = ValidatedBootImage(payload: Bytes, merkleRoot: Digest, fecCorrected: bool, blocksVerified: u32)

  function RecoveredMetadata(fec: Bytes): (r: Result<(Digest, u32, u32)>) {
    match DecodeResult(fec)
    case Err(e) => Err(e)
    case Ok(decoded) =>
      if |decoded| < 40 then Err(BufferTooShort)
      else Ok((decoded[0..32], Read32(decoded, 32), Read32(decoded, 36)))
  }

  function ResolvedMetadata(m: BootManifest): (r: Result<(Digest, u32, u32, bool)>) {
    match RecoveredMetadata(m.fecBackup)
    case Err(e) => Err(e)
    case Ok((root, blockSize, blockCount)) =>
      if blockSize != DFIM_BLOCK_SIZE || blockCount == 0 then Err(InvalidParameter)
      else if blockCount > MAX_BOOT_BLOCKS then Err(ParameterOverflow)
      else if m.merkleRoot == root && m.blockSize == blockSize && m.blockCount == blockCount
      then Ok((root, blockSize, blockCount, false))
      else Err(CorruptMetadata)
  }

  ghost predicate AllAccepted(H: Hash, root: Digest, blocks: seq<Bytes>, proofs: seq<MerkleProof>)
    requires |proofs| == |blocks|
  {
    forall i :: 0 <= i < |blocks| ==> Accepts(H, root, blocks[i], i, proofs[i])
  }

  /** `validate_boot_image`, error codes included. */
  ghost function Validated(H: Hash, image: Bytes, m: BootManifest): (r: Result<ValidatedBootImage>) {
    if ValidateImageByteLen(|image|).Err? then Err(ValidateImageByteLen(|image|).error)
    else
      match ResolvedMetadata(m)
      case Err(e) => Err(e)
      case Ok((root, blockSize, blockCount, fecCorrected)) =>
        if |m.proofs| != blockCount || BlockCount(image) != blockCount then Err(IntegrityFailure)
        else if AllAccepted(H, root, Blocks(image), m.proofs)
        then Ok(ValidatedBootImage(image, root, fecCorrected, blockCount))
        else Err(IntegrityFailure)
  }

  // ------------------------------------------------------------- metadata and its backup

  lemma MetadataFields(root: Digest, blockSize: u32, blockCount: u32)
    ensures var b := Metadata(root, blockSize, blockCount);
            b[0..32] == root && Read32(b, 32) == blockSize && Read32(b, 36) == blockCount
  {
    var b := Metadata(root, blockSize, blockCount);
    Pow256Values();
    FromLEToLE(blockSize, 4);
    FromLEToLE(blockCount, 4);
    hide ToLE, FromLE;
    assert b[0..32] == root && b[32..36] == ToLE(blockSize, 4) && b[36..40] == ToLE(blockCount, 4);
  }

  lemma MetadataFromFields(b: Bytes)
    requires |b| == 40
    ensures Metadata(b[0..32], Read32(b, 32), Read32(b, 36)) == b
  {
    Read32Prints(b, 32);
    Read32Prints(b, 36);
    hide ToLE, FromLE, Read32;
    assert b == b[0..32] + b[32..36] + b[36..40];
  }

  /** The header fields a manifest must carry for its metadata to be in order. */
  predicate HeaderInOrder(m: BootManifest) {
    m.blockSize == DFIM_BLOCK_SIZE && 1 <= m.blockCount <= MAX_BOOT_BLOCKS
  }

  /** Damage of at most one flip among the low seven bits of each backup byte is invisible. */
  lemma OneFlipPerByteIsAccepted(m: BootManifest)
    requires HeaderInOrder(m) && |m.fecBackup| == 80
    requires forall i :: 0 <= i < 80 ==>
               AtMostOneFlip(EncodedBlock(Metadata(m.merkleRoot, m.blockSize, m.blockCount))[i], m.fecBackup[i])
    ensures ResolvedMetadata(m) == Ok((m.merkleRoot, m.blockSize, m.blockCount, false))
  {
    hide Metadata, DecodedBlock, EncodedBlock, AtMostOneFlip, ResolvedMetadata;
    BlockSurvivesOneFlipPerByte(Metadata(m.merkleRoot, m.blockSize, m.blockCount), m.fecBackup);
    assert DecodedBlock(m.fecBackup)[..40] == DecodedBlock(m.fecBackup);
    MetadataResolvesExactly(m);
  }

  /** Two flips in any one of the eighty bytes always lead to rejection, whatever else happened to
      the backup. */
  lemma TwoFlipsInOneByteAreRejected(m: BootManifest, i: nat)
    requires i < 80 <= |m.fecBackup|
    requires TwoFlips(EncodedBlock(Metadata(m.merkleRoot, m.blockSize, m.blockCount))[i], m.fecBackup[i])
    ensures ResolvedMetadata(m).Err?
  {
    if ResolvedMetadata(m).Ok? {
      var decoded := DecodedBlock(m.fecBackup);
      PrefixDecodes(m.fecBackup);
      MetadataResolvesExactly(m);
      BlockChangesOnTwoFlips(Metadata(m.merkleRoot, m.blockSize, m.blockCount), m.fecBackup[..80], i);
      assert false;
    }
  }

  lemma PrefixDecodes(fec: Bytes)
    requires |fec| >= 80
    ensures DecodedBlock(fec[..80]) == DecodedBlock(fec)[..40]
  {
    hide Nibble;
  }

  /** Header and backup say the same: at least forty bytes are decoded, and the first forty are the
      header's own fields, which are in order. */
  predicate MetadataAgrees(m: BootManifest) {
    && HeaderInOrder(m) && |m.fecBackup| >= 80 && |m.fecBackup| % 2 == 0
    && DecodedBlock(m.fecBackup)[..40] == Metadata(m.merkleRoot, m.blockSize, m.blockCount)
  }

  lemma DecodedFields(decoded: Bytes)
    requires |decoded| >= 40
    ensures Metadata(decoded[0..32], Read32(decoded, 32), Read32(decoded, 36)) == decoded[..40]
  {
    var front := decoded[..40];
    MetadataFromFields(front);
    Read32Prefix(decoded, 40, 32);
    Read32Prefix(decoded, 40, 36);
    hide Metadata, Read32;
    assert front[0..32] == decoded[0..32];
  }

  lemma MetadataInjective(a: Digest, sizeA: u32, countA: u32, b: Digest, sizeB: u32, countB: u32)
    requires Metadata(a, sizeA, countA) == Metadata(b, sizeB, countB)
    ensures a == b && sizeA == sizeB && countA == countB
  {
    MetadataFields(a, sizeA, countA);
    MetadataFields(b, sizeB, countB);
    hide Metadata, Read32;
  }

  /** Metadata resolves exactly when header and backup agree, and then to the header's own fields. */
  lemma MetadataResolvesExactly(m: BootManifest)
    ensures ResolvedMetadata(m).Ok? <==> MetadataAgrees(m)
    ensures ResolvedMetadata(m).Ok? ==> ResolvedMetadata(m).value == (m.merkleRoot, m.blockSize, m.blockCount, false)
  {
    hide DecodedBlock, Metadata, Read32;
    var decoded := DecodedBlock(m.fecBackup);
    if |decoded| >= 40 {
      DecodedFields(decoded);
      if decoded[..40] == Metadata(m.merkleRoot, m.blockSize, m.blockCount) {
        MetadataInjective(decoded[0..32], Read32(decoded, 32), Read32(decoded, 36), m.merkleRoot, m.blockSize, m.blockCount);
      }
    }
  }

  /** What acceptance says about image and manifest, and nothing less: any disagreement between the
      header and its backup is rejected, and nothing is ever reported as corrected. */
  lemma AcceptedMeans(H: Hash, image: Bytes, m: BootManifest)
    ensures Validated(H, image, m).Ok? <==>
              && 1 <= |image| <= MAX_IMAGE_BYTES && MetadataAgrees(m)
              && |m.proofs| == m.blockCount == BlockCount(image)
              && AllAccepted(H, m.merkleRoot, Blocks(image), m.proofs)
    ensures Validated(H, image, m).Ok? ==> Validated(H, image, m).value == ValidatedBootImage(image, m.merkleRoot, false, m.blockCount)
    ensures ResolvedMetadata(m).Ok? <==> MetadataAgrees(m)
  {
    MetadataResolvesExactly(m);
    hide RecoveredMetadata, AllAccepted, Blocks, BlockCount, MetadataAgrees;
  }

  /** Which metadata is refused for which reason: the first that applies, in this order. */
  lemma MetadataErrors(m: BootManifest)
    ensures |m.fecBackup| == 0 || |m.fecBackup| % 2 != 0 ==> ResolvedMetadata(m) == Err(InvalidParameter)
    ensures 0 < |m.fecBackup| < 80 && |m.fecBackup| % 2 == 0 ==> ResolvedMetadata(m) == Err(BufferTooShort)
    ensures |m.fecBackup| >= 80 && |m.fecBackup| % 2 == 0 ==>
              var decoded := DecodedBlock(m.fecBackup);
              && (Read32(decoded, 32) != 4096 || Read32(decoded, 36) == 0 ==> ResolvedMetadata(m) == Err(InvalidParameter))
              && (Read32(decoded, 32) == 4096 && Read32(decoded, 36) > 64 ==> ResolvedMetadata(m) == Err(ParameterOverflow))
              && (Read32(decoded, 32) == 4096 && 1 <= Read32(decoded, 36) <= 64 && !MetadataAgrees(m) ==> ResolvedMetadata(m) == Err(CorruptMetadata))
  {
    MetadataResolvesExactly(m);
    hide DecodedBlock, Read32, MetadataAgrees;
  }

  /** Which image is refused for which reason. */
  lemma ValidationErrors(H: Hash, image: Bytes, m: BootManifest)
    ensures |image| == 0 ==> Validated(H, image, m) == Err(EmptyInput)
    ensures |image| > 262144 ==> Validated(H, image, m) == Err(BufferTooLong)
    ensures 1 <= |image| <= 262144 && ResolvedMetadata(m).Err? ==> Validated(H, image, m) == Err(ResolvedMetadata(m).error)
    ensures 1 <= |image| <= 262144 && ResolvedMetadata(m).Ok? && Validated(H, image, m).Err? ==> Validated(H, image, m) == Err(IntegrityFailure)
  {
    hide ResolvedMetadata, AllAccepted, Blocks, BlockCount;
  }

  // ------------------------------------------------------------- completeness

  lemma HonestMetadataResolves(H: Hash, image: Bytes)
    requires 1 <= |image| <= MAX_IMAGE_BYTES
    ensures var m := HonestManifest(H, image);
            ResolvedMetadata(m) == Ok((ImageRoot(H, image), DFIM_BLOCK_SIZE, BlockCount(image), false))
  {
    var m := HonestManifest(H, image);
    hide ImageRoot, EncodedBlock, HonestProofs, ResolvedMetadata, Metadata;
    assert HeaderInOrder(m);
    OneFlipPerByteIsAccepted(m);
  }

  lemma HonestProofsAccepted(H: Hash, image: Bytes)
    requires 1 <= |image| <= MAX_IMAGE_BYTES
    ensures AllAccepted(H, ImageRoot(H, image), Blocks(image), HonestProofs(H, image))
  {
    forall i | 0 <= i < BlockCount(image)
      ensures Accepts(H, ImageRoot(H, image), Blocks(image)[i], i, HonestProofs(H, image)[i])
    {
      MerkleCompleteness(H, Blocks(image), i);
    }
  }

  /** End to end: the sidecar built for an image parses, and the parsed manifest accepts the image. */
  lemma HonestSidecarIsAccepted(H: Hash, image: Bytes)
    requires 1 <= |image| <= MAX_IMAGE_BYTES
    ensures var m := HonestManifest(H, image);
            && Printable(m) && Parsed(Print(m)) == Ok(m)
            && Validated(H, image, m) == Ok(ValidatedBootImage(image, ImageRoot(H, image), false, BlockCount(image)))
  {
    var m := HonestManifest(H, image);
    HonestManifestIsPrintable(H, image);
    ParsePrinted(m);
    HonestMetadataResolves(H, image);
    HonestProofsAccepted(H, image);
    hide ImageRoot, HonestProofs, AllAccepted, ResolvedMetadata, Parsed, Print, EncodedBlock, Blocks, BlockCount;
    AcceptedMeans(H, image, m);
  }

  // ------------------------------------------------------------- soundness

  /** Everything hashed while validating `image` with these proofs. */
  ghost function ValidateInputs(H: Hash, image: Bytes, proofs: seq<MerkleProof>): (inputs: set<Bytes>)
    requires |proofs| == BlockCount(image)
  {
    set i, x | 0 <= i < BlockCount(image) && x in VerifyInputs(H, Blocks(image)[i], i, proofs[i]) :: x
  }

  lemma BlockInputsIncluded(H: Hash, image: Bytes, proofs: seq<MerkleProof>, i: nat)
    requires |proofs| == BlockCount(image) && i < BlockCount(image)
    ensures VerifyInputs(H, Blocks(image)[i], i, proofs[i]) <= ValidateInputs(H, image, proofs)
  {
  }

  /** A manifest, hand-made or not, accepts at most one image up to zero padding, unless the two
      validations hash two different strings to one digest. */
  lemma ManifestPinsImage(H: Hash, a: Bytes, b: Bytes, m: BootManifest)
    requires Validated(H, a, m).Ok? && Validated(H, b, m).Ok?
    ensures |m.proofs| == BlockCount(a) == BlockCount(b)
    ensures ZeroPad(a) == ZeroPad(b) || CollisionIn(H, ValidateInputs(H, a, m.proofs) + ValidateInputs(H, b, m.proofs))
  {
    AcceptedMeans(H, a, m);
    AcceptedMeans(H, b, m);
    var inputs := ValidateInputs(H, a, m.proofs) + ValidateInputs(H, b, m.proofs);
    if !CollisionIn(H, inputs) {
      forall i | 0 <= i < BlockCount(a)
        ensures Blocks(a)[i] == Blocks(b)[i]
      {
        hide Accepts, VerifyInputs, BlockAt, ValidateInputs;
        BlockInputsIncluded(H, a, m.proofs, i);
        BlockInputsIncluded(H, b, m.proofs, i);
        ProofPinsBlock(H, m.merkleRoot, Blocks(a)[i], m.proofs[i], Blocks(b)[i], m.proofs[i], i);
        CollisionGrows(H, VerifyInputs(H, Blocks(a)[i], i, m.proofs[i]) + VerifyInputs(H, Blocks(b)[i], i, m.proofs[i]), inputs);
      }
      assert Blocks(a) == Blocks(b);
      BlocksDetermineZeroPad(a, b);
    }
  }

  /** Knowing only the root and the block count of an image, any image accepted by any sidecar
      with that root and count is that image up to zero padding, or the build and the validation
      hash two different strings to one digest. */
  lemma RootAndCountPinImage(H: Hash, original: Bytes, image: Bytes, m: BootManifest)
    requires original != [] && m.merkleRoot == ImageRoot(H, original) && m.blockCount == BlockCount(original)
    requires Validated(H, image, m).Ok?
    ensures |m.proofs| == BlockCount(image)
    ensures ZeroPad(image) == ZeroPad(original)
            || CollisionIn(H, BuildInputs(H, Blocks(original)) + ValidateInputs(H, image, m.proofs))
  {
    AcceptedMeans(H, image, m);
    var inputs := BuildInputs(H, Blocks(original)) + ValidateInputs(H, image, m.proofs);
    if !CollisionIn(H, inputs) {
      forall i | 0 <= i < BlockCount(image)
        ensures Blocks(image)[i] == Blocks(original)[i]
      {
        hide Accepts, VerifyInputs, BuildInputs, ValidateInputs, Root;
        BlockInputsIncluded(H, image, m.proofs, i);
        MerkleSoundness(H, Blocks(original), Blocks(image)[i], i, m.proofs[i]);
        CollisionGrows(H, BuildInputs(H, Blocks(original)) + VerifyInputs(H, Blocks(image)[i], i, m.proofs[i]), inputs);
      }
      assert Blocks(image) == Blocks(original);
      BlocksDetermineZeroPad(image, original);
    }
  }

  /** The converse is free: images equal after padding are treated alike. */
  lemma PaddingIsInvisible(H: Hash, a: Bytes, b: Bytes, m: BootManifest)
    requires ZeroPad(a) == ZeroPad(b) && 1 <= |a| <= MAX_IMAGE_BYTES && 1 <= |b| <= MAX_IMAGE_BYTES
    ensures Validated(H, a, m).Ok? <==> Validated(H, b, m).Ok?
    ensures Validated(H, a, m).Err? ==> Validated(H, b, m) == Validated(H, a, m)
  {
    BlocksDetermineZeroPad(a, b);
    hide BlockAt, ResolvedMetadata, Accepts;
  }
}
