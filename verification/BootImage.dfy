/** The loops of the pipeline: `build_boot_sidecar` and `validate_boot_image`. */
module BootImage {
  import opened Basics
  import opened Merkle
  import opened HammingBlock
  import opened Partition
  import opened ProofCodec
  import opened Sidecar
  import opened Pipeline

  method CollectProofs(H: Hash, image: Bytes, tree: MerkleTree) returns (r: Result<seq<MerkleProof>>)
    requires 1 <= |image| <= MAX_IMAGE_BYTES
    requires tree == MerkleTree(ImageRoot(H, image), Layers(H, Leaves(H, Blocks(image))))
    ensures r == Ok(HonestProofs(H, image))
  {
    hide Path, Layers, Root, BlockAt;
    var proofs: seq<MerkleProof> := [];
    for i := 0 to BlockCount(image)
      invariant proofs == HonestProofs(H, image)[..i]
    {
      var proof :- Prove(H, tree, i);
      proofs := proofs + [proof];
    }
    assert HonestProofs(H, image)[..BlockCount(image)] == HonestProofs(H, image);
    return Ok(proofs);
  }

  /** `build_boot_sidecar` succeeds exactly on images of 1 to 262144 bytes, and its output parses
      and accepts the image. */
  method BuildBootSidecar(H: Hash, image: Bytes) returns (r: Result<Bytes>)
    ensures r.Ok? <==> 1 <= |image| <= MAX_IMAGE_BYTES
    ensures r.Err? ==> r.error == ValidateImageByteLen(|image|).error
    ensures r.Ok? ==>
              && Short(HonestProofs(H, image)) && r.value == Print(HonestManifest(H, image))
              && Parsed(r.value) == Ok(HonestManifest(H, image))
              && Validated(H, image, HonestManifest(H, image)).Ok?
  {
    var _ :- ValidateImageByteLen(|image|);
    HonestManifestIsPrintable(H, image);
    HonestSidecarIsAccepted(H, image);
    hide HonestProofs, Parsed, Validated, EncodedBlock, Print, BlockAt;
    var blocks :- PartitionBlocks(image, DFIM_BLOCK_SIZE);
    var blockCount := |blocks|;
    var built, _ := Build(H, blocks);
    var tree :- built;
    var root: Digest := tree.root;
    var meta := root + ToLE(DFIM_BLOCK_SIZE, 4) + ToLE(blockCount, 4);
    var fecBackup :- EncodeBlock(meta);
    var proofs :- CollectProofs(H, image, tree);
    r := SerializeBootSidecar(BootManifest(root, DFIM_BLOCK_SIZE, blockCount, fecBackup, proofs));
  }

  method FecRecoverMetadata(fecBackup: Bytes) returns (r: Result<(Digest, u32, u32)>)
    requires |fecBackup| <= MAX_SLICE_BYTES
    ensures r == RecoveredMetadata(fecBackup)
  {
    hide DecodedBlock;
    var decoded :- DecodeBlock(fecBackup);
    if |decoded| < 40 {
      return Err(BufferTooShort);
    }
    return Ok((decoded[0..32], Read32(decoded, 32), Read32(decoded, 36)));
  }

  /** `resolve_metadata` rejects every disagreement between header and backup; it repairs nothing. */
  method ResolveMetadata(m: BootManifest) returns (r: Result<(Digest, u32, u32, bool)>)
    requires |m.fecBackup| <= MAX_SLICE_BYTES
    ensures r == ResolvedMetadata(m)
    ensures r.Ok? ==> r.value == (m.merkleRoot, m.blockSize, m.blockCount, false)
  {
    hide RecoveredMetadata;
    var recovered :- FecRecoverMetadata(m.fecBackup);
    var (fecRoot, fecBlockSize, fecBlockCount) := recovered;
    if fecBlockSize != DFIM_BLOCK_SIZE {
      return Err(InvalidParameter);
    }
    if fecBlockCount == 0 {
      return Err(InvalidParameter);
    }
    var _ :- ValidateBlockCount(fecBlockCount);
    var headerMatches := m.merkleRoot == fecRoot && m.blockSize == fecBlockSize && m.blockCount == fecBlockCount;
    if headerMatches {
      return Ok((fecRoot, fecBlockSize, fecBlockCount, false));
    }
    return Err(CorruptMetadata);
  }

  method VerifyAll(H: Hash, root: Digest, blocks: seq<Bytes>, proofs: seq<MerkleProof>) returns (r: Result<()>)
    requires |proofs| == |blocks|
    requires forall i :: 0 <= i < |proofs| ==> |proofs[i].steps| <= MAX_SLICES
    ensures r == if AllAccepted(H, root, blocks, proofs) then Ok(()) else Err(IntegrityFailure)
  {
    for index := 0 to |blocks|
      invariant forall i :: 0 <= i < index ==> Accepts(H, root, blocks[i], i, proofs[i])
    {
      var ok :- VerifyProof(H, root, blocks[index], index, proofs[index]);
      if !ok {
        return Err(IntegrityFailure);
      }
    }
    return Ok(());
  }

  /** `validate_boot_image` */
  method ValidateBootImage(H: Hash, image: Bytes, m: BootManifest) returns (r: Result<ValidatedBootImage>)
    requires |m.fecBackup| <= MAX_SLICE_BYTES
    requires forall i :: 0 <= i < |m.proofs| ==> |m.proofs[i].steps| <= MAX_SLICES
    ensures r == Validated(H, image, m)
    ensures r.Ok? <==> 1 <= |image| <= MAX_IMAGE_BYTES && MetadataAgrees(m) && |m.proofs| == m.blockCount == BlockCount(image)
                       && AllAccepted(H, m.merkleRoot, Blocks(image), m.proofs)
  {
    AcceptedMeans(H, image, m);
    hide AllAccepted, ResolvedMetadata, BlockAt;
    var _ :- ValidateImageByteLen(|image|);
    var resolved :- ResolveMetadata(m);
    var (merkleRoot, blockSize, blockCount, fecCorrected) := resolved;
    if |m.proofs| != blockCount {
      return Err(IntegrityFailure);
    }
    assert blockSize == DFIM_BLOCK_SIZE by {
      MetadataResolvesExactly(m);
    }
    var blocks :- PartitionBlocks(image, blockSize);
    if |blocks| != blockCount {
      return Err(IntegrityFailure);
    }
    var _ :- VerifyAll(H, merkleRoot, blocks, m.proofs);
    return Ok(ValidatedBootImage(image, merkleRoot, fecCorrected, blockCount));
  }
}
