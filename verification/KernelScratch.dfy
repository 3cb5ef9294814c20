/** The kernel-map form of the validator: one scratch record, hashed with the workspace SHA-256. */
module KernelScratch {
  import opened Basics
  import opened Merkle
  import opened HammingBlock
  import opened CompactValidate
  import opened Sha256
  import opened BpfSha256

  class BpfValidateScratch {
    const block: array<byte>
    const sha256: Sha256Workspace
    const fecDecoded: array<byte>
    var fecLen: nat
    var root: Digest
    var index: nat
    var blockCount: u32
    var proof: CompactProof

    ghost predicate Valid()
      reads this, sha256
    {
      && sha256.Valid() && block.Length == DFIM_BLOCK_SIZE && fecDecoded.Length == 64
      && block !in sha256.Repr()
    }

    constructor (start: CompactProof)
      ensures Valid()
    {
      block := new byte[DFIM_BLOCK_SIZE](_ => 0);
      sha256 := new Sha256Workspace();
      fecDecoded := new byte[64](_ => 0);
      fecLen := 0;
      root := seq(32, _ => 0);
      index := 0;
      blockCount := 0;
      proof := start;
    }

    /** `resolve_metadata_from_scratch` gives the no-alloc form's verdict, and on success leaves its
        root and block count in the scratch record. */
    method ResolveMetadataFromScratch(m: CompactManifest) returns (r: Result<()>)
      requires Valid()
      modifies this, fecDecoded
      ensures Valid()
      ensures r.Ok? <==> CompactMetadata(m).Ok?
      ensures r.Err? ==> CompactMetadata(m) == Err(r.error)
      ensures r.Ok? ==> CompactMetadata(m) == Ok((root, DFIM_BLOCK_SIZE, blockCount))
      ensures index == old(index) && proof == old(proof)
    {
      hide DecodedBlock;
      var fec := FecSlice(m);
      if fec == [] || |fec| % 2 != 0 {
        return Err(InvalidParameter);
      }
      fecLen := 0;
      var status, written := DecodeBlockIntoStrict(fec, fecDecoded, fecLen);
      fecLen := written;
      if status.IsFailure() {
        return status.PropagateFailure();
      }
      if fecLen < 40 {
        return Err(BufferTooShort);
      }
      BufferHoldsDecoded(fec, fecDecoded[..]);
      root := fecDecoded[..32];
      var blockSize := Read32(fecDecoded[..], 32);
      blockCount := Read32(fecDecoded[..], 36);
      if blockSize != DFIM_BLOCK_SIZE || blockCount == 0 {
        return Err(InvalidParameter);
      }
      var _ :- ValidateBlockCount(blockCount);
      if m.merkleRoot == root && m.blockSize == blockSize && m.blockCount == blockCount {
        return Ok(());
      }
      return Err(CorruptMetadata);
    }

    /** `validate_block_from_scratch` gives the verdict of `validate_block_compact` with SHA-256,
        whatever the workspace held before. */
    method ValidateBlockFromScratch() returns (r: Result<()>)
      requires Valid()
      modifies sha256.Repr()
      ensures Valid()
      ensures r == BlockResult(Digest256, root, block[..], index, proof)
    {
      hide Digest256, Climb;
      var steps: nat := proof.stepCount;
      if steps > MAX_PROOF_STEPS {
        return Err(InvalidParameter);
      }
      var hash := Sha256Digest(block[..], sha256);
      hash := ClimbInWorkspace(hash, index, proof.siblings[..steps], sha256);
      if hash == root {
        return Ok(());
      }
      return Err(IntegrityFailure);
    }
  }

  /** What the kernel accepts at an index of a tree built with SHA-256 is that tree's block, or the
      build and the verification contain a SHA-256 collision. */
  lemma KernelAcceptsOnlyTreeBlocks(blocks: seq<Bytes>, block: Bytes, index: nat, proof: CompactProof)
    requires index < |blocks| && forall i :: 0 <= i < |blocks| ==> |blocks[i]| == DFIM_BLOCK_SIZE
    requires BlockResult(Digest256, Root(Digest256, Leaves(Digest256, blocks)), block, index, proof).Ok?
    ensures proof.stepCount <= MAX_PROOF_STEPS
    ensures block == blocks[index]
            || CollisionIn(Digest256, BuildInputs(Digest256, blocks)
                                      + VerifyInputs(Digest256, block, index, MerkleProof(proof.siblings[..proof.stepCount])))
  {
    hide Digest256, Root, BuildInputs, VerifyInputs;
    MerkleSoundness(Digest256, blocks, block, index, MerkleProof(proof.siblings[..proof.stepCount]));
  }

  /** The sibling loop, every step hashed in the one workspace. */
  method ClimbInWorkspace(leaf: Digest, index: nat, path: seq<Digest>, ws: Sha256Workspace) returns (hash: Digest)
    requires ws.Valid()
    modifies ws.Repr()
    ensures hash == Climb(Digest256, leaf, index, path)
  {
    hide Digest256;
    hash := leaf;
    var idx: nat := index;
    for k := 0 to |path|
      invariant Climb(Digest256, hash, idx, path[k..]) == Climb(Digest256, leaf, index, path)
    {
      var sibling := path[k];
      assert path[k..][1..] == path[k + 1..];
      if idx % 2 == 0 {
        hash := ParentHashBpf(hash, sibling, ws);
      } else {
        hash := ParentHashBpf(sibling, hash, ws);
      }
      idx := idx / 2;
    }
  }
}
