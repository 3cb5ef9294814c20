/** The fixed-buffer validator for eBPF and other no-alloc environments, and that it gives the heap
    validator's verdict. */
module CompactValidate {
  import opened Basics
  import opened Merkle
  import opened HammingBlock
  import opened Partition
  import opened ProofCodec
  import opened Sidecar
  import opened Pipeline

  const ZERO_DIGEST: Digest := Zeros(32)

  type Siblings = s: seq<Digest> | |s| == 16 witness seq<Digest>(16, _ => ZERO_DIGEST)
  type FecBuffer = b: Bytes | |b| == 128 witness seq(128, _ => 0)
  type u16 = x: int | 0 <= x < 0x1_0000

  datatype CompactProof = CompactProof(stepCount: byte, siblings: Siblings)
  datatype CompactManifest = CompactManifest(
    merkleRoot: Digest,
    blockSize: u32,
    blockCount: u32,
    fecLen: u16,
    fecBackup: FecBuffer)

  /** An overlong length field yields an empty backup, which is then refused. */
  function FecSlice(m: CompactManifest): (b: Bytes) {
    if m.fecLen > MAX_FEC_BACKUP then [] else m.fecBackup[..m.fecLen]
  }

  // ------------------------------------------------------------- reference results

  /** `CompactProof::verify_block` */
  function BlockVerdict(H: Hash, root: Digest, block: Bytes, index: nat, proof: CompactProof): (r: Result<bool>) {
    if proof.stepCount > MAX_PROOF_STEPS then Err(InvalidParameter)
    else Ok(Accepts(H, root, block, index, MerkleProof(proof.siblings[..proof.stepCount])))
  }

  /** `validate_block_compact` */
  function BlockResult(H: Hash, root: Digest, block: Bytes, index: nat, proof: CompactProof): (r: Result<()>) {
    if |block| != DFIM_BLOCK_SIZE then Err(InvalidParameter)
    else
      match BlockVerdict(H, root, block, index, proof)
      case Err(e) => Err(e)
      case Ok(ok) => if ok then Ok(()) else Err(IntegrityFailure)
  }

  /** The first block, from `i` on, that is not accepted decides. */
  function BlocksResult(H: Hash, root: Digest, image: Bytes, proofs: seq<CompactProof>, i: nat): (r: Result<()>)
    requires i <= |proofs| == BlockCount(image)
    decreases |proofs| - i
  {
    if i == |proofs| then Ok(())
    else
      var here := BlockResult(H, root, BlockAt(image, i), i, proofs[i]);
      if here.Err? then here else BlocksResult(H, root, image, proofs, i + 1)
  }

  /** `resolve_metadata_into`; the same test, in the same order, as the heap form. */
  function CompactMetadata(m: CompactManifest): (r: Result<(Digest, u32, u32)>) {
    match RecoveredMetadata(FecSlice(m))
    case Err(e) => Err(e)
    case Ok((root, blockSize, blockCount)) =>
      if blockSize != DFIM_BLOCK_SIZE || blockCount == 0 then Err(InvalidParameter)
      else if blockCount > MAX_BOOT_BLOCKS then Err(ParameterOverflow)
      else if m.merkleRoot == root && m.blockSize == blockSize && m.blockCount == blockCount
      then Ok((root, blockSize, blockCount))
      else Err(CorruptMetadata)
  }

  /** `validate_boot_image_compact`, error codes included. */
  function CompactValidated(H: Hash, image: Bytes, m: CompactManifest, proofs: seq<CompactProof>): (r: Result<()>) {
    if ValidateImageByteLen(|image|).Err? then Err(ValidateImageByteLen(|image|).error)
    else
      match CompactMetadata(m)
      case Err(e) => Err(e)
      case Ok((root, blockSize, blockCount)) =>
        if |proofs| != blockCount || BlockCount(image) != blockCount then Err(IntegrityFailure)
        else BlocksResult(H, root, image, proofs, 0)
  }

  // ------------------------------------------------------------- the two forms of a manifest

  predicate SameProof(c: CompactProof, p: MerkleProof) {
    c.stepCount <= MAX_PROOF_STEPS && c.siblings[..c.stepCount] == p.steps
  }

  ghost predicate Represents(c: CompactManifest, cs: seq<CompactProof>, m: BootManifest) {
    && c.fecLen <= MAX_FEC_BACKUP && FecSlice(c) == m.fecBackup
    && c.merkleRoot == m.merkleRoot && c.blockSize == m.blockSize && c.blockCount == m.blockCount
    && |cs| == |m.proofs|
    && forall i :: 0 <= i < |cs| ==> SameProof(cs[i], m.proofs[i])
  }

  function CompactOf(m: BootManifest): (c: CompactManifest)
    requires |m.fecBackup| <= MAX_FEC_BACKUP
  {
    CompactManifest(m.merkleRoot, m.blockSize, m.blockCount, |m.fecBackup|, m.fecBackup + Zeros(MAX_FEC_BACKUP - |m.fecBackup|))
  }

  function CompactProofOf(p: MerkleProof): (c: CompactProof)
    requires |p.steps| <= MAX_PROOF_STEPS
  {
    CompactProof(|p.steps|, p.steps + seq<Digest>(16 - |p.steps|, _ => ZERO_DIGEST))
  }

  function CompactProofsOf(ps: seq<MerkleProof>): (cs: seq<CompactProof>)
    requires Short(ps)
  {
    seq(|ps|, i requires 0 <= i < |ps| => CompactProofOf(ps[i]))
  }

  /** Every manifest within the fixed buffers has a compact form. */
  lemma CompactFormExists(m: BootManifest)
    requires |m.fecBackup| <= MAX_FEC_BACKUP && Short(m.proofs)
    ensures Represents(CompactOf(m), CompactProofsOf(m.proofs), m)
  {
    assert FecSlice(CompactOf(m)) == m.fecBackup;
    forall i | 0 <= i < |m.proofs|
      ensures SameProof(CompactProofsOf(m.proofs)[i], m.proofs[i])
    {
      var steps := m.proofs[i].steps;
      assert CompactProofOf(m.proofs[i]).siblings[..|steps|] == steps;
    }
  }

  /** What no heap manifest can say is refused as a parameter: an overlong backup or proof, and a block
      of another size. */
  lemma CompactErrors(H: Hash, m: CompactManifest, root: Digest, block: Bytes, index: nat, proof: CompactProof)
    ensures m.fecLen > 128 ==> CompactMetadata(m) == Err(InvalidParameter)
    ensures |block| != 4096 || proof.stepCount > 16 ==> BlockResult(H, root, block, index, proof) == Err(InvalidParameter)
    ensures |block| == 4096 && proof.stepCount <= 16 ==>
              BlockResult(H, root, block, index, proof)
              == if Accepts(H, root, block, index, MerkleProof(proof.siblings[..proof.stepCount])) then Ok(()) else Err(IntegrityFailure)
  {
    hide Accepts, DecodedBlock;
  }

  // ------------------------------------------------------------- agreement

  lemma {:induction false} BlocksAgree(H: Hash, root: Digest, image: Bytes, cs: seq<CompactProof>, ps: seq<MerkleProof>, i: nat)
    requires i <= |cs| == |ps| == BlockCount(image)
    requires forall k :: 0 <= k < |cs| ==> SameProof(cs[k], ps[k])
    ensures BlocksResult(H, root, image, cs, i)
            == if forall k :: i <= k < |ps| ==> Accepts(H, root, Blocks(image)[k], k, ps[k]) then Ok(()) else Err(IntegrityFailure)
    decreases |cs| - i
  {
    hide Accepts, BlockAt, BlockCount;
    if i < |cs| {
      BlocksAgree(H, root, image, cs, ps, i + 1);
      assert SameProof(cs[i], ps[i]);
      assert MerkleProof(cs[i].siblings[..cs[i].stepCount]) == ps[i];
      assert Blocks(image)[i] == BlockAt(image, i);
    }
  }

  /** Same verdict, same error code, on every image and every manifest both forms can hold. */
  lemma CompactAgreesWithHeap(H: Hash, image: Bytes, c: CompactManifest, cs: seq<CompactProof>, m: BootManifest)
    requires Represents(c, cs, m)
    ensures CompactValidated(H, image, c, cs).Ok? <==> Validated(H, image, m).Ok?
    ensures Validated(H, image, m).Err? ==> CompactValidated(H, image, c, cs) == Err(Validated(H, image, m).error)
  {
    hide RecoveredMetadata, BlocksResult, Accepts, BlockAt, BlockCount;
    if |cs| == BlockCount(image) && CompactMetadata(c).Ok? {
      BlocksAgree(H, CompactMetadata(c).value.0, image, cs, m.proofs, 0);
    }
  }

  /** So the no-alloc validator accepts every image with its own sidecar. */
  lemma CompactAcceptsHonestImage(H: Hash, image: Bytes)
    requires 1 <= |image| <= MAX_IMAGE_BYTES
    ensures var m := HonestManifest(H, image);
            && |m.fecBackup| <= MAX_FEC_BACKUP && Short(m.proofs)
            && CompactValidated(H, image, CompactOf(m), CompactProofsOf(m.proofs)).Ok?
  {
    HonestManifestIsPrintable(H, image);
    HonestSidecarIsAccepted(H, image);
    hide HonestManifest, Validated, CompactValidated, CompactOf, CompactProofsOf, Parsed, Print, ImageRoot, BlockCount;
    CompactAcceptsWhatHeapAccepts(H, image, HonestManifest(H, image));
  }

  lemma CompactAcceptsWhatHeapAccepts(H: Hash, image: Bytes, m: BootManifest)
    requires |m.fecBackup| <= MAX_FEC_BACKUP && Short(m.proofs) && Validated(H, image, m).Ok?
    ensures CompactValidated(H, image, CompactOf(m), CompactProofsOf(m.proofs)).Ok?
  {
    CompactFormExists(m);
    CompactAgreesWithHeap(H, image, CompactOf(m), CompactProofsOf(m.proofs), m);
    hide Validated, CompactValidated, CompactOf, CompactProofsOf, Represents;
  }

  // ------------------------------------------------------------- the code

  method VerifyBlock(H: Hash, proof: CompactProof, root: Digest, block: Bytes, index: nat) returns (r: Result<bool>)
    ensures r == BlockVerdict(H, root, block, index, proof)
  {
    var steps: nat := proof.stepCount;
    if steps > MAX_PROOF_STEPS {
      return Err(InvalidParameter);
    }
    var hash: Digest := LeafHash(H, block);
    var idx: nat := index;
    ghost var path := proof.siblings[..steps];
    assert path[0..] == path;
    for k := 0 to steps
      invariant Climb(H, hash, idx, path[k..]) == Climb(H, LeafHash(H, block), index, path)
    {
      var sibling := proof.siblings[k];
      assert path[k..][0] == sibling && path[k..][1..] == path[k + 1..];
      hash := if idx % 2 == 0 then ParentHash(H, hash, sibling) else ParentHash(H, sibling, hash);
      idx := idx / 2;
    }
    return Ok(hash == root);
  }

  method ValidateBlockCompact(H: Hash, root: Digest, block: Bytes, index: nat, proof: CompactProof) returns (r: Result<()>)
    ensures r == BlockResult(H, root, block, index, proof)
  {
    hide BlockVerdict;
    if |block| != DFIM_BLOCK_SIZE {
      return Err(InvalidParameter);
    }
    var ok :- VerifyBlock(H, proof, root, block, index);
    if ok {
      return Ok(());
    }
    return Err(IntegrityFailure);
  }

  /** `resolve_metadata_into`: the caller's decode buffer may hold anything beforehand. */
  method ResolveMetadataInto(m: CompactManifest, decoded: array<byte>, lenBefore: nat)
    returns (r: Result<(Digest, u32, u32)>, decodedLen: nat)
    requires decoded.Length == 64
    modifies decoded
    ensures r == CompactMetadata(m)
  {
    hide DecodedBlock;
    decodedLen := lenBefore;
    var fec := FecSlice(m);
    if fec == [] || |fec| % 2 != 0 {
      return Err(InvalidParameter), decodedLen;
    }
    decodedLen := 0;
    var status;
    status, decodedLen := DecodeBlockIntoStrict(fec, decoded, decodedLen);
    if status.IsFailure() {
      return status.PropagateFailure(), decodedLen;
    }
    if decodedLen < 40 {
      return Err(BufferTooShort), decodedLen;
    }
    BufferHoldsDecoded(fec, decoded[..]);
    var fecRoot := decoded[..32];
    var blockSize := Read32(decoded[..], 32);
    var blockCount := Read32(decoded[..], 36);
    if blockSize != DFIM_BLOCK_SIZE || blockCount == 0 {
      return Err(InvalidParameter), decodedLen;
    }
    var limit := ValidateBlockCount(blockCount);
    if limit.Err? {
      return Err(limit.error), decodedLen;
    }
    if m.merkleRoot == fecRoot && m.blockSize == blockSize && m.blockCount == blockCount {
      return Ok((fecRoot, blockSize, blockCount)), decodedLen;
    }
    return Err(CorruptMetadata), decodedLen;
  }

  lemma BufferHoldsDecoded(fec: Bytes, buffer: Bytes)
    requires |DecodedBlock(fec)| >= 40 && DecodedBlock(fec) <= buffer && fec != [] && |fec| % 2 == 0
    ensures RecoveredMetadata(fec) == Ok((buffer[..32], Read32(buffer, 32), Read32(buffer, 36)))
  {
    var n := |DecodedBlock(fec)|;
    assert buffer[..n] == DecodedBlock(fec);
    Read32Prefix(buffer, n, 32);
    Read32Prefix(buffer, n, 36);
    hide DecodedBlock, Read32;
    assert buffer[..n][0..32] == buffer[..32];
  }

  method ValidateBootImageCompact(H: Hash, image: Bytes, m: CompactManifest, proofs: seq<CompactProof>) returns (r: Result<()>)
    ensures r == CompactValidated(H, image, m, proofs)
  {
    hide CompactMetadata, BlockResult;
    var _ :- ValidateImageByteLen(|image|);
    var decoded := new byte[64](_ => 0);
    var metadata, _ := ResolveMetadataInto(m, decoded, 0);
    CompactMetadataInOrder(m);
    var resolved :- metadata;
    var (root, blockSize, blockCount) := resolved;
    if blockSize != DFIM_BLOCK_SIZE {
      return Err(InvalidParameter);
    }
    if |proofs| != blockCount {
      return Err(IntegrityFailure);
    }
    var _ :- ValidateBlockCount(blockCount);
    var expectedBlocks := DivCeil(|image|, DFIM_BLOCK_SIZE);
    if expectedBlocks != blockCount {
      return Err(IntegrityFailure);
    }
    for index := 0 to |proofs|
      invariant BlocksResult(H, root, image, proofs, 0) == BlocksResult(H, root, image, proofs, index)
    {
      var _ :- AssertBlockIndex(index, blockCount);
      var start := index * DFIM_BLOCK_SIZE;
      var end := Min(start + DFIM_BLOCK_SIZE, |image|);
      var block := Zeros(DFIM_BLOCK_SIZE);
      block := image[start..end] + block[end - start..];
      assert block == BlockAt(image, index);
      var _ :- ValidateBlockCompact(H, root, block, index, proofs[index]);
    }
    return Ok(());
  }

  function AssertBlockIndex(index: nat, blockCount: nat): (r: Result<()>) {
    var _ :- ValidateBlockCount(blockCount);
    if index >= blockCount then Err(IntegrityFailure) else Ok(())
  }

  lemma CompactMetadataInOrder(m: CompactManifest)
    ensures CompactMetadata(m).Ok? ==> CompactMetadata(m).value.1 == DFIM_BLOCK_SIZE && 1 <= CompactMetadata(m).value.2 <= MAX_BOOT_BLOCKS
  {
    hide RecoveredMetadata;
  }
}
