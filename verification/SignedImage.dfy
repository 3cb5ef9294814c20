/** The loops of the signed sidecar: building, parsing and validating DFIMBOOT v2. */
module SignedImage {
  import opened Basics
  import opened Merkle
  import opened HammingBlock
  import opened Partition
  import opened ProofCodec
  import opened Sidecar
  import opened Pipeline
  import opened BootImage
  import opened SignedManifest

  /** The proof loop of the builder, which proves and appends block by block. */
  method AppendHonestProofs(H: Hash, image: Bytes, tree: MerkleTree, head: Bytes) returns (r: Result<Bytes>)
    requires 1 <= |image| <= MAX_IMAGE_BYTES && Short(HonestProofs(H, image))
    requires tree == MerkleTree(ImageRoot(H, image), Layers(H, Leaves(H, Blocks(image))))
    ensures r == Ok(head + PrintProofs(HonestProofs(H, image)))
  {
    hide Path, Layers, Root, BlockAt;
    ghost var ps := HonestProofs(H, image);
    var blob := head;
    for index := 0 to BlockCount(image)
      invariant blob == head + PrintProofs(ps[..index])
    {
      var proof :- Prove(H, tree, index);
      assert proof == ps[index];
      if |proof.steps| > MAX_PROOF_STEPS {
        return Err(InvalidParameter);
      }
      assert ps[..index + 1] == ps[..index] + [proof];
      PrintProofsAppend(ps[..index], proof);
      blob := AppendOne(blob, proof);
      ConcatAssociative(head, PrintProofs(ps[..index]), PrintProof(proof));
    }
    assert ps[..BlockCount(image)] == ps;
    return Ok(blob);
  }

  /** `build_signed_boot_sidecar_v2` */
  method BuildSignedBootSidecarV2(H: Hash, S: Ecdsa, image: Bytes, sk: Bytes, keyId: KeyId, release: u64) returns (r: Result<Bytes>)
    ensures r == SignedSidecar(H, S, image, sk, keyId, release)
  {
    var _ :- ValidateImageByteLen(|image|);
    if release == 0 {
      return Err(InvalidParameter);
    }
    HonestManifestIsPrintable(H, image);
    hide HonestProofs, EncodedBlock, BlockAt, V2Header;
    var blocks :- PartitionBlocks(image, DFIM_BLOCK_SIZE);
    var blockCount := |blocks|;
    var built, _ := Build(H, blocks);
    var tree :- built;
    var root: Digest := tree.root;
    var metadata := root + ToLE(DFIM_BLOCK_SIZE, 4) + ToLE(blockCount, 4);
    var fecBackup :- EncodeBlock(metadata);
    var header := PrintV2Header(root, DFIM_BLOCK_SIZE, blockCount, release, keyId, |fecBackup|);
    var blob :- AppendHonestProofs(H, image, tree, header + fecBackup);
    ConcatAssociative(header, fecBackup, PrintProofs(HonestProofs(H, image)));
    if !S.privateKeyOk(sk) {
      return Err(InvalidParameter);
    }
    var signature := S.sign(sk, blob);
    return Ok(blob + signature);
  }

  method PrintV2Header(root: Digest, blockSize: nat, blockCount: nat, release: nat, keyId: KeyId, fecLen: nat) returns (blob: Bytes)
    ensures blob == V2Header(root, blockSize, blockCount, release, keyId, fecLen)
  {
    hide ToLE;
    blob := [];
    blob := blob + MAGIC;
    blob := blob + ToLE(V2_VERSION, 4);
    blob := blob + ToLE(V2_HEADER_LEN, 4);
    blob := blob + ToLE(blockSize, 4);
    blob := blob + ToLE(blockCount, 4);
    assert blob == V2Front(blockSize, blockCount);
    ghost var front := blob;
    blob := blob + ToLE(release, 8);
    blob := blob + keyId;
    blob := blob + ToLE(V2_ALGORITHM, 4);
    blob := blob + ToLE(V2_SIGNATURE_LEN, 4);
    assert blob == front + V2Middle(release, keyId);
    ghost var middle := blob;
    blob := blob + root;
    blob := blob + ToLE(fecLen, 4);
    assert blob == middle + V2Back(root, fecLen);
    ConcatAssociative(front, V2Middle(release, keyId), V2Back(root, fecLen));
  }

  /** One proof of the v2 parser: each digest is checked against the end as it is read. */
  method ReadOneBounded(data: Bytes, start: nat, end: nat) returns (r: Result<MerkleProof>, next: nat)
    requires start <= end <= |data|
    ensures next <= end
    ensures r.Err? ==> ParseProof(data[start..end]) == Err(r.error)
    ensures r.Ok? ==> ParseProof(data[start..end]) == Ok((r.value, data[next..end]))
  {
    hide Chunk;
    next := start;
    if next >= end {
      return Err(BufferTooShort), next;
    }
    var stepCount: nat := data[next];
    next := next + 1;
    if stepCount > MAX_PROOF_STEPS {
      return Err(InvalidParameter), next;
    }
    var steps;
    steps, next := ReadStepsBounded(data, next, end, stepCount);
    if steps.Err? {
      return Err(BufferTooShort), next;
    }
    SliceOfSlice(data, start, end, 1, 1 + 32 * stepCount);
    return Ok(MerkleProof(steps.value)), next;
  }

  /** The proof loop of the v2 parser. */
  method ReadProofsBounded(data: Bytes, start: nat, end: nat, count: nat) returns (r: Result<seq<MerkleProof>>, offset: nat)
    requires start <= end <= |data|
    ensures offset <= end
    ensures r.Err? ==> ParseProofs(data[start..end], count) == Err(r.error)
    ensures r.Ok? ==> ParseProofs(data[start..end], count) == Ok((r.value, data[offset..end]))
  {
    hide ParseProof, ParseProofs;
    offset := start;
    var proofs: seq<MerkleProof> := [];
    PrependNothing(ParseProofs(data[start..end], count));
    for i := 0 to count
      invariant offset <= end
      invariant ParseProofs(data[start..end], count) == Prepend(proofs, ParseProofs(data[offset..end], count - i))
    {
      hide Prepend;
      ghost var rest := data[offset..end];
      var one, next := ReadOneBounded(data, offset, end);
      if one.Err? {
        ParseProofsStops(rest, count - i, proofs);
        return Err(one.error), next;
      }
      ParseProofsNext(rest, count - i, proofs, one.value, data[next..end]);
      offset := next;
      proofs := proofs + [one.value];
    }
    ParseNoProofs(data[offset..end], proofs);
    return Ok(proofs), offset;
  }

  method ReadStepsBounded(data: Bytes, start: nat, end: nat, stepCount: nat) returns (r: Result<seq<Digest>>, offset: nat)
    requires start <= end <= |data|
    ensures start <= offset <= end
    ensures r.Ok? <==> start + 32 * stepCount <= end
    ensures r.Err? ==> r.error == BufferTooShort
    ensures r.Ok? ==> offset == start + 32 * stepCount && r.value == Chunk(data[start..offset], stepCount)
  {
    offset := start;
    var steps: seq<Digest> := [];
    for k := 0 to stepCount
      invariant offset == start + 32 * k <= end
      invariant |steps| == k && forall i :: 0 <= i < k ==> steps[i] == data[start + 32 * i..start + 32 * i + 32]
    {
      var next := offset + 32;
      if next > end {
        return Err(BufferTooShort), offset;
      }
      steps := steps + [data[offset..next]];
      offset := next;
    }
    forall i | 0 <= i < stepCount
      ensures steps[i] == Chunk(data[start..offset], stepCount)[i]
    {
      SliceOfSlice(data, start, offset, 32 * i, 32 * i + 32);
    }
    return Ok(steps), offset;
  }

  /** `parse_and_verify_boot_sidecar_v2` */
  method ParseAndVerifyBootSidecarV2(S: Ecdsa, data: Bytes, policy: Policy) returns (r: Result<VerifiedManifest>)
    requires |data| <= MAX_SLICE_BYTES
    ensures r == V2Parsed(S, data, policy)
    ensures r.Ok? ==> Canonical(r.value.manifest, r.value.releaseCounter, r.value.keyId, policy)
    ensures r.Ok? ==> data[..|data| - V2_SIGNATURE_LEN] == V2Body(r.value.manifest, r.value.releaseCounter, r.value.keyId)
  {
    hide Read32, Read64, Canonical, V2Body, IsV2Header, V2HeaderChecked, V2BodyParsed, SignatureChecked, RootBackedUp;
    if |data| < V2_HEADER_LEN + V2_SIGNATURE_LEN {
      return Err(BufferTooShort);
    }
    var _ :- CheckV2Header(data, policy);
    var blockSize, blockCount, releaseCounter := Read32(data, 16), Read32(data, 20), Read64(data, 24);
    var keyId := data[32..48];
    var signedEnd := |data| - V2_SIGNATURE_LEN;
    var _ :- CheckSignature(S, data[..signedEnd], data[signedEnd..], policy);
    var merkleRoot := data[56..88];
    var fecLen := Read32(data, 88);
    var m :- ReadV2Body(data, signedEnd, merkleRoot, blockSize, blockCount, fecLen);
    assert |m.fecBackup| <= |data| by {
      BodyIsShort(merkleRoot, blockSize, blockCount, fecLen, data[V2_HEADER_LEN..signedEnd]);
    }
    var _ :- CheckBackup(m);
    ParsedReprints(S, data, policy);
    return Ok(VerifiedManifest(m, releaseCounter, keyId));
  }

  lemma BodyIsShort(root: Digest, blockSize: u32, blockCount: u32, fecLen: nat, rest: Bytes)
    ensures var m := V2BodyParsed(root, blockSize, blockCount, fecLen, rest);
            m.Ok? ==> |m.value.fecBackup| <= |rest|
  {
    hide ParseProofs;
  }

  method CheckSignature(S: Ecdsa, body: Bytes, signature: Bytes, policy: Policy) returns (r: Result<()>)
    ensures r == SignatureChecked(S, body, signature, policy)
  {
    if !S.publicKeyOk(policy.publicKey) {
      return Err(InvalidParameter);
    }
    if !S.signatureOk(signature) {
      return Err(IntegrityFailure);
    }
    if !S.verify(policy.publicKey, body, signature) {
      return Err(IntegrityFailure);
    }
    return Ok(());
  }

  /** The last test: the backup must decode to the header's root. */
  method CheckBackup(m: BootManifest) returns (r: Result<()>)
    requires |m.fecBackup| <= MAX_SLICE_BYTES
    ensures r == RootBackedUp(m)
  {
    hide DecodedBlock;
    var decoded :- DecodeBlock(m.fecBackup);
    if |decoded| < 40 {
      return Err(CorruptMetadata);
    }
    var decodedRoot := decoded[..32];
    if m.merkleRoot != decodedRoot {
      return Err(CorruptMetadata);
    }
    return Ok(());
  }

  method CheckV2Header(data: Bytes, policy: Policy) returns (r: Result<()>)
    requires |data| >= V2_HEADER_LEN
    ensures r == V2HeaderChecked(data, policy)
    ensures r.Ok? <==> IsV2Header(data[..V2_HEADER_LEN], policy)
  {
    HeaderCheckedExactly(data, policy);
    hide Read32, Read64, IsV2Header;
    if data[..8] != MAGIC {
      return Err(IntegrityFailure);
    }
    if Read32(data, 8) != V2_VERSION || Read32(data, 12) != V2_HEADER_LEN {
      return Err(InvalidParameter);
    }
    var blockSize := Read32(data, 16);
    var blockCount := Read32(data, 20);
    if blockSize != DFIM_BLOCK_SIZE || blockCount == 0 {
      return Err(InvalidParameter);
    }
    var _ :- ValidateBlockCount(blockCount);
    var releaseCounter := Read64(data, 24);
    if releaseCounter < policy.minimumRelease || releaseCounter == 0 {
      return Err(IntegrityFailure);
    }
    if data[32..48] != policy.expectedKeyId {
      return Err(IntegrityFailure);
    }
    if Read32(data, 48) != V2_ALGORITHM || Read32(data, 52) != V2_SIGNATURE_LEN {
      return Err(InvalidParameter);
    }
    return Ok(());
  }

  method ReadV2Body(data: Bytes, signedEnd: nat, root: Digest, blockSize: u32, blockCount: u32, fecLen: nat) returns (r: Result<BootManifest>)
    requires V2_HEADER_LEN <= signedEnd <= |data|
    ensures r == V2BodyParsed(root, blockSize, blockCount, fecLen, data[V2_HEADER_LEN..signedEnd])
  {
    hide ParseProofs;
    var fecEnd := V2_HEADER_LEN + fecLen;
    if fecEnd > signedEnd || fecLen == 0 || fecLen % 2 != 0 {
      return Err(BufferTooShort);
    }
    var fecBackup := data[V2_HEADER_LEN..fecEnd];
    ghost var rest := data[V2_HEADER_LEN..signedEnd];
    assert rest[..fecLen] == fecBackup && rest[fecLen..] == data[fecEnd..signedEnd];
    var proofs, offset := ReadProofsBounded(data, fecEnd, signedEnd, blockCount);
    if proofs.Err? {
      return Err(proofs.error);
    }
    if offset != signedEnd {
      return Err(IntegrityFailure);
    }
    return Ok(BootManifest(root, blockSize, blockCount, fecBackup, proofs.value));
  }

  /** `validate_signed_boot_image_v2` */
  method ValidateSignedBootImageV2(H: Hash, S: Ecdsa, image: Bytes, sidecar: Bytes, policy: Policy) returns (r: Result<ValidatedSigned>)
    requires |sidecar| <= MAX_SLICE_BYTES
    ensures r == SignedValidated(H, S, image, sidecar, policy)
  {
    var verified :- ParseAndVerifyBootSidecarV2(S, sidecar, policy);
    AcceptedIsCanonical(S, sidecar, policy);
    hide V2Parsed, Validated, RootBackedUp, V2Body;
    var boot :- ValidateBootImage(H, image, verified.manifest);
    return Ok(ValidatedSigned(boot, verified.releaseCounter, verified.keyId));
  }
}
