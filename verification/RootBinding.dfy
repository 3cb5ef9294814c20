/** When validation alone ties a manifest's root to the image it accepts. */
module RootBinding {
  import opened Basics
  import opened Merkle
  import opened MerkleRoot
  import opened HammingBlock
  import opened Partition
  import opened ProofCodec
  import opened Sidecar
  import opened Pipeline

  // ------------------------------------------------------------- the exact condition

  lemma HonestProofsGiveRoot(H: Hash, image: Bytes, m: BootManifest)
    requires Validated(H, image, m).Ok? && image != [] && m.proofs == HonestProofs(H, image)
    ensures m.merkleRoot == ImageRoot(H, image)
  {
    AcceptedMeans(H, image, m);
    MerkleCompleteness(H, Blocks(image), 0);
    hide Validated, Root, Path, BlockAt;
    assert Accepts(H, m.merkleRoot, Blocks(image)[0], 0, m.proofs[0]);
  }

  lemma BoundProofIsHonest(H: Hash, image: Bytes, m: BootManifest, i: nat)
    requires image != [] && m.merkleRoot == ImageRoot(H, image) && |m.proofs| == BlockCount(image) && i < BlockCount(image)
    requires Accepts(H, m.merkleRoot, Blocks(image)[i], i, m.proofs[i])
    ensures || m.proofs[i] == HonestProofs(H, image)[i]
            || CollisionIn(H, BuildInputs(H, Blocks(image)) + ValidateInputs(H, image, m.proofs))
  {
    var blocks := Blocks(image);
    BlockInputsIncluded(H, image, m.proofs, i);
    AcceptsExactly(H, blocks, blocks[i], i, m.proofs[i]);
    SourceInRange(|blocks|, i);
    hide Accepts, Path, Root, VerifyInputs, BuildInputs, ValidateInputs, BlockAt, Source;
    CollisionGrows(H, BuildInputs(H, blocks) + VerifyInputs(H, blocks[i], i, m.proofs[i]),
                   BuildInputs(H, blocks) + ValidateInputs(H, image, m.proofs));
  }

  /** A manifest that validates an image carries the image's own root exactly when its proofs are
      the image's own, or the build and the validation expose a collision. */
  lemma RootBoundExactly(H: Hash, image: Bytes, m: BootManifest)
    requires Validated(H, image, m).Ok?
    ensures image != [] && |m.proofs| == BlockCount(image)
    ensures m.proofs == HonestProofs(H, image) ==> m.merkleRoot == ImageRoot(H, image)
    ensures m.merkleRoot == ImageRoot(H, image) ==>
              || m.proofs == HonestProofs(H, image)
              || CollisionIn(H, BuildInputs(H, Blocks(image)) + ValidateInputs(H, image, m.proofs))
  {
    AcceptedMeans(H, image, m);
    if m.proofs == HonestProofs(H, image) {
      HonestProofsGiveRoot(H, image, m);
    }
    hide Validated, ImageRoot, HonestProofs, BuildInputs, ValidateInputs, Blocks, BlockCount;
    if m.merkleRoot == ImageRoot(H, image) && !CollisionIn(H, BuildInputs(H, Blocks(image)) + ValidateInputs(H, image, m.proofs)) {
      forall i | 0 <= i < BlockCount(image)
        ensures m.proofs[i] == HonestProofs(H, image)[i]
      {
        BoundProofIsHonest(H, image, m, i);
      }
    }
  }

  // ------------------------------------------------------------- a condition on lengths alone

  ghost predicate FullLength(proofs: seq<MerkleProof>, d: nat) {
    forall i :: 0 <= i < |proofs| ==> |proofs[i].steps| == d
  }

  function Steps(proofs: seq<MerkleProof>): (paths: seq<seq<Digest>>)
    ensures |paths| == |proofs|
  {
    seq(|proofs|, i requires 0 <= i < |proofs| => proofs[i].steps)
  }

  lemma ClimbsAreValidated(H: Hash, image: Bytes, proofs: seq<MerkleProof>)
    requires |proofs| == BlockCount(image)
    ensures AllClimbs(H, Leaves(H, Blocks(image)), Steps(proofs)) <= ValidateInputs(H, image, proofs)
  {
    hide ClimbInputs, BlockAt;
    forall i, x | 0 <= i < BlockCount(image) && x in ClimbInputs(H, Leaves(H, Blocks(image))[i], i, Steps(proofs)[i])
      ensures x in ValidateInputs(H, image, proofs)
    {
      assert x in VerifyInputs(H, Blocks(image)[i], i, proofs[i]);
    }
  }

  /** With a power of two of blocks it is enough to look at the lengths of the proofs: the root is
      the image's own exactly when every proof is as long as the tree is deep, or a collision. */
  lemma RootBoundByLengths(H: Hash, image: Bytes, m: BootManifest, k: nat)
    requires Validated(H, image, m).Ok? && BlockCount(image) == Pow2(k)
    ensures image != [] && |m.proofs| == BlockCount(image)
    ensures FullLength(m.proofs, k) ==> m.merkleRoot == ImageRoot(H, image) || CollisionIn(H, ValidateInputs(H, image, m.proofs))
    ensures m.merkleRoot == ImageRoot(H, image) ==>
              FullLength(m.proofs, k) || CollisionIn(H, BuildInputs(H, Blocks(image)) + ValidateInputs(H, image, m.proofs))
  {
    AcceptedMeans(H, image, m);
    RootBoundExactly(H, image, m);
    DepthOfPower(k);
    HonestManifestIsPrintable(H, image);
    hide Validated, ValidateInputs, BuildInputs, HonestProofs;
    if FullLength(m.proofs, k) {
      LengthsBindRoot(H, image, m, k);
    }
  }

  lemma LengthsBindRoot(H: Hash, image: Bytes, m: BootManifest, k: nat)
    requires image != [] && BlockCount(image) == Pow2(k) && |m.proofs| == BlockCount(image) && FullLength(m.proofs, k)
    requires AllAccepted(H, m.merkleRoot, Blocks(image), m.proofs)
    ensures m.merkleRoot == ImageRoot(H, image) || CollisionIn(H, ValidateInputs(H, image, m.proofs))
  {
    hide Climb, Root, BlockAt;
    var leaves, paths := Leaves(H, Blocks(image)), Steps(m.proofs);
    assert AllClimbTo(H, leaves, paths, m.merkleRoot, k) by {
      forall i | 0 <= i < |leaves|
        ensures |paths[i]| == k && Climb(H, leaves[i], i, paths[i]) == m.merkleRoot
      {
        assert Accepts(H, m.merkleRoot, Blocks(image)[i], i, m.proofs[i]);
      }
    }
    FullClimbsBindRoot(H, leaves, paths, m.merkleRoot, k);
    ClimbsAreValidated(H, image, m.proofs);
    CollisionGrows(H, AllClimbs(H, leaves, paths), ValidateInputs(H, image, m.proofs));
  }

  lemma DepthOfPower(k: nat)
    ensures Depth(Pow2(k)) == k
  {
    DepthIsCeilLog2(Pow2(k));
    if Depth(Pow2(k)) < k {
      Pow2Monotone(Depth(Pow2(k)), k - 1);
    }
  }

  // ------------------------------------------------------------- where validation alone falls short

  /** A manifest cut from the tree of a longer image: its root and its proofs, with this image's
      block count. */
  function ForeignManifest(H: Hash, image: Bytes, more: seq<Bytes>): (m: BootManifest)
    requires 1 <= |image| <= MAX_IMAGE_BYTES
  {
    var leaves := Leaves(H, Blocks(image) + more);
    var n := BlockCount(image);
    var root := Root(H, leaves);
    BootManifest(root, DFIM_BLOCK_SIZE, n, EncodedBlock(Metadata(root, DFIM_BLOCK_SIZE, n)),
                 seq(n, i requires 0 <= i < n => MerkleProof(Path(H, leaves, i))))
  }

  lemma ForeignProofs(H: Hash, image: Bytes, more: seq<Bytes>)
    requires 1 <= |image| <= MAX_IMAGE_BYTES
    ensures var m := ForeignManifest(H, image, more);
            && AllAccepted(H, m.merkleRoot, Blocks(image), m.proofs)
            && FullLength(m.proofs, Depth(|Blocks(image) + more|))
  {
    var blocks := Blocks(image) + more;
    var m := ForeignManifest(H, image, more);
    forall i | 0 <= i < BlockCount(image)
      ensures Accepts(H, m.merkleRoot, Blocks(image)[i], i, m.proofs[i]) && |m.proofs[i].steps| == Depth(|blocks|)
    {
      MerkleCompleteness(H, blocks, i);
      assert blocks[i] == Blocks(image)[i];
    }
  }

  lemma ForeignMetadataResolves(H: Hash, image: Bytes, more: seq<Bytes>)
    requires 1 <= |image| <= MAX_IMAGE_BYTES
    ensures ResolvedMetadata(ForeignManifest(H, image, more)).Ok?
  {
    hide EncodedBlock, ResolvedMetadata, Metadata, Root, Path;
    var m := ForeignManifest(H, image, more);
    assert HeaderInOrder(m);
    OneFlipPerByteIsAccepted(m);
  }

  /** For every image and every continuation, validation accepts the foreign manifest; its root is
      the image's own exactly when the continuation is what the tree fills in anyway, or a
      collision. */
  lemma ForeignManifestValidates(H: Hash, image: Bytes, more: seq<Bytes>)
    requires 1 <= |image| <= MAX_IMAGE_BYTES && forall i :: 0 <= i < |more| ==> |more[i]| == DFIM_BLOCK_SIZE
    ensures var m, blocks := ForeignManifest(H, image, more), Blocks(image);
            && Validated(H, image, m).Ok?
            && FullLength(m.proofs, Depth(|blocks + more|))
            && (Completed(blocks + more) == Completed(blocks) ==> m.merkleRoot == ImageRoot(H, image))
            && (m.merkleRoot == ImageRoot(H, image) ==>
                Completed(blocks + more) == Completed(blocks) || CollisionIn(H, BothBuilds(H, blocks + more, blocks)))
  {
    hide Validated, AllAccepted, FullLength, Completed, BothBuilds, ForeignManifest, Root, Leaves, Blocks;
    ForeignRoot(H, image, more);
    ForeignManifestAccepted(H, image, more);
    ForeignProofs(H, image, more);
    ForeignLengths(image, more);
    SameRootExactly(H, Blocks(image) + more, Blocks(image));
  }

  lemma ForeignRoot(H: Hash, image: Bytes, more: seq<Bytes>)
    requires 1 <= |image| <= MAX_IMAGE_BYTES
    ensures ForeignManifest(H, image, more).merkleRoot == Root(H, Leaves(H, Blocks(image) + more))
    ensures ImageRoot(H, image) == Root(H, Leaves(H, Blocks(image)))
  {
    hide EncodedBlock, Metadata, Path, Root, Leaves, Blocks;
  }

  lemma ForeignLengths(image: Bytes, more: seq<Bytes>)
    requires forall i :: 0 <= i < |more| ==> |more[i]| == DFIM_BLOCK_SIZE
    ensures var blocks := Blocks(image) + more;
            forall i :: 0 <= i < |blocks| ==> |blocks[i]| == DFIM_BLOCK_SIZE
    ensures forall i :: 0 <= i < |Blocks(image)| ==> |Blocks(image)[i]| == DFIM_BLOCK_SIZE
  {
    hide BlockAt;
  }

  lemma ForeignManifestAccepted(H: Hash, image: Bytes, more: seq<Bytes>)
    requires 1 <= |image| <= MAX_IMAGE_BYTES
    ensures Validated(H, image, ForeignManifest(H, image, more)).Ok?
  {
    var m := ForeignManifest(H, image, more);
    assert |m.proofs| == m.blockCount == BlockCount(image);
    hide Validated, ResolvedMetadata, MetadataAgrees, AllAccepted, FullLength, ForeignManifest, Blocks, BlockCount;
    ForeignProofs(H, image, more);
    ForeignMetadataResolves(H, image, more);
    AcceptedMeans(H, image, m);
  }

  /** As many zero blocks as the tree is wide: enough to make it deeper. */
  function Beyond(image: Bytes): (more: seq<Bytes>)
    requires image != []
    ensures forall i :: 0 <= i < |more| ==> |more[i]| == DFIM_BLOCK_SIZE
  {
    seq(Pow2(Depth(BlockCount(image))), _ => Zeros(DFIM_BLOCK_SIZE))
  }

  /** `validate_boot_image` alone ties no image to its root: for every image there is a printable
      manifest that validates it under another root, or the two builds collide. */
  lemma ValidationAloneDoesNotBindRoot(H: Hash, image: Bytes)
    requires 1 <= |image| <= MAX_IMAGE_BYTES
    ensures var m, blocks, more := ForeignManifest(H, image, Beyond(image)), Blocks(image), Beyond(image);
            && Printable(m) && Validated(H, image, m).Ok?
            && (m.merkleRoot != ImageRoot(H, image) || CollisionIn(H, BothBuilds(H, blocks + more, blocks)))
  {
    var n := BlockCount(image);
    assert |Blocks(image) + Beyond(image)| == n + Pow2(Depth(n));
    BeyondIsDeeper(n);
    DeeperTreeDoesNotBind(H, image, Beyond(image));
    hide Validated, ForeignManifest, Printable, ImageRoot, BothBuilds, Beyond, Blocks, BlockCount, Depth, Pow2;
  }

  lemma DeeperTreeDoesNotBind(H: Hash, image: Bytes, more: seq<Bytes>)
    requires 1 <= |image| <= MAX_IMAGE_BYTES && forall i :: 0 <= i < |more| ==> |more[i]| == DFIM_BLOCK_SIZE
    requires Pow2(Depth(|Blocks(image) + more|)) > Pow2(Depth(BlockCount(image))) && Depth(|Blocks(image) + more|) <= MAX_PROOF_STEPS
    ensures var m, blocks := ForeignManifest(H, image, more), Blocks(image);
            && Printable(m) && Validated(H, image, m).Ok?
            && (m.merkleRoot != ImageRoot(H, image) || CollisionIn(H, BothBuilds(H, blocks + more, blocks)))
  {
    hide Validated, ForeignManifest, Printable, ImageRoot, BothBuilds, FullLength, BlockAt, Depth, Pow2, Source;
    ForeignManifestValidates(H, image, more);
    ForeignIsPrintable(H, image, more);
    assert |Completed(Blocks(image) + more)| != |Completed(Blocks(image))|;
  }

  lemma ForeignIsPrintable(H: Hash, image: Bytes, more: seq<Bytes>)
    requires 1 <= |image| <= MAX_IMAGE_BYTES && Depth(|Blocks(image) + more|) <= MAX_PROOF_STEPS
    ensures Printable(ForeignManifest(H, image, more))
  {
    ForeignProofs(H, image, more);
    var m, n := ForeignManifest(H, image, more), BlockCount(image);
    var limits := ValidateImageByteLen(|image|);
    assert 1 <= n <= MAX_BOOT_BLOCKS;
    assert m.blockSize == DFIM_BLOCK_SIZE && m.blockCount == n == |m.proofs| && |m.fecBackup| == 80;
    hide ForeignManifest, Blocks, BlockCount, Depth, AllAccepted;
    assert Short(m.proofs);
  }

  lemma BeyondIsDeeper(n: nat)
    requires 1 <= n <= MAX_BOOT_BLOCKS
    ensures var total := n + Pow2(Depth(n));
            Pow2(Depth(total)) > Pow2(Depth(n)) && Depth(total) <= MAX_PROOF_STEPS
  {
    var total := n + Pow2(Depth(n));
    DepthOfBootImage(n);
    Pow2Monotone(Depth(n), 6);
    DepthIsCeilLog2(total);
    PowersUpTo8();
    hide Depth, Pow2;
    assert Pow2(8) >= total;
  }

  /** Nor do full-length proofs, when the count is no power of two: one other block in the first
      position the tree would fill in, and the root is another, or a collision. */
  lemma LengthsDoNotBindRoot(H: Hash, image: Bytes, other: Bytes)
    requires 1 <= |image| <= MAX_IMAGE_BYTES && |other| == DFIM_BLOCK_SIZE
    requires !exists k: nat :: BlockCount(image) == Pow2(k)
    requires BlockCount(image) < |Completed(Blocks(image))| ==> other != Completed(Blocks(image))[BlockCount(image)]
    ensures var m, blocks := ForeignManifest(H, image, [other]), Blocks(image);
            && Validated(H, image, m).Ok? && FullLength(m.proofs, Depth(BlockCount(image)))
            && (m.merkleRoot != ImageRoot(H, image) || CollisionIn(H, BothBuilds(H, blocks + [other], blocks)))
  {
    assert Blocks(image) != [];
    hide Validated, ForeignManifest, FullLength, Completed, ImageRoot, BothBuilds, Blocks, BlockCount, Depth, Pow2;
    RoomToGrow(Blocks(image));
    OtherCompletion(Blocks(image), other);
    assert |Blocks(image) + [other]| == BlockCount(image) + 1;
    ForeignManifestValidates(H, image, [other]);
  }

  lemma RoomToGrow(blocks: seq<Bytes>)
    requires blocks != [] && !exists k: nat :: |blocks| == Pow2(k)
    ensures |blocks| < |Completed(blocks)| && Depth(|blocks| + 1) == Depth(|blocks|)
  {
    CompletedPrefix(blocks);
    OneMoreKeepsDepth(|blocks|);
    hide Completed, Depth, Pow2;
    assert Completed(blocks)[..|Completed(blocks)|] == Completed(blocks);
  }

  lemma OtherCompletion(blocks: seq<Bytes>, other: Bytes)
    requires blocks != [] && |blocks| < |Completed(blocks)| && other != Completed(blocks)[|blocks|]
    ensures Completed(blocks + [other]) != Completed(blocks)
  {
    var n := |blocks|;
    CompletedPrefix(blocks + [other]);
    hide Completed;
    assert Completed(blocks + [other])[..n + 1][n] == (blocks + [other])[n] == other;
  }

  lemma OneMoreKeepsDepth(n: nat)
    requires n > 0 && n != Pow2(Depth(n))
    ensures Depth(n + 1) == Depth(n)
  {
    DepthIsCeilLog2(n);
    DepthIsCeilLog2(n + 1);
  }
}
