/** The provisioner's `verify` command on in-memory bytes: state database, live root, validation. */
module HostVerify {
  import opened Basics
  import opened Merkle
  import opened Partition
  import opened HammingBlock
  import opened ProofCodec
  import opened Sidecar
  import opened Pipeline
  import opened StateDb
  import opened RootBinding

  datatype VerifyReport = VerifyReport(merkleRoot: Digest, blockCount: nat)

  /** One constructor per error message of the source. */
  datatype VerifyError =
    | EmptyImage
    | EmptyState
    | ImageBounds(error: DfimError)
    | BadState(error: DfimError)
    | BadSidecar(error: DfimError)
    | BlockTamper(error: DfimError)
    | RootDiffers

  datatype Outcome = Verified(report: VerifyReport) | Rejected(reason: VerifyError)

  /** `verify_image_bytes_against_state`; the live root is the image's own Merkle root, because
      building a sidecar and parsing it back cannot fail here. */
  ghost function VerifyImage(H: Hash, image: Bytes, state: Bytes): (o: Outcome) {
    if image == [] then Rejected(EmptyImage)
    else if ValidateImageByteLen(|image|).Err? then Rejected(ImageBounds(ValidateImageByteLen(|image|).error))
    else if state == [] then Rejected(EmptyState)
    else
      match StateParsed(H, state)
      case Err(e) => Rejected(BadState(e))
      case Ok(sidecar) =>
        match Parsed(sidecar)
        case Err(e) => Rejected(BadSidecar(e))
        case Ok(baseline) =>
          match Validated(H, image, baseline)
          case Err(e) => Rejected(BlockTamper(e))
          case Ok(v) =>
            if LiveRoot(H, image) != v.merkleRoot then Rejected(RootDiffers)
            else Verified(VerifyReport(v.merkleRoot, BlockCount(image)))
  }

  /** `compute_live_merkle_root`: build a sidecar for the image, parse it, take its root. */
  ghost function LiveRoot(H: Hash, image: Bytes): (root: Digest)
    requires 1 <= |image| <= MAX_IMAGE_BYTES
    ensures root == ImageRoot(H, image)
  {
    HonestSidecarIsAccepted(H, image);
    Parsed(Print(HonestManifest(H, image))).value.merkleRoot
  }

  /** The baseline a state holds, if it holds one. */
  function Baseline(H: Hash, state: Bytes): (m: Option<BootManifest>) {
    if StateParsed(H, state).Err? || Parsed(StateParsed(H, state).value).Err? then None
    else Some(Parsed(StateParsed(H, state).value).value)
  }

  /** The host path accepts exactly when the state holds a baseline that validates the image under the
      image's own Merkle root. */
  lemma VerifyAcceptsExactly(H: Hash, image: Bytes, state: Bytes)
    ensures VerifyImage(H, image, state).Verified? <==>
              && StateParsed(H, state).Ok? && Parsed(StateParsed(H, state).value).Ok?
              && var m := Parsed(StateParsed(H, state).value).value;
              Validated(H, image, m).Ok? && image != [] && m.merkleRoot == ImageRoot(H, image)
    ensures VerifyImage(H, image, state).Verified? ==>
              VerifyImage(H, image, state).report == VerifyReport(ImageRoot(H, image), BlockCount(image))
  {
    if Baseline(H, state).Some? {
      AcceptedMeans(H, image, Baseline(H, state).value);
    }
    assert state == [] ==> StateParsed(H, state).Err?;
    hide StateParsed, Parsed, Validated, ImageRoot, BlockCount, LiveRoot;
  }

  /** Which input is rejected for which reason: the first that applies, in this order. */
  lemma RejectionReasons(H: Hash, image: Bytes, state: Bytes)
    ensures var o := VerifyImage(H, image, state);
            var inBounds := 1 <= |image| <= 262144;
            && (|image| == 0 <==> o == Rejected(EmptyImage))
            && (|image| > 262144 <==> o == Rejected(ImageBounds(BufferTooLong)))
            && (inBounds && |state| == 0 <==> o == Rejected(EmptyState))
            && (inBounds && |state| > 0 && StateParsed(H, state).Err? ==> o == Rejected(BadState(StateParsed(H, state).error)))
            && (inBounds && StateParsed(H, state).Ok? && Parsed(StateParsed(H, state).value).Err? ==>
                o == Rejected(BadSidecar(Parsed(StateParsed(H, state).value).error)))
    ensures var o := VerifyImage(H, image, state);
            Baseline(H, state).Some? && 1 <= |image| <= 262144 ==>
              var v := Validated(H, image, Baseline(H, state).value);
              && (v.Err? ==> o == Rejected(BlockTamper(v.error)))
              && (v.Ok? && Baseline(H, state).value.merkleRoot != ImageRoot(H, image) ==> o == Rejected(RootDiffers))
  {
    if Baseline(H, state).Some? {
      AcceptedMeans(H, image, Baseline(H, state).value);
    }
    assert state == [] ==> StateParsed(H, state).Err?;
    hide StateParsed, Parsed, Validated, ImageRoot, BlockCount, LiveRoot;
  }

  lemma AgreeingHeader(m: BootManifest)
    requires MetadataAgrees(m)
    ensures m.blockSize == DFIM_BLOCK_SIZE
  {
  }

  /** So the host path accepts exactly the image's own sidecar: root, count and every proof are the
      ones a build of the image gives, and only the Hamming backup may be damaged, within what
      resolves; or the build and the validation expose a collision. */
  lemma VerifiedMeansOwnSidecar(H: Hash, image: Bytes, state: Bytes, m: BootManifest)
    requires StateParsed(H, state).Ok? && Parsed(StateParsed(H, state).value) == Ok(m)
    ensures 1 <= |image| <= MAX_IMAGE_BYTES && MetadataAgrees(m) && m == HonestManifest(H, image).(fecBackup := m.fecBackup) ==>
              VerifyImage(H, image, state).Verified?
    ensures VerifyImage(H, image, state).Verified? ==>
              && 1 <= |image| <= MAX_IMAGE_BYTES && |m.proofs| == BlockCount(image) && MetadataAgrees(m)
              && (|| m == HonestManifest(H, image).(fecBackup := m.fecBackup)
                  || CollisionIn(H, BuildInputs(H, Blocks(image)) + ValidateInputs(H, image, m.proofs)))
  {
    VerifyAcceptsExactly(H, image, state);
    AcceptedMeans(H, image, m);
    if 1 <= |image| <= MAX_IMAGE_BYTES {
      HonestProofsAccepted(H, image);
    }
    hide MetadataAgrees, StateParsed, Parsed, VerifyImage, ImageRoot, BlockCount, Blocks, ValidateInputs, BuildInputs, EncodedBlock, AllAccepted;
    if VerifyImage(H, image, state).Verified? {
      RootBoundExactly(H, image, m);
      AgreeingHeader(m);
    }
  }

  /** An image verified against the state made from an original image is that image up to zero
      padding, or the two builds and the validation hash two different strings to one digest. */
  lemma VerifyPinsOriginal(H: Hash, original: Bytes, image: Bytes, state: Bytes)
    requires 1 <= |original| <= MAX_IMAGE_BYTES
    requires StateParsed(H, state) == Ok(PrintHonest(H, original))
    requires VerifyImage(H, image, state).Verified?
    ensures BlockCount(image) == BlockCount(original)
    ensures ZeroPad(image) == ZeroPad(original)
            || CollisionIn(H, BuildInputs(H, Blocks(original)) + ValidateInputs(H, image, HonestProofs(H, original)))
  {
    var m := HonestManifest(H, original);
    HonestSidecarIsAccepted(H, original);
    VerifyAcceptsExactly(H, image, state);
    hide StateParsed, Parsed, Validated, ImageRoot, VerifyImage, EncodedBlock, Print, ValidateInputs, BuildInputs, ZeroPad, BlockCount;
    RootAndCountPinImage(H, original, image, m);
  }

  lemma PrintedHeaderIsGood(m: BootManifest)
    requires Printable(m) && |m.fecBackup| < U32_LIMIT
    ensures SidecarHeader(Print(m)).Ok?
  {
    ParsePrinted(m);
    hide ParsedBody, Print, ProofCodec.PrintProofs;
  }

  /** An image verifies against the state made from it, bare or in its envelope. */
  lemma HonestStateVerifies(H: Hash, image: Bytes)
    requires 1 <= |image| <= MAX_IMAGE_BYTES
    ensures VerifyImage(H, image, PrintHonest(H, image)).Verified?
    ensures Wrapped(H, PrintHonest(H, image)).Ok?
    ensures VerifyImage(H, image, Wrapped(H, PrintHonest(H, image)).value).Verified?
  {
    var m := HonestManifest(H, image);
    HonestManifestIsPrintable(H, image);
    HonestSidecarIsAccepted(H, image);
    PrintedHeaderIsGood(m);
    PrintProofsLength(m.proofs);
    var sidecar := PrintHonest(H, image);
    assert |sidecar| < U32_LIMIT by {
      hide HonestManifest, ProofCodec.PrintProofs, Header;
    }
    assert Wrapped(H, sidecar).Ok? by {
      hide SidecarHeader, HonestManifest, Print;
    }
    hide HonestManifest, Print, Parsed, Validated, ImageRoot, BlockCount, VerifyImage, StateParsed, Wrapped, SidecarHeader;
    StateParsedExactly(H, sidecar, sidecar);
    VerifyAcceptsExactly(H, image, sidecar);
    var state := Wrapped(H, sidecar).value;
    StateParsedExactly(H, state, sidecar);
    VerifyAcceptsExactly(H, image, state);
  }

  function PrintHonest(H: Hash, image: Bytes): (b: Bytes)
    requires 1 <= |image| <= MAX_IMAGE_BYTES
  {
    HonestManifestIsPrintable(H, image);
    Print(HonestManifest(H, image))
  }
}
