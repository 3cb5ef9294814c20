/** DFIMBOOT v2: the signed sidecar, its release floor, and what its verifier accepts. */
module SignedManifest {
  import opened Basics
  import opened HammingBlock
  import opened Partition
  import opened ProofCodec
  import opened Sidecar
  import opened Pipeline

  type Signature = s: Bytes | |s| == 64 witness seq(64, _ => 0)
  type KeyId = k: Bytes | |k| == 16 witness seq(16, _ => 0)
  type PublicKey = k: Bytes | |k| == 33 witness seq(33, _ => 0)

  /** ECDSA P-256 as this code uses it: key and signature decoding, signing, verifying. */
  datatype Ecdsa = Ecdsa(
    privateKeyOk: Bytes -> bool,
    publicKey: Bytes -> PublicKey,
    publicKeyOk: Bytes -> bool,
    signatureOk: Bytes -> bool,
    sign: (Bytes, Bytes) -> Signature,
    verify: (Bytes, Bytes, Bytes) -> bool)
  {
    /** The one law assumed of it: what a usable private key signs, its public key verifies. */
    ghost predicate Correct() {
      forall sk, message :: privateKeyOk(sk) ==>
        && publicKeyOk(publicKey(sk)) && signatureOk(sign(sk, message))
        && verify(publicKey(sk), message, sign(sk, message))
    }
  }

  datatype Policy = Policy(publicKey: PublicKey, expectedKeyId: KeyId, minimumRelease: u64)
  datatype VerifiedManifest = VerifiedManifest(manifest: BootManifest, releaseCounter: u64, keyId: KeyId)
  datatype ValidatedSigned = ValidatedSigned(boot: ValidatedBootImage, releaseCounter: u64, keyId: KeyId)

  const V2_VERSION: nat := 2
  const V2_HEADER_LEN: nat := 92
  const V2_ALGORITHM: nat := 1
  const V2_SIGNATURE_LEN: nat := 64

  // ------------------------------------------------------------- layout

  function V2Header(root: Digest, blockSize: nat, blockCount: nat, release: nat, keyId: KeyId, fecLen: nat): (b: Bytes)
    ensures |b| == V2_HEADER_LEN
  {
    V2Front(blockSize, blockCount) + (V2Middle(release, keyId) + V2Back(root, fecLen))
  }

  function V2Front(blockSize: nat, blockCount: nat): (b: Bytes)
    ensures |b| == 24
  {
    MAGIC + ToLE(V2_VERSION, 4) + ToLE(V2_HEADER_LEN, 4) + ToLE(blockSize, 4) + ToLE(blockCount, 4)
  }

  function V2Middle(release: nat, keyId: KeyId): (b: Bytes)
    ensures |b| == 32
  {
    ToLE(release, 8) + keyId + ToLE(V2_ALGORITHM, 4) + ToLE(V2_SIGNATURE_LEN, 4)
  }

  function V2Back(root: Digest, fecLen: nat): (b: Bytes)
    ensures |b| == 36
  {
    root + ToLE(fecLen, 4)
  }

  /** The signed bytes. */
  function V2Body(m: BootManifest, release: u64, keyId: KeyId): (b: Bytes)
    requires Short(m.proofs)
  {
    V2Header(m.merkleRoot, m.blockSize, m.blockCount, release, keyId, |m.fecBackup|) + (m.fecBackup + PrintProofs(m.proofs))
  }

  // ------------------------------------------------------------- reference results

  /** The header tests, up to the signature. */
  function V2HeaderChecked(data: Bytes, policy: Policy): (r: Result<()>)
    requires |data| >= V2_HEADER_LEN
  {
    if data[0..8] != MAGIC then Err(IntegrityFailure)
    else if Read32(data, 8) != V2_VERSION || Read32(data, 12) != V2_HEADER_LEN then Err(InvalidParameter)
    else if Read32(data, 16) != DFIM_BLOCK_SIZE || Read32(data, 20) == 0 then Err(InvalidParameter)
    else if Read32(data, 20) > MAX_BOOT_BLOCKS then Err(ParameterOverflow)
    else if Read64(data, 24) < policy.minimumRelease || Read64(data, 24) == 0 then Err(IntegrityFailure)
    else if data[32..48] != policy.expectedKeyId then Err(IntegrityFailure)
    else if Read32(data, 48) != V2_ALGORITHM || Read32(data, 52) != V2_SIGNATURE_LEN then Err(InvalidParameter)
    else Ok(())
  }

  function SignatureChecked(S: Ecdsa, body: Bytes, signature: Bytes, policy: Policy): (r: Result<()>) {
    if !S.publicKeyOk(policy.publicKey) then Err(InvalidParameter)
    else if !S.signatureOk(signature) then Err(IntegrityFailure)
    else if !S.verify(policy.publicKey, body, signature) then Err(IntegrityFailure)
    else Ok(())
  }

  /** What follows the header, up to the signature. */
  function V2BodyParsed(root: Digest, blockSize: u32, blockCount: u32, fecLen: nat, rest: Bytes): (r: Result<BootManifest>) {
    if fecLen > |rest| || fecLen == 0 || fecLen % 2 != 0 then Err(BufferTooShort)
    else
      match ParseProofs(rest[fecLen..], blockCount)
      case Err(e) => Err(e)
      case Ok((proofs, left)) =>
        if left != [] then Err(IntegrityFailure)
        else Ok(BootManifest(root, blockSize, blockCount, rest[..fecLen], proofs))
  }

  /** The backup must decode to the header's root before the manifest is handed out. */
  function RootBackedUp(m: BootManifest): (r: Result<()>) {
    match DecodeResult(m.fecBackup)
    case Err(e) => Err(e)
    case Ok(decoded) =>
      if |decoded| < 40 || decoded[..32] != m.merkleRoot then Err(CorruptMetadata) else Ok(())
  }

  /** `parse_and_verify_boot_sidecar_v2`, error codes included. */
  function V2Parsed(S: Ecdsa, data: Bytes, policy: Policy): (r: Result<VerifiedManifest>) {
    if |data| < V2_HEADER_LEN + V2_SIGNATURE_LEN then Err(BufferTooShort)
    else
      var signedEnd := |data| - V2_SIGNATURE_LEN;
      var _ :- V2HeaderChecked(data, policy);
      var _ :- SignatureChecked(S, data[..signedEnd], data[signedEnd..], policy);
      var m :- V2BodyParsed(data[56..88], Read32(data, 16), Read32(data, 20), Read32(data, 88), data[V2_HEADER_LEN..signedEnd]);
      var _ :- RootBackedUp(m);
      Ok(VerifiedManifest(m, Read64(data, 24), data[32..48]))
  }

  /** `validate_signed_boot_image_v2` */
  ghost function SignedValidated(H: Hash, S: Ecdsa, image: Bytes, sidecar: Bytes, policy: Policy): (r: Result<ValidatedSigned>) {
    match V2Parsed(S, sidecar, policy)
    case Err(e) => Err(e)
    case Ok(v) =>
      match Validated(H, image, v.manifest)
      case Err(e) => Err(e)
      case Ok(boot) => Ok(ValidatedSigned(boot, v.releaseCounter, v.keyId))
  }

  /** `build_signed_boot_sidecar_v2` */
  function SignedSidecar(H: Hash, S: Ecdsa, image: Bytes, sk: Bytes, keyId: KeyId, release: u64): (r: Result<Bytes>) {
    if ValidateImageByteLen(|image|).Err? then Err(ValidateImageByteLen(|image|).error)
    else if release == 0 then Err(InvalidParameter)
    else if !S.privateKeyOk(sk) then Err(InvalidParameter)
    else
      HonestManifestIsPrintable(H, image);
      var body := V2Body(HonestManifest(H, image), release, keyId);
      Ok(body + S.sign(sk, body))
  }

  // ------------------------------------------------------------- the header, both ways

  lemma V2HeaderSlices(root: Digest, blockSize: nat, blockCount: nat, release: nat, keyId: KeyId, fecLen: nat, rest: Bytes)
    ensures var data := V2Header(root, blockSize, blockCount, release, keyId, fecLen) + rest;
            && data[0..8] == MAGIC && data[8..12] == ToLE(V2_VERSION, 4) && data[12..16] == ToLE(V2_HEADER_LEN, 4)
            && data[16..20] == ToLE(blockSize, 4) && data[20..24] == ToLE(blockCount, 4) && data[24..32] == ToLE(release, 8)
            && data[32..48] == keyId && data[48..52] == ToLE(V2_ALGORITHM, 4) && data[52..56] == ToLE(V2_SIGNATURE_LEN, 4)
            && data[56..88] == root && data[88..92] == ToLE(fecLen, 4) && data[92..] == rest
  {
    hide ToLE;
    var f, m, b := V2Front(blockSize, blockCount), V2Middle(release, keyId), V2Back(root, fecLen);
    var data := V2Header(root, blockSize, blockCount, release, keyId, fecLen) + rest;
    V2FrontSlices(blockSize, blockCount, m + (b + rest));
    V2MiddleSlices(release, keyId, b + rest);
    hide V2Front, V2Middle;
    assert data == f + (m + (b + rest)) by {
      ConcatAssociative(f, m + b, rest);
      ConcatAssociative(m, b, rest);
    }
    var tail := m + (b + rest);
    SliceAfter(f, tail, 0, 8);
    SliceAfter(f, tail, 8, 24);
    SliceAfter(f, tail, 24, 28);
    SliceAfter(f, tail, 28, 32);
    assert data[56..] == b + rest;
    assert data[56..88] == (b + rest)[0..32] && data[88..92] == (b + rest)[32..36] && data[92..] == (b + rest)[36..];
  }

  lemma SliceAfter(a: Bytes, b: Bytes, i: nat, j: nat)
    requires i <= j <= |b|
    ensures (a + b)[|a| + i..|a| + j] == b[i..j]
  {
  }

  lemma V2FrontSlices(blockSize: nat, blockCount: nat, rest: Bytes)
    ensures var data := V2Front(blockSize, blockCount) + rest;
            && data[0..8] == MAGIC && data[8..12] == ToLE(V2_VERSION, 4) && data[12..16] == ToLE(V2_HEADER_LEN, 4)
            && data[16..20] == ToLE(blockSize, 4) && data[20..24] == ToLE(blockCount, 4) && data[24..] == rest
  {
    hide ToLE;
  }

  lemma V2MiddleSlices(release: nat, keyId: KeyId, rest: Bytes)
    ensures var data := V2Middle(release, keyId) + rest;
            && data[0..8] == ToLE(release, 8) && data[8..24] == keyId
            && data[24..28] == ToLE(V2_ALGORITHM, 4) && data[28..32] == ToLE(V2_SIGNATURE_LEN, 4) && data[32..] == rest
  {
    hide ToLE;
  }

  lemma V2HeaderReads(root: Digest, blockSize: u32, blockCount: u32, release: u64, keyId: KeyId, fecLen: u32, rest: Bytes)
    ensures var data := V2Header(root, blockSize, blockCount, release, keyId, fecLen) + rest;
            && data[0..8] == MAGIC && Read32(data, 8) == V2_VERSION && Read32(data, 12) == V2_HEADER_LEN
            && Read32(data, 16) == blockSize && Read32(data, 20) == blockCount && Read64(data, 24) == release
            && data[32..48] == keyId && Read32(data, 48) == V2_ALGORITHM && Read32(data, 52) == V2_SIGNATURE_LEN
            && data[56..88] == root && Read32(data, 88) == fecLen && data[92..] == rest
  {
    V2HeaderSlices(root, blockSize, blockCount, release, keyId, fecLen, rest);
    Pow256Values();
    FromLEToLE(V2_VERSION, 4);
    FromLEToLE(V2_HEADER_LEN, 4);
    FromLEToLE(blockSize, 4);
    FromLEToLE(blockCount, 4);
    FromLEToLE(release, 8);
    FromLEToLE(V2_ALGORITHM, 4);
    FromLEToLE(V2_SIGNATURE_LEN, 4);
    FromLEToLE(fecLen, 4);
    hide V2Header, ToLE, FromLE;
  }

  lemma V2FrontPieces(data: Bytes)
    requires |data| >= 24
    ensures data[..24] == data[0..8] + data[8..12] + data[12..16] + data[16..20] + data[20..24]
  {
    assert data[..16] == data[0..8] + data[8..12] + data[12..16];
    assert data[..24] == data[..16] + data[16..20] + data[20..24];
  }

  lemma V2FrontFromFields(data: Bytes)
    requires |data| >= V2_HEADER_LEN && data[0..8] == MAGIC && Read32(data, 8) == V2_VERSION && Read32(data, 12) == V2_HEADER_LEN
    ensures data[..24] == V2Front(Read32(data, 16), Read32(data, 20))
  {
    Read32Prints(data, 8);
    Read32Prints(data, 12);
    Read32Prints(data, 16);
    Read32Prints(data, 20);
    hide ToLE, Read32;
    V2FrontPieces(data);
  }

  lemma V2MiddlePieces(data: Bytes)
    requires |data| >= 56
    ensures data[24..56] == data[24..32] + data[32..48] + data[48..52] + data[52..56]
  {
    assert data[24..48] == data[24..32] + data[32..48];
    assert data[24..56] == data[24..48] + data[48..52] + data[52..56];
  }

  lemma V2MiddleFromFields(data: Bytes)
    requires |data| >= V2_HEADER_LEN && Read32(data, 48) == V2_ALGORITHM && Read32(data, 52) == V2_SIGNATURE_LEN
    ensures data[24..56] == V2Middle(Read64(data, 24), data[32..48])
  {
    ToLEFromLE(data[24..32]);
    Read32Prints(data, 48);
    Read32Prints(data, 52);
    assert ToLE(Read64(data, 24), 8) == data[24..32];
    hide ToLE, Read32, Read64;
    V2MiddlePieces(data);
  }

  lemma V2HeaderFromFields(data: Bytes)
    requires |data| >= V2_HEADER_LEN && data[0..8] == MAGIC && Read32(data, 8) == V2_VERSION && Read32(data, 12) == V2_HEADER_LEN
    requires Read32(data, 48) == V2_ALGORITHM && Read32(data, 52) == V2_SIGNATURE_LEN
    ensures data[..V2_HEADER_LEN]
            == V2Header(data[56..88], Read32(data, 16), Read32(data, 20), Read64(data, 24), data[32..48], Read32(data, 88))
  {
    V2FrontFromFields(data);
    V2MiddleFromFields(data);
    V2BackFromFields(data);
    hide Read32, Read64, V2Front, V2Middle, V2Back;
    V2HeaderPieces(data);
  }

  lemma V2BackFromFields(data: Bytes)
    requires |data| >= V2_HEADER_LEN
    ensures data[56..92] == V2Back(data[56..88], Read32(data, 88))
  {
    Read32Prints(data, 88);
    hide ToLE, Read32;
    assert data[56..92] == data[56..88] + data[88..92];
  }

  lemma V2HeaderPieces(data: Bytes)
    requires |data| >= V2_HEADER_LEN
    ensures data[..V2_HEADER_LEN] == data[..24] + (data[24..56] + data[56..92])
  {
    assert data[24..92] == data[24..56] + data[56..92];
    assert data[..92] == data[..24] + data[24..92];
  }

  /** The header a policy lets through: the fixed fields, one to 64 blocks, the policy's key
      identifier, and a release that is not zero and not below the floor. */
  ghost predicate IsV2Header(header: Bytes, policy: Policy) {
    exists root: Digest, blockCount: u32, release: u64, fecLen: u32 ::
      && header == V2Header(root, DFIM_BLOCK_SIZE, blockCount, release, policy.expectedKeyId, fecLen)
      && 1 <= blockCount <= MAX_BOOT_BLOCKS && release >= policy.minimumRelease && release > 0
  }

  /** The header tests pass exactly on the printed headers the policy lets through. */
  lemma HeaderCheckedExactly(data: Bytes, policy: Policy)
    requires |data| >= V2_HEADER_LEN
    ensures V2HeaderChecked(data, policy).Ok? <==> IsV2Header(data[..V2_HEADER_LEN], policy)
  {
    hide V2Header, Read32, Read64;
    if V2HeaderChecked(data, policy).Ok? {
      V2HeaderFromFields(data);
      assert IsV2Header(data[..V2_HEADER_LEN], policy);
    }
    if IsV2Header(data[..V2_HEADER_LEN], policy) {
      var root: Digest, blockCount: u32, release: u64, fecLen: u32 :|
        && data[..V2_HEADER_LEN] == V2Header(root, DFIM_BLOCK_SIZE, blockCount, release, policy.expectedKeyId, fecLen)
        && 1 <= blockCount <= MAX_BOOT_BLOCKS && release >= policy.minimumRelease && release > 0;
      V2HeaderReads(root, DFIM_BLOCK_SIZE, blockCount, release, policy.expectedKeyId, fecLen, data[V2_HEADER_LEN..]);
      assert data == data[..V2_HEADER_LEN] + data[V2_HEADER_LEN..];
    }
  }

  // ------------------------------------------------------------- what is accepted

  /** A body whose fields are in order for the given policy. */
  predicate Canonical(m: BootManifest, release: u64, keyId: KeyId, policy: Policy) {
    && Printable(m) && |m.fecBackup| < U32_LIMIT && RootBackedUp(m).Ok?
    && release >= policy.minimumRelease && release != 0 && keyId == policy.expectedKeyId
  }

  lemma V2BodyRoundTrip(m: BootManifest)
    requires Printable(m)
    ensures V2BodyParsed(m.merkleRoot, m.blockSize, m.blockCount, |m.fecBackup|, m.fecBackup + PrintProofs(m.proofs)) == Ok(m)
  {
    var rest := m.fecBackup + PrintProofs(m.proofs);
    assert rest[..|m.fecBackup|] == m.fecBackup;
    assert rest[|m.fecBackup|..] == PrintProofs(m.proofs) + [];
    ParsePrintedProofs(m.proofs, []);
  }

  lemma V2BodyPrints(root: Digest, blockSize: u32, blockCount: u32, fecLen: nat, rest: Bytes)
    requires V2BodyParsed(root, blockSize, blockCount, fecLen, rest).Ok?
    ensures var m := V2BodyParsed(root, blockSize, blockCount, fecLen, rest).value;
            && m.merkleRoot == root && m.blockSize == blockSize && m.blockCount == blockCount
            && |m.fecBackup| == fecLen && fecLen != 0 && fecLen % 2 == 0
            && |m.proofs| == blockCount && Short(m.proofs)
            && rest == m.fecBackup + PrintProofs(m.proofs)
  {
    hide ParseProofs, PrintProofs;
    PrintParsedProofs(rest[fecLen..], blockCount);
    var m := V2BodyParsed(root, blockSize, blockCount, fecLen, rest).value;
    assert PrintProofs(m.proofs) + [] == PrintProofs(m.proofs);
    assert rest == rest[..fecLen] + rest[fecLen..];
  }

  /** Slices of a body are slices of the body followed by its signature. */
  lemma PrefixReads(body: Bytes, signature: Bytes)
    requires |body| >= V2_HEADER_LEN
    ensures var data := body + signature;
            && data[0..8] == body[0..8] && data[32..48] == body[32..48] && data[56..88] == body[56..88]
            && Read32(data, 8) == Read32(body, 8) && Read32(data, 12) == Read32(body, 12) && Read32(data, 16) == Read32(body, 16)
            && Read32(data, 20) == Read32(body, 20) && Read64(data, 24) == Read64(body, 24) && Read32(data, 48) == Read32(body, 48)
            && Read32(data, 52) == Read32(body, 52) && Read32(data, 88) == Read32(body, 88)
  {
    hide FromLE;
    var data := body + signature;
    assert data[8..12] == body[8..12] && data[12..16] == body[12..16] && data[16..20] == body[16..20];
    assert data[20..24] == body[20..24] && data[24..32] == body[24..32] && data[48..52] == body[48..52];
    assert data[52..56] == body[52..56] && data[88..92] == body[88..92];
  }

  /** A signed canonical body is accepted, with the fields it was made from. */
  lemma CanonicalIsAccepted(S: Ecdsa, m: BootManifest, release: u64, keyId: KeyId, signature: Signature, policy: Policy)
    requires Canonical(m, release, keyId, policy)
    requires SignatureChecked(S, V2Body(m, release, keyId), signature, policy).Ok?
    ensures V2Parsed(S, V2Body(m, release, keyId) + signature, policy) == Ok(VerifiedManifest(m, release, keyId))
  {
    var body := V2Body(m, release, keyId);
    var data, signedEnd := body + signature, |body|;
    var rest := m.fecBackup + PrintProofs(m.proofs);
    V2HeaderReads(m.merkleRoot, m.blockSize, m.blockCount, release, keyId, |m.fecBackup|, rest);
    PrefixReads(body, signature);
    V2BodyRoundTrip(m);
    hide V2Header, Read32, Read64, V2BodyParsed, RootBackedUp, SignatureChecked, PrintProofs;
    assert data[..signedEnd] == body && data[signedEnd..] == signature;
    assert data[V2_HEADER_LEN..signedEnd] == body[V2_HEADER_LEN..] == rest;
  }

  /** Whatever is accepted is a canonical body followed by a signature that verifies. */
  lemma AcceptedIsCanonical(S: Ecdsa, data: Bytes, policy: Policy)
    requires V2Parsed(S, data, policy).Ok?
    ensures var v := V2Parsed(S, data, policy).value;
            && Canonical(v.manifest, v.releaseCounter, v.keyId, policy)
            && |data| >= V2_SIGNATURE_LEN
            && var signature := data[|data| - V2_SIGNATURE_LEN..];
            && data == V2Body(v.manifest, v.releaseCounter, v.keyId) + signature
            && SignatureChecked(S, V2Body(v.manifest, v.releaseCounter, v.keyId), signature, policy).Ok?
  {
    hide SignatureChecked, RootBackedUp, Read64;
    var signedEnd := |data| - V2_SIGNATURE_LEN;
    var rest := data[V2_HEADER_LEN..signedEnd];
    V2BodyPrints(data[56..88], Read32(data, 16), Read32(data, 20), Read32(data, 88), rest);
    V2HeaderFromFields(data);
    hide V2Header, V2BodyParsed, Read32, PrintProofs;
    var v := V2Parsed(S, data, policy).value;
    assert data[..signedEnd] == data[..V2_HEADER_LEN] + rest;
    assert data == data[..signedEnd] + data[signedEnd..];
  }

  /** The signed bytes determine every field: no two canonical bodies print alike. */
  lemma V2BodyInjective(a: BootManifest, ra: u64, ka: KeyId, b: BootManifest, rb: u64, kb: KeyId)
    requires Printable(a) && Printable(b) && |a.fecBackup| < U32_LIMIT && |b.fecBackup| < U32_LIMIT
    requires V2Body(a, ra, ka) == V2Body(b, rb, kb)
    ensures a == b && ra == rb && ka == kb
  {
    V2HeaderReads(a.merkleRoot, a.blockSize, a.blockCount, ra, ka, |a.fecBackup|, a.fecBackup + PrintProofs(a.proofs));
    V2HeaderReads(b.merkleRoot, b.blockSize, b.blockCount, rb, kb, |b.fecBackup|, b.fecBackup + PrintProofs(b.proofs));
    V2BodyRoundTrip(a);
    V2BodyRoundTrip(b);
    hide V2Header, V2BodyParsed, Read32, Read64, PrintProofs;
  }

  /** When the backup counts as holding the root: an even backup of at least 80 bytes whose first 32
      decoded bytes are the root. */
  lemma RootBackedUpExactly(m: BootManifest)
    ensures RootBackedUp(m).Ok? <==>
              |m.fecBackup| >= 80 && |m.fecBackup| % 2 == 0 && DecodedBlock(m.fecBackup)[..32] == m.merkleRoot
    ensures RootBackedUp(m).Err? ==>
              RootBackedUp(m).error == if |m.fecBackup| == 0 || |m.fecBackup| % 2 != 0 then InvalidParameter else CorruptMetadata
  {
    hide DecodedBlock;
  }

  /** The verifier, exactly: the signed part is the print of the fields returned, which are in order for
      the policy, and the key and the last 64 bytes decode and verify it. */
  lemma V2ParsedExactly(S: Ecdsa, data: Bytes, policy: Policy, v: VerifiedManifest)
    ensures V2Parsed(S, data, policy) == Ok(v) <==>
              && Canonical(v.manifest, v.releaseCounter, v.keyId, policy) && |data| >= 64
              && var body, signature := data[..|data| - 64], data[|data| - 64..];
              && body == V2Body(v.manifest, v.releaseCounter, v.keyId)
              && S.publicKeyOk(policy.publicKey) && S.signatureOk(signature) && S.verify(policy.publicKey, body, signature)
  {
    hide V2Parsed, V2Body, RootBackedUp;
    if V2Parsed(S, data, policy).Ok? {
      ParsedReprints(S, data, policy);
      var w := V2Parsed(S, data, policy).value;
      if Canonical(v.manifest, v.releaseCounter, v.keyId, policy)
         && V2Body(w.manifest, w.releaseCounter, w.keyId) == V2Body(v.manifest, v.releaseCounter, v.keyId) {
        CanonicalInjective(v, w, policy);
      }
    }
    if Canonical(v.manifest, v.releaseCounter, v.keyId, policy) && |data| >= 64
       && data[..|data| - 64] == V2Body(v.manifest, v.releaseCounter, v.keyId) {
      var signature := data[|data| - 64..];
      assert data == data[..|data| - 64] + signature;
      if SignatureChecked(S, V2Body(v.manifest, v.releaseCounter, v.keyId), signature, policy).Ok? {
        CanonicalIsAccepted(S, v.manifest, v.releaseCounter, v.keyId, signature, policy);
      }
    }
  }

  lemma ParsedReprints(S: Ecdsa, data: Bytes, policy: Policy)
    requires V2Parsed(S, data, policy).Ok?
    ensures |data| >= 64
    ensures var v, signature := V2Parsed(S, data, policy).value, data[|data| - 64..];
            && Canonical(v.manifest, v.releaseCounter, v.keyId, policy)
            && data[..|data| - 64] == V2Body(v.manifest, v.releaseCounter, v.keyId)
            && SignatureChecked(S, data[..|data| - 64], signature, policy).Ok?
  {
    AcceptedIsCanonical(S, data, policy);
    hide V2Parsed, V2Body, SignatureChecked;
  }

  lemma CanonicalInjective(v: VerifiedManifest, w: VerifiedManifest, policy: Policy)
    requires Canonical(v.manifest, v.releaseCounter, v.keyId, policy) && Canonical(w.manifest, w.releaseCounter, w.keyId, policy)
    requires V2Body(v.manifest, v.releaseCounter, v.keyId) == V2Body(w.manifest, w.releaseCounter, w.keyId)
    ensures v == w
  {
    hide V2Body, RootBackedUp;
    V2BodyInjective(v.manifest, v.releaseCounter, v.keyId, w.manifest, w.releaseCounter, w.keyId);
  }

  /** Which signed sidecar is refused for which reason: the first that applies, in this order. */
  lemma V2Errors(S: Ecdsa, data: Bytes, policy: Policy)
    ensures |data| < 156 ==> V2Parsed(S, data, policy) == Err(BufferTooShort)
    ensures |data| >= 156 ==>
              var r, header := V2Parsed(S, data, policy), V2HeaderChecked(data, policy);
              var signature := SignatureChecked(S, data[..|data| - 64], data[|data| - 64..], policy);
              && (header.Err? ==> r == Err(header.error))
              && (header.Ok? && signature.Err? ==> r == Err(signature.error))
  {
    hide V2HeaderChecked, SignatureChecked, V2BodyParsed, RootBackedUp, Read32, Read64;
  }

  lemma V2HeaderErrors(data: Bytes, policy: Policy)
    requires |data| >= V2_HEADER_LEN
    ensures var r := V2HeaderChecked(data, policy);
            var shape := data[0..8] == MAGIC && Read32(data, 8) == 2 && Read32(data, 12) == 92;
            var size := Read32(data, 16) == 4096 && Read32(data, 20) != 0;
            var trust := Read64(data, 24) >= policy.minimumRelease && Read64(data, 24) != 0 && data[32..48] == policy.expectedKeyId;
            && (data[0..8] != MAGIC ==> r == Err(IntegrityFailure))
            && (data[0..8] == MAGIC && (!shape || !size) ==> r == Err(InvalidParameter))
            && (shape && size && Read32(data, 20) > 64 ==> r == Err(ParameterOverflow))
            && (shape && size && Read32(data, 20) <= 64 && !trust ==> r == Err(IntegrityFailure))
            && (shape && size && Read32(data, 20) <= 64 && trust ==>
                r == if Read32(data, 48) == 1 && Read32(data, 52) == 64 then Ok(()) else Err(InvalidParameter))
  {
    hide Read32, Read64;
  }

  /** A key that does not decode is a bad parameter; a signature that does not decode or verify is not. */
  lemma SignatureErrors(S: Ecdsa, body: Bytes, signature: Bytes, policy: Policy)
    ensures SignatureChecked(S, body, signature, policy)
            == if !S.publicKeyOk(policy.publicKey) then Err(InvalidParameter)
               else if S.signatureOk(signature) && S.verify(policy.publicKey, body, signature) then Ok(())
               else Err(IntegrityFailure)
  {
  }

  /** What follows the header is read as in the unsigned sidecar, except that every bad backup length
      counts as too short. */
  lemma V2BodyLikeV1(root: Digest, blockSize: u32, blockCount: u32, fecLen: nat, rest: Bytes)
    ensures V2BodyParsed(root, blockSize, blockCount, fecLen, rest)
            == if 0 < fecLen <= |rest| && fecLen % 2 == 0 then ParsedBody(root, blockSize, blockCount, fecLen, rest) else Err(BufferTooShort)
  {
    hide ParseProofs;
  }

  /** When a signed sidecar can be built, and the error otherwise. */
  lemma SignedSidecarExactly(H: Hash, S: Ecdsa, image: Bytes, sk: Bytes, keyId: KeyId, release: u64)
    ensures SignedSidecar(H, S, image, sk, keyId, release).Ok? <==> 1 <= |image| <= 262144 && release > 0 && S.privateKeyOk(sk)
    ensures SignedSidecar(H, S, image, sk, keyId, release).Err? ==>
              SignedSidecar(H, S, image, sk, keyId, release).error
              == if |image| == 0 then EmptyInput else if |image| > 262144 then BufferTooLong else InvalidParameter
  {
    hide V2Body, HonestManifest;
  }

  // ------------------------------------------------------------- end to end

  lemma HonestRootIsBackedUp(H: Hash, image: Bytes)
    requires 1 <= |image| <= MAX_IMAGE_BYTES
    ensures RootBackedUp(HonestManifest(H, image)).Ok?
  {
    var root := ImageRoot(H, image);
    var meta := Metadata(root, DFIM_BLOCK_SIZE, BlockCount(image));
    BlockRoundTrip(meta);
    assert meta[..32] == root;
    hide EncodedBlock, DecodedBlock, ImageRoot, HonestProofs, Metadata, BlockCount;
  }

  /** A sidecar built for an image is accepted exactly when its counter meets the floor and its key
      identifier is the expected one. */
  lemma SignedSidecarAcceptedExactly(H: Hash, S: Ecdsa, image: Bytes, sk: Bytes, keyId: KeyId, release: u64, policy: Policy)
    requires S.Correct() && S.privateKeyOk(sk) && policy.publicKey == S.publicKey(sk)
    requires 1 <= |image| <= MAX_IMAGE_BYTES && release > 0
    ensures SignedSidecar(H, S, image, sk, keyId, release).Ok?
    ensures var sidecar := SignedSidecar(H, S, image, sk, keyId, release).value;
            && (SignedValidated(H, S, image, sidecar, policy).Ok? <==> release >= policy.minimumRelease && keyId == policy.expectedKeyId)
            && (SignedValidated(H, S, image, sidecar, policy).Ok? ==>
                SignedValidated(H, S, image, sidecar, policy).value
                == ValidatedSigned(ValidatedBootImage(image, ImageRoot(H, image), false, BlockCount(image)), release, keyId))
  {
    var m := HonestManifest(H, image);
    HonestManifestIsPrintable(H, image);
    HonestSidecarIsAccepted(H, image);
    HonestRootIsBackedUp(H, image);
    hide ImageRoot, HonestProofs, EncodedBlock, RootBackedUp, Validated, V2Parsed, BlockCount, Print, Parsed;
    var body := V2Body(m, release, keyId);
    var signature := S.sign(sk, body);
    if release >= policy.minimumRelease && keyId == policy.expectedKeyId {
      CanonicalIsAccepted(S, m, release, keyId, signature, policy);
    } else {
      if V2Parsed(S, body + signature, policy).Ok? {
        AcceptedIsCanonical(S, body + signature, policy);
        var v := V2Parsed(S, body + signature, policy).value;
        SplitAtSignature(body, signature, V2Body(v.manifest, v.releaseCounter, v.keyId));
        V2BodyInjective(m, release, keyId, v.manifest, v.releaseCounter, v.keyId);
      }
    }
  }

  lemma SplitAtSignature(body: Bytes, signature: Signature, other: Bytes)
    requires body + signature == other + (body + signature)[|body + signature| - V2_SIGNATURE_LEN..]
    ensures body == other
  {
    assert (body + signature)[..|body|] == body;
    assert (other + (body + signature)[|body + signature| - V2_SIGNATURE_LEN..])[..|other|] == other;
  }

  /** Nothing below the release floor, and nothing under another key identifier, is ever accepted. */
  lemma AcceptedMeetsPolicy(S: Ecdsa, data: Bytes, policy: Policy)
    requires V2Parsed(S, data, policy).Ok?
    ensures V2Parsed(S, data, policy).value.releaseCounter >= policy.minimumRelease
    ensures V2Parsed(S, data, policy).value.releaseCounter > 0
    ensures V2Parsed(S, data, policy).value.keyId == policy.expectedKeyId
    ensures S.verify(policy.publicKey, data[..|data| - V2_SIGNATURE_LEN], data[|data| - V2_SIGNATURE_LEN..])
  {
    hide Read32, Read64, V2BodyParsed, RootBackedUp;
  }

  /** The policy decides whether a sidecar is accepted, never what it says. */
  lemma ManifestOfBytes(S: Ecdsa, data: Bytes, pa: Policy, pb: Policy)
    requires V2Parsed(S, data, pa).Ok? && V2Parsed(S, data, pb).Ok?
    ensures V2Parsed(S, data, pa) == V2Parsed(S, data, pb)
  {
    hide V2BodyParsed, Read32, Read64, V2HeaderChecked, SignatureChecked, RootBackedUp;
  }

  /** One sidecar accepts at most one image up to zero padding, whatever the two policies, unless
      the two validations hash two different strings to one digest. */
  lemma SidecarPinsImage(H: Hash, S: Ecdsa, a: Bytes, b: Bytes, sidecar: Bytes, pa: Policy, pb: Policy)
    requires SignedValidated(H, S, a, sidecar, pa).Ok? && SignedValidated(H, S, b, sidecar, pb).Ok?
    ensures V2Parsed(S, sidecar, pa).Ok?
    ensures var proofs := V2Parsed(S, sidecar, pa).value.manifest.proofs;
            && |proofs| == BlockCount(a) == BlockCount(b)
            && (ZeroPad(a) == ZeroPad(b) || CollisionIn(H, ValidateInputs(H, a, proofs) + ValidateInputs(H, b, proofs)))
  {
    var m := V2Parsed(S, sidecar, pa).value.manifest;
    ManifestOfBytes(S, sidecar, pa, pb);
    hide V2Parsed, Validated, ZeroPad, ValidateInputs, BlockCount;
    ManifestPinsImage(H, a, b, m);
  }
}
