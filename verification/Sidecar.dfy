/** The DFIMBOOT v1 sidecar: its printer, its parser, and that each undoes the other. */
module Sidecar {
  import opened Basics
  import opened Merkle
  import opened ProofCodec

  datatype BootManifest = BootManifest(
    merkleRoot: Digest,
    blockSize: u32,
    blockCount: u32,
    fecBackup: Bytes,
    proofs: seq<MerkleProof>)

  /** "DFIMBOOT" */
  const MAGIC: Bytes := [0x44, 0x46, 0x49, 0x4D, 0x42, 0x4F, 0x4F, 0x54]
  const VERSION: nat := 1
  const HEADER_LEN: nat := 56

  // ------------------------------------------------------------- layout

  function Header(root: Digest, blockSize: nat, blockCount: nat, fecLen: nat): (b: Bytes)
    ensures |b| == HEADER_LEN
  {
    MAGIC + ToLE(VERSION, 4) + ToLE(blockSize, 4) + ToLE(blockCount, 4) + root + ToLE(fecLen, 4)
  }

  predicate Printable(m: BootManifest) {
    && m.blockSize == DFIM_BLOCK_SIZE
    && 1 <= m.blockCount <= MAX_BOOT_BLOCKS
    && |m.proofs| == m.blockCount
    && m.fecBackup != [] && |m.fecBackup| % 2 == 0
    && Short(m.proofs)
  }

  /** The length of the backup is cut to 32 bits, as the cast in the source does. */
  function Print(m: BootManifest): (b: Bytes)
    requires Short(m.proofs)
  {
    Header(m.merkleRoot, m.blockSize, m.blockCount, |m.fecBackup|) + (m.fecBackup + PrintProofs(m.proofs))
  }

  /** `serialize_boot_sidecar`, error codes included. */
  function Serialized(m: BootManifest): (r: Result<Bytes>) {
    if m.blockSize != DFIM_BLOCK_SIZE || m.blockCount == 0 then Err(InvalidParameter)
    else if ValidateBlockCount(m.blockCount).Err? then Err(ParameterOverflow)
    else if Printable(m) then Ok(Print(m))
    else Err(InvalidParameter)
  }

  /** `parse_block_stream`, error codes included. */
  function Parsed(data: Bytes): (r: Result<BootManifest>) {
    if |data| < HEADER_LEN then Err(BufferTooShort)
    else if data[0..8] != MAGIC then Err(IntegrityFailure)
    else if FromLE(data[8..12]) != VERSION then Err(InvalidParameter)
    else
      var blockSize, blockCount := Read32(data, 12), Read32(data, 16);
      if blockSize != DFIM_BLOCK_SIZE || blockCount == 0 then Err(InvalidParameter)
      else if blockCount > MAX_BOOT_BLOCKS then Err(ParameterOverflow)
      else ParsedBody(data[20..52], blockSize, blockCount, Read32(data, 52), data[HEADER_LEN..])
  }

  /** The part after the header: backup, then proofs, then nothing. */
  function ParsedBody(root: Digest, blockSize: u32, blockCount: u32, fecLen: nat, rest: Bytes): (r: Result<BootManifest>) {
    if |rest| < fecLen then Err(BufferTooShort)
    else if fecLen == 0 || fecLen % 2 != 0 then Err(InvalidParameter)
    else
      match ParseProofs(rest[fecLen..], blockCount)
      case Err(e) => Err(e)
      case Ok((proofs, left)) =>
        if left != [] then Err(IntegrityFailure)
        else Ok(BootManifest(root, blockSize, blockCount, rest[..fecLen], proofs))
  }

  // ------------------------------------------------------------- the two directions

  lemma HeaderFields(root: Digest, blockSize: nat, blockCount: nat, fecLen: nat, rest: Bytes)
    ensures var data := Header(root, blockSize, blockCount, fecLen) + rest;
            && data[0..8] == MAGIC && data[8..12] == ToLE(VERSION, 4)
            && data[12..16] == ToLE(blockSize, 4) && data[16..20] == ToLE(blockCount, 4)
            && data[20..52] == root && data[52..56] == ToLE(fecLen, 4) && data[56..] == rest
  {
    hide ToLE;
  }

  lemma HeaderReads(root: Digest, blockSize: u32, blockCount: u32, fecLen: u32, rest: Bytes)
    ensures var data := Header(root, blockSize, blockCount, fecLen) + rest;
            && data[0..8] == MAGIC && FromLE(data[8..12]) == VERSION
            && Read32(data, 12) == blockSize && Read32(data, 16) == blockCount
            && data[20..52] == root && Read32(data, 52) == fecLen && data[56..] == rest
  {
    HeaderFields(root, blockSize, blockCount, fecLen, rest);
    Pow256Values();
    FromLEToLE(VERSION, 4);
    FromLEToLE(blockSize, 4);
    FromLEToLE(blockCount, 4);
    FromLEToLE(fecLen, 4);
    hide Header, ToLE, FromLE;
  }

  lemma HeaderFromFields(data: Bytes)
    requires |data| >= HEADER_LEN && data[0..8] == MAGIC && FromLE(data[8..12]) == VERSION
    ensures data[..HEADER_LEN] == Header(data[20..52], Read32(data, 12), Read32(data, 16), Read32(data, 52))
  {
    ToLEFromLE(data[8..12]);
    Read32Prints(data, 12);
    Read32Prints(data, 16);
    Read32Prints(data, 52);
    HeaderPieces(data);
    hide ToLE, FromLE, Read32;
  }

  lemma HeaderPieces(data: Bytes)
    requires |data| >= HEADER_LEN
    ensures data[..HEADER_LEN] == data[0..8] + data[8..12] + data[12..16] + data[16..20] + data[20..52] + data[52..56]
  {
    assert data[..16] == data[0..8] + data[8..12] + data[12..16];
    assert data[..52] == data[..16] + data[16..20] + data[20..52];
  }

  /** Parsing a printed manifest gives it back. */
  lemma ParsePrinted(m: BootManifest)
    requires Printable(m) && |m.fecBackup| < U32_LIMIT
    ensures Parsed(Print(m)) == Ok(m)
  {
    var fecLen := |m.fecBackup|;
    var rest := m.fecBackup + PrintProofs(m.proofs);
    HeaderReads(m.merkleRoot, m.blockSize, m.blockCount, fecLen, rest);
    ParsePrintedBody(m);
    hide Header, Read32, FromLE, ToLE, ParsedBody;
  }

  lemma ParsePrintedBody(m: BootManifest)
    requires Printable(m)
    ensures ParsedBody(m.merkleRoot, m.blockSize, m.blockCount, |m.fecBackup|, m.fecBackup + PrintProofs(m.proofs)) == Ok(m)
  {
    var rest := m.fecBackup + PrintProofs(m.proofs);
    assert rest[..|m.fecBackup|] == m.fecBackup;
    assert rest[|m.fecBackup|..] == PrintProofs(m.proofs) + [];
    ParsePrintedProofs(m.proofs, []);
  }

  /** Every accepted byte string is the print of what it parsed to. */
  lemma PrintParsed(data: Bytes)
    requires Parsed(data).Ok?
    ensures Printable(Parsed(data).value) && |Parsed(data).value.fecBackup| < U32_LIMIT
    ensures Print(Parsed(data).value) == data
  {
    var m := Parsed(data).value;
    HeaderFromFields(data);
    PrintParsedBody(data[20..52], Read32(data, 12), Read32(data, 16), Read32(data, 52), data[HEADER_LEN..]);
    hide Header, ParsedBody, Read32;
    assert data == data[..HEADER_LEN] + data[HEADER_LEN..];
  }

  lemma PrintParsedBody(root: Digest, blockSize: u32, blockCount: u32, fecLen: nat, rest: Bytes)
    requires ParsedBody(root, blockSize, blockCount, fecLen, rest).Ok?
    ensures var m := ParsedBody(root, blockSize, blockCount, fecLen, rest).value;
            && m.merkleRoot == root && m.blockSize == blockSize && m.blockCount == blockCount
            && |m.fecBackup| == fecLen && fecLen != 0 && fecLen % 2 == 0
            && |m.proofs| == blockCount && Short(m.proofs)
            && rest == m.fecBackup + PrintProofs(m.proofs)
  {
    hide ParseProofs, PrintProofs;
    PrintParsedProofs(rest[fecLen..], blockCount);
    var m := ParsedBody(root, blockSize, blockCount, fecLen, rest).value;
    assert PrintProofs(m.proofs) + [] == PrintProofs(m.proofs);
    assert rest == rest[..fecLen] + rest[fecLen..];
  }

  /** A manifest survives being serialized and parsed exactly when it is printable and its backup
      is short enough for the 32-bit length field; the serializer itself does not check the latter. */
  lemma RoundTripExactly(m: BootManifest)
    ensures Serialized(m).Ok? <==> Printable(m)
    ensures Serialized(m).Ok? ==> (Parsed(Serialized(m).value) == Ok(m) <==> |m.fecBackup| < U32_LIMIT)
  {
    if Printable(m) {
      if |m.fecBackup| < U32_LIMIT {
        ParsePrinted(m);
      } else if Parsed(Print(m)).Ok? {
        PrintParsed(Print(m));
      }
    }
  }

  /** The printer is injective on what the parser can return. */
  lemma PrintInjective(a: BootManifest, b: BootManifest)
    requires Printable(a) && Printable(b) && |a.fecBackup| < U32_LIMIT && |b.fecBackup| < U32_LIMIT
    requires Print(a) == Print(b)
    ensures a == b
  {
    ParsePrinted(a);
    ParsePrinted(b);
  }

  /** Which byte string is refused for which reason: the first that applies, in this order. */
  lemma ParseErrors(data: Bytes)
    ensures |data| < 56 ==> Parsed(data) == Err(BufferTooShort)
    ensures |data| >= 56 && data[0..8] != MAGIC ==> Parsed(data) == Err(IntegrityFailure)
    ensures |data| >= 56 && data[0..8] == MAGIC ==>
              && (Read32(data, 8) != 1 ==> Parsed(data) == Err(InvalidParameter))
              && (Read32(data, 8) == 1 && (Read32(data, 12) != 4096 || Read32(data, 16) == 0) ==> Parsed(data) == Err(InvalidParameter))
              && (Read32(data, 8) == 1 && Read32(data, 12) == 4096 && Read32(data, 16) > 64 ==> Parsed(data) == Err(ParameterOverflow))
              && (Read32(data, 8) == 1 && Read32(data, 12) == 4096 && 1 <= Read32(data, 16) <= 64 ==>
                  BodyErrors(Parsed(data), Read32(data, 16), Read32(data, 52), data[56..]))
  {
    if |data| >= 56 {
      assert FromLE(data[8..12]) == Read32(data, 8);
    }
    hide Read32, FromLE, ParseProofs;
  }

  /** The errors of what follows the header. */
  ghost predicate BodyErrors(r: Result<BootManifest>, blockCount: nat, fecLen: nat, rest: Bytes) {
    && (|rest| < fecLen ==> r == Err(BufferTooShort))
    && (|rest| >= fecLen && (fecLen == 0 || fecLen % 2 != 0) ==> r == Err(InvalidParameter))
    && (|rest| >= fecLen && fecLen != 0 && fecLen % 2 == 0 ==>
        var proofs := ParseProofs(rest[fecLen..], blockCount);
        && (proofs.Err? ==> r == Err(proofs.error))
        && (proofs.Ok? ==> if proofs.value.1 != [] then r == Err(IntegrityFailure) else r.Ok?))
  }

  /** Which manifest cannot be serialized, and why. */
  lemma SerializeErrors(m: BootManifest)
    ensures m.blockSize != 4096 || m.blockCount == 0 ==> Serialized(m) == Err(InvalidParameter)
    ensures m.blockSize == 4096 && m.blockCount > 64 ==> Serialized(m) == Err(ParameterOverflow)
    ensures m.blockSize == 4096 && 1 <= m.blockCount <= 64 ==>
              if |m.proofs| == m.blockCount && |m.fecBackup| > 0 && |m.fecBackup| % 2 == 0
                 && forall i :: 0 <= i < |m.proofs| ==> |m.proofs[i].steps| <= 16
              then Serialized(m).Ok? else Serialized(m) == Err(InvalidParameter)
  {
    hide Print;
  }

  // ------------------------------------------------------------- the code

  /** `serialize_boot_sidecar`: the output parses back to the manifest, unless its backup is too long
      for the length field. */
  method SerializeBootSidecar(m: BootManifest) returns (r: Result<Bytes>)
    ensures r == Serialized(m)
    ensures r.Ok? && |m.fecBackup| < U32_LIMIT ==> Parsed(r.value) == Ok(m)
  {
    RoundTripExactly(m);
    hide Parsed, Header, PrintProofs;
    if m.blockSize != DFIM_BLOCK_SIZE || m.blockCount == 0 {
      return Err(InvalidParameter);
    }
    var _ :- ValidateBlockCount(m.blockCount);
    if |m.proofs| != m.blockCount {
      return Err(InvalidParameter);
    }
    if m.fecBackup == [] || |m.fecBackup| % 2 != 0 {
      return Err(InvalidParameter);
    }
    var blob := PrintHeader(m.merkleRoot, m.blockSize, m.blockCount, |m.fecBackup|);
    ghost var header := blob;
    blob := blob + m.fecBackup;
    r := AppendProofs(blob, m.proofs);
    if Short(m.proofs) {
      ConcatAssociative(header, m.fecBackup, PrintProofs(m.proofs));
    }
  }

  method PrintHeader(root: Digest, blockSize: nat, blockCount: nat, fecLen: nat) returns (blob: Bytes)
    ensures blob == Header(root, blockSize, blockCount, fecLen)
  {
    hide ToLE;
    blob := [];
    blob := blob + MAGIC;
    blob := blob + ToLE(VERSION, 4);
    blob := blob + ToLE(blockSize, 4);
    blob := blob + ToLE(blockCount, 4);
    blob := blob + root;
    blob := blob + ToLE(fecLen, 4);
  }

  /** `parse_block_stream`: whatever it accepts is the print of what it returns. */
  method ParseBlockStream(data: Bytes) returns (r: Result<BootManifest>)
    ensures r == Parsed(data)
    ensures r.Ok? ==> Printable(r.value) && Print(r.value) == data
  {
    if Parsed(data).Ok? {
      PrintParsed(data);
    }
    hide Print;
    if |data| < HEADER_LEN {
      return Err(BufferTooShort);
    }
    if data[0..8] != MAGIC {
      return Err(IntegrityFailure);
    }
    var version := Read32(data, 8);
    if version != VERSION {
      return Err(InvalidParameter);
    }
    var blockSize := Read32(data, 12);
    var blockCount := Read32(data, 16);
    if blockSize != DFIM_BLOCK_SIZE || blockCount == 0 {
      return Err(InvalidParameter);
    }
    var _ :- ValidateBlockCount(blockCount);
    var merkleRoot := data[20..52];
    var fecLen := Read32(data, 52);
    var fecEnd := HEADER_LEN + fecLen;
    if |data| < fecEnd {
      return Err(BufferTooShort);
    }
    var fecBackup := data[HEADER_LEN..fecEnd];
    assert fecBackup == data[HEADER_LEN..][..fecLen] && data[fecEnd..] == data[HEADER_LEN..][fecLen..];
    if fecBackup == [] || |fecBackup| % 2 != 0 {
      return Err(InvalidParameter);
    }
    var proofs, offset := ReadProofs(data, fecEnd, blockCount);
    if proofs.Err? {
      return Err(proofs.error);
    }
    if offset != |data| {
      return Err(IntegrityFailure);
    }
    return Ok(BootManifest(merkleRoot, blockSize, blockCount, fecBackup, proofs.value));
  }
}
