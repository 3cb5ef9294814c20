/** Remote attestation: the TPM quote reader, the challenge it is bound to, and the verifier. */
module Attestation {
  import opened Basics
  import opened SignedManifest

  const TPM_GENERATED_VALUE: nat := 0xFF54_4347
  const TPM_ST_ATTEST_QUOTE: nat := 0x8018
  const TPM_ALG_SHA256: nat := 0x000B
  const PCR_SELECTION: Bytes := [0x95, 0x40, 0x00]
  /** "DFIM-ATTEST-V1" */
  const DOMAIN: Bytes := [0x44, 0x46, 0x49, 0x4D, 0x2D, 0x41, 0x54, 0x54, 0x45, 0x53, 0x54, 0x2D, 0x56, 0x31]
  /** "DFIMCHL1" */
  const CHALLENGE_MAGIC: Bytes := [0x44, 0x46, 0x49, 0x4D, 0x43, 0x48, 0x4C, 0x31]
  /** "DFIMATS1" */
  const EVIDENCE_MAGIC: Bytes := [0x44, 0x46, 0x49, 0x4D, 0x41, 0x54, 0x53, 0x31]
  const WIRE_VERSION: nat := 1
  const CHALLENGE_LEN: nat := 92
  const EVIDENCE_PREFIX_LEN: nat := 240
  const MAX_QUOTE_LEN: nat := 4096

  type PcrValues = v: Bytes | |v| == 160 witness seq(160, _ => 0)

  datatype Challenge = Challenge(nonce: Digest, releaseCounter: u64, policyGeneration: u64, merkleRoot: Digest)
  /** The five 32-byte PCR values are kept end to end, as they are hashed and sent. */
  datatype Evidence = Evidence(quote: Bytes, signature: Signature, pcrValues: PcrValues)
  datatype AttestationPolicy = AttestationPolicy(
    akPublicKey: PublicKey,
    expectedPcrValues: PcrValues,
    minimumRelease: u64,
    expectedPolicyGeneration: u64,
    expectedMerkleRoot: Digest)
  datatype VerifiedAttestation = VerifiedAttestation(releaseCounter: u64, policyGeneration: u64, merkleRoot: Digest)
  datatype ParsedQuote = ParsedQuote(extraData: Digest, pcrDigest: Digest)

  // ------------------------------------------------------------- the quote (TPMS_ATTEST)

  /** Every field of a quote; the verifier skips most of them. */
  datatype Quote = Quote(
    signer: Bytes,
    extraData: Digest,
    clock: u64,
    resetCount: u32,
    restartCount: u32,
    firmware: u64,
    pcrDigest: Digest)

  predicate Sized(q: Quote) {
    |q.signer| < 0x1_0000
  }

  function ExtraPart(extraData: Digest): (b: Bytes)
    ensures |b| == 34
  {
    ToBE(32, 2) + extraData
  }

  /** Clock information, marked safe, and the firmware version. */
  function ClockPart(clock: nat, resetCount: nat, restartCount: nat, firmware: nat): (b: Bytes)
    ensures |b| == 25
  {
    ToBE(clock, 8) + ToBE(resetCount, 4) + ToBE(restartCount, 4) + [1] + ToBE(firmware, 8)
  }

  /** One SHA-256 bank with the fixed set of registers. */
  function SelectionPart(): (b: Bytes)
    ensures |b| == 10
  {
    ToBE(1, 4) + ToBE(TPM_ALG_SHA256, 2) + [3] + PCR_SELECTION
  }

  /** The fixed-width part after the qualified signer: 103 bytes. */
  function QuoteTail(q: Quote): (b: Bytes)
    ensures |b| == 103
  {
    ExtraPart(q.extraData) + (ClockPart(q.clock, q.resetCount, q.restartCount, q.firmware) + (SelectionPart() + ExtraPart(q.pcrDigest)))
  }

  function QuoteHead(signerLen: nat): (b: Bytes)
    ensures |b| == 8
  {
    ToBE(TPM_GENERATED_VALUE, 4) + ToBE(TPM_ST_ATTEST_QUOTE, 2) + ToBE(signerLen, 2)
  }

  function PrintQuote(q: Quote): (b: Bytes) {
    QuoteHead(|q.signer|) + (q.signer + QuoteTail(q))
  }

  /** The tests on the fixed-width part, by position. */
  predicate TailInOrder(b: Bytes) {
    && |b| == 103
    && FromBE(b[0..2]) == 32 && b[50] == 1
    && FromBE(b[59..63]) == 1 && FromBE(b[63..65]) == TPM_ALG_SHA256 && b[65] == 3 && b[66..69] == PCR_SELECTION
    && FromBE(b[69..71]) == 32
  }

  predicate HeadInOrder(b: Bytes) {
    && |b| >= 8
    && FromBE(b[0..4]) == TPM_GENERATED_VALUE && FromBE(b[4..6]) == TPM_ST_ATTEST_QUOTE
    && |b| >= 8 + FromBE(b[6..8])
  }

  predicate IsQuote(b: Bytes) {
    HeadInOrder(b) && TailInOrder(b[8 + FromBE(b[6..8])..])
  }

  function QuoteFields(b: Bytes): (p: ParsedQuote)
    requires IsQuote(b)
  {
    var tail := b[8 + FromBE(b[6..8])..];
    ParsedQuote(tail[2..34], tail[71..103])
  }

  // ------------------------------------------------------------- quotes are exactly the printed ones

  lemma PartSlices(q: Quote)
    ensures var x := ExtraPart(q.extraData); x[0..2] == ToBE(32, 2) && x[2..34] == q.extraData
    ensures var x := ExtraPart(q.pcrDigest); x[0..2] == ToBE(32, 2) && x[2..34] == q.pcrDigest
    ensures ClockPart(q.clock, q.resetCount, q.restartCount, q.firmware)[16] == 1
    ensures var x := SelectionPart();
            x[0..4] == ToBE(1, 4) && x[4..6] == ToBE(TPM_ALG_SHA256, 2) && x[6] == 3 && x[7..10] == PCR_SELECTION
  {
    hide ToBE;
  }

  /** Where the four parts of the fixed-width tail lie. */
  lemma TailPieces(q: Quote)
    ensures var b := QuoteTail(q);
            && b[0..34] == ExtraPart(q.extraData)
            && b[34..59] == ClockPart(q.clock, q.resetCount, q.restartCount, q.firmware)
            && b[59..69] == SelectionPart() && b[69..103] == ExtraPart(q.pcrDigest)
  {
    hide ExtraPart, ClockPart, SelectionPart;
    var a, c, s, d := ExtraPart(q.extraData), ClockPart(q.clock, q.resetCount, q.restartCount, q.firmware), SelectionPart(), ExtraPart(q.pcrDigest);
    var b := QuoteTail(q);
    assert b[0..34] == a && b[34..] == c + (s + d);
    assert b[34..59] == b[34..][0..25] == c && b[59..] == b[34..][25..] == s + d;
    assert b[59..69] == b[59..][0..10] == s && b[69..103] == b[59..][10..44] == d;
  }

  lemma TailSlices(q: Quote)
    ensures var b := QuoteTail(q);
            && b[0..2] == ToBE(32, 2) && b[2..34] == q.extraData && b[50] == 1
            && b[59..63] == ToBE(1, 4) && b[63..65] == ToBE(TPM_ALG_SHA256, 2) && b[65] == 3 && b[66..69] == PCR_SELECTION
            && b[69..71] == ToBE(32, 2) && b[71..103] == q.pcrDigest
  {
    PartSlices(q);
    TailPieces(q);
    var b := QuoteTail(q);
    hide ToBE, ExtraPart, ClockPart, SelectionPart, QuoteTail;
    SliceOfSlice(b, 0, 34, 0, 2);
    SliceOfSlice(b, 0, 34, 2, 34);
    assert b[34..59][16] == b[50];
    SliceOfSlice(b, 59, 69, 0, 4);
    SliceOfSlice(b, 59, 69, 4, 6);
    SliceOfSlice(b, 59, 69, 7, 10);
    assert b[59..69][6] == b[65];
    SliceOfSlice(b, 69, 103, 0, 2);
    SliceOfSlice(b, 69, 103, 2, 34);
  }

  /** The fixed bytes of a quote: it begins with 0xFF "TCG" and the tag of a quote, and its selection
      is one SHA-256 bank with a bitmap of three bytes. */
  lemma QuoteMarks(q: Quote)
    requires Sized(q)
    ensures |PrintQuote(q)| == 111 + |q.signer|
    ensures var b := PrintQuote(q);
            && b[0] == 0xFF && b[1] == 'T' as int && b[2] == 'C' as int && b[3] == 'G' as int && b[4] == 0x80 && b[5] == 0x18
            && b[6] == |q.signer| / 256 && b[7] == |q.signer| % 256 && b[8..8 + |q.signer|] == q.signer
    ensures SelectionPart() == [0, 0, 0, 1, 0, 0x0B, 3] + PCR_SELECTION
  {
    HeadMarks(|q.signer|);
    SelectionMarks();
    hide QuoteHead, QuoteTail, SelectionPart;
    var b := PrintQuote(q);
    assert b[..8] == QuoteHead(|q.signer|);
    assert b[8..8 + |q.signer|] == q.signer;
  }

  lemma HeadMarks(n: nat)
    requires n < 0x1_0000
    ensures var h := QuoteHead(n);
            && h[0] == 0xFF && h[1] == 0x54 && h[2] == 0x43 && h[3] == 0x47 && h[4] == 0x80 && h[5] == 0x18
            && h[6] == n / 256 && h[7] == n % 256
  {
    BE4(TPM_GENERATED_VALUE);
    BE2(TPM_ST_ATTEST_QUOTE);
    BE2(n);
    hide ToBE;
  }

  lemma SelectionMarks()
    ensures SelectionPart() == [0, 0, 0, 1, 0, 0x0B, 3] + PCR_SELECTION
  {
    BE4(1);
    BE2(TPM_ALG_SHA256);
    hide ToBE;
  }

  lemma BE2(n: nat)
    requires n < 0x1_0000
    ensures ToBE(n, 2) == [n / 256, n % 256]
  {
    assert ToBE(n, 2) == ToBE(n / 256, 1) + [n % 256];
    assert ToBE(n / 256, 1) == ToBE(n / 256 / 256, 0) + [n / 256];
  }

  lemma BE4(n: nat)
    requires n < 0x1_0000_0000
    ensures ToBE(n, 4) == [n / 0x100_0000, n / 0x1_0000 % 256, n / 256 % 256, n % 256]
  {
    assert ToBE(n, 4) == ToBE(n / 256, 3) + [n % 256];
    assert ToBE(n / 256, 3) == ToBE(n / 256 / 256, 2) + [n / 256 % 256];
    BE2(n / 256 / 256);
  }

  /** The bitmap names registers 0, 2, 4, 7 and 14. */
  lemma SelectedRegisters()
    ensures PCR_SELECTION[0] == 1 + 4 + 16 + 128 && PCR_SELECTION[1] == 64 && PCR_SELECTION[2] == 0 && |PCR_SELECTION| == 3
  {
  }

  lemma TailIsRead(q: Quote)
    ensures TailInOrder(QuoteTail(q)) && QuoteTail(q)[2..34] == q.extraData && QuoteTail(q)[71..103] == q.pcrDigest
  {
    TailSlices(q);
    Pow256Values();
    FromBEToBE(32, 2);
    FromBEToBE(1, 4);
    FromBEToBE(TPM_ALG_SHA256, 2);
    hide ToBE, FromBE, QuoteTail;
  }

  lemma HeadIsRead(signerLen: nat, rest: Bytes)
    requires signerLen < 0x1_0000 && signerLen <= |rest|
    ensures var b := QuoteHead(signerLen) + rest;
            HeadInOrder(b) && FromBE(b[6..8]) == signerLen && b[8 + signerLen..] == rest[signerLen..]
  {
    Pow256Values();
    FromBEToBE(TPM_GENERATED_VALUE, 4);
    FromBEToBE(TPM_ST_ATTEST_QUOTE, 2);
    FromBEToBE(signerLen, 2);
    hide ToBE, FromBE;
    var b := QuoteHead(signerLen) + rest;
    assert b[0..4] == ToBE(TPM_GENERATED_VALUE, 4) && b[4..6] == ToBE(TPM_ST_ATTEST_QUOTE, 2) && b[6..8] == ToBE(signerLen, 2);
  }

  lemma PrintedQuoteIsRead(q: Quote)
    requires Sized(q)
    ensures IsQuote(PrintQuote(q)) && QuoteFields(PrintQuote(q)) == ParsedQuote(q.extraData, q.pcrDigest)
  {
    TailIsRead(q);
    HeadIsRead(|q.signer|, q.signer + QuoteTail(q));
    hide HeadInOrder, TailInOrder, QuoteHead, QuoteTail, FromBE;
    assert (q.signer + QuoteTail(q))[|q.signer|..] == QuoteTail(q);
  }

  function QuoteFromTail(signer: Bytes, b: Bytes): (q: Quote)
    requires TailInOrder(b)
    ensures q.signer == signer && q.extraData == b[2..34] && q.pcrDigest == b[71..103]
  {
    Pow256Values();
    ToBEFromBE(b[34..42]); ToBEFromBE(b[42..46]); ToBEFromBE(b[46..50]); ToBEFromBE(b[51..59]);
    Quote(signer, b[2..34], FromBE(b[34..42]), FromBE(b[42..46]), FromBE(b[46..50]), FromBE(b[51..59]), b[71..103])
  }

  function QuoteOf(b: Bytes): (q: Quote)
    requires IsQuote(b)
  {
    var s := FromBE(b[6..8]);
    QuoteFromTail(b[8..8 + s], b[8 + s..])
  }

  lemma ExtraFromFields(b: Bytes, at: nat)
    requires at + 34 <= |b| && FromBE(b[at..at + 2]) == 32
    ensures b[at..at + 34] == ExtraPart(b[at + 2..at + 34])
  {
    ToBEFromBE(b[at..at + 2]);
    hide ToBE, FromBE;
    assert b[at..at + 34] == b[at..at + 2] + b[at + 2..at + 34];
  }

  lemma ClockFromFields(b: Bytes)
    requires |b| >= 59 && b[50] == 1
    ensures b[34..59] == ClockPart(FromBE(b[34..42]), FromBE(b[42..46]), FromBE(b[46..50]), FromBE(b[51..59]))
  {
    ToBEFromBE(b[34..42]);
    ToBEFromBE(b[42..46]);
    ToBEFromBE(b[46..50]);
    ToBEFromBE(b[51..59]);
    hide ToBE, FromBE;
    assert b[34..59] == b[34..42] + b[42..46] + b[46..50] + [b[50]] + b[51..59];
  }

  lemma SelectionFromFields(b: Bytes)
    requires |b| >= 69 && FromBE(b[59..63]) == 1 && FromBE(b[63..65]) == TPM_ALG_SHA256 && b[65] == 3 && b[66..69] == PCR_SELECTION
    ensures b[59..69] == SelectionPart()
  {
    ToBEFromBE(b[59..63]);
    ToBEFromBE(b[63..65]);
    hide ToBE, FromBE;
    assert b[59..69] == b[59..63] + b[63..65] + [b[65]] + b[66..69];
  }

  lemma TailFromFields(signer: Bytes, b: Bytes)
    requires TailInOrder(b)
    ensures QuoteTail(QuoteFromTail(signer, b)) == b
  {
    ExtraFromFields(b, 0);
    ClockFromFields(b);
    SelectionFromFields(b);
    ExtraFromFields(b, 69);
    FourPieces(b);
    hide FromBE, ToBE, ExtraPart, ClockPart, SelectionPart, TailInOrder;
  }

  lemma FourPieces(b: Bytes)
    requires |b| == 103
    ensures b == b[0..34] + (b[34..59] + (b[59..69] + b[69..103]))
  {
    assert b[59..103] == b[59..69] + b[69..103];
    assert b[34..103] == b[34..59] + b[59..103];
    assert b == b[0..34] + b[34..103];
  }

  lemma HeadFromFields(b: Bytes)
    requires HeadInOrder(b)
    ensures FromBE(b[6..8]) < 0x1_0000 && b[..8] == QuoteHead(FromBE(b[6..8]))
  {
    ToBEFromBE(b[0..4]);
    ToBEFromBE(b[4..6]);
    ToBEFromBE(b[6..8]);
    Pow256Values();
    hide ToBE, FromBE;
    assert b[..8] == b[0..4] + b[4..6] + b[6..8];
  }

  lemma ThreePieces(b: Bytes, i: nat, j: nat)
    requires i <= j <= |b|
    ensures b == b[..i] + (b[i..j] + b[j..])
  {
  }

  lemma ReadQuoteIsPrinted(b: Bytes)
    requires IsQuote(b)
    ensures Sized(QuoteOf(b)) && PrintQuote(QuoteOf(b)) == b
  {
    var s := FromBE(b[6..8]);
    HeadFromFields(b);
    TailFromFields(b[8..8 + s], b[8 + s..]);
    hide FromBE, QuoteTail, QuoteHead, QuoteFromTail;
    ThreePieces(b, 8, 8 + s);
  }

  /** The reader accepts exactly the printed quotes of the required shape. */
  lemma QuotesExactly(b: Bytes)
    ensures IsQuote(b) <==> exists q: Quote :: Sized(q) && PrintQuote(q) == b
  {
    if IsQuote(b) {
      ReadQuoteIsPrinted(b);
    }
    hide IsQuote, PrintQuote;
    forall q: Quote | Sized(q) && PrintQuote(q) == b
      ensures IsQuote(b)
    {
      PrintedQuoteIsRead(q);
    }
  }

  // ------------------------------------------------------------- the cursor

  /** Reads forward; `offset` never passes the end. */
  class Cursor {
    const bytes: Bytes
    var offset: nat

    ghost predicate Valid()
      reads this
    {
      offset <= |bytes|
    }

    constructor (b: Bytes)
      ensures Valid() && bytes == b && offset == 0
    {
      bytes := b;
      offset := 0;
    }

    method Take(length: nat) returns (r: Option<Bytes>)
      requires Valid()
      modifies this`offset
      ensures Valid()
      ensures r.Some? <==> old(offset) + length <= |bytes|
      ensures r.Some? ==> offset == old(offset) + length && r.value == bytes[old(offset)..offset]
      ensures r.None? ==> offset == old(offset)
    {
      var end := offset + length;
      if end > |bytes| {
        return None;
      }
      var output := bytes[offset..end];
      offset := end;
      return Some(output);
    }

    method ReadUint(width: nat) returns (r: Option<nat>)
      requires Valid()
      modifies this`offset
      ensures Valid()
      ensures r.Some? <==> old(offset) + width <= |bytes|
      ensures r.Some? ==> offset == old(offset) + width && r.value == FromBE(bytes[old(offset)..offset])
      ensures r.None? ==> offset == old(offset)
    {
      var b := Take(width);
      if b.None? {
        return None;
      }
      return Some(FromBE(b.value));
    }

    method ReadTpm2b() returns (r: Option<Bytes>)
      requires Valid()
      modifies this`offset
      ensures Valid() && offset >= old(offset)
      ensures r.Some? <==> old(offset) + 2 <= |bytes| && old(offset) + 2 + FromBE(bytes[old(offset)..old(offset) + 2]) <= |bytes|
      ensures r.Some? ==> offset == old(offset) + 2 + FromBE(bytes[old(offset)..old(offset) + 2])
                          && r.value == bytes[old(offset) + 2..offset]
    {
      var length := ReadUint(2);
      if length.None? {
        return None;
      }
      r := Take(length.value);
    }
  }

  /** Magic, tag and qualified signer. */
  method ReadHead(cursor: Cursor) returns (ok: bool)
    requires cursor.Valid() && cursor.offset == 0
    modifies cursor`offset
    ensures cursor.Valid()
    ensures ok <==> HeadInOrder(cursor.bytes)
    ensures ok ==> cursor.offset == 8 + FromBE(cursor.bytes[6..8])
  {
    hide FromBE;
    var magic := cursor.ReadUint(4);
    if magic.None? || magic.value != TPM_GENERATED_VALUE {
      return false;
    }
    var tag := cursor.ReadUint(2);
    if tag.None? || tag.value != TPM_ST_ATTEST_QUOTE {
      return false;
    }
    var signer := cursor.ReadTpm2b();
    return signer.Some?;
  }

  /** Extra data and clock information: the first 59 bytes of the fixed-width part. */
  method ReadClock(cursor: Cursor) returns (extra: Option<Digest>)
    requires cursor.Valid()
    modifies cursor`offset
    ensures cursor.Valid()
    ensures var b := cursor.bytes[old(cursor.offset)..];
            && (extra.Some? <==> |b| >= 59 && FromBE(b[0..2]) == 32 && b[50] == 1)
            && (extra.Some? ==> extra.value == b[2..34] && cursor.offset == old(cursor.offset) + 59)
  {
    hide FromBE;
    ghost var at, b := cursor.offset, cursor.bytes[cursor.offset..];
    assert |b| >= 2 ==> b[0..2] == cursor.bytes[at..at + 2];
    var data := cursor.ReadTpm2b();
    if data.None? || |data.value| != 32 {
      return None;
    }
    assert data.value == b[2..34];
    var clock := cursor.ReadUint(8);
    if clock.None? {
      return None;
    }
    var reset := cursor.ReadUint(4);
    if reset.None? {
      return None;
    }
    var restart := cursor.ReadUint(4);
    if restart.None? {
      return None;
    }
    var safe := cursor.Take(1);
    if safe.None? || safe.value[0] != 1 {
      return None;
    }
    assert safe.value[0] == b[50];
    var firmware := cursor.ReadUint(8);
    if firmware.None? {
      return None;
    }
    return Some(data.value);
  }

  /** PCR selection and digest: the last 44 bytes, and then the end. */
  method ReadPcrs(cursor: Cursor) returns (digest: Option<Digest>)
    requires cursor.Valid()
    modifies cursor`offset
    ensures cursor.Valid()
    ensures var b := cursor.bytes[old(cursor.offset)..];
            && (digest.Some? <==>
                && |b| == 44 && FromBE(b[0..4]) == 1 && FromBE(b[4..6]) == TPM_ALG_SHA256 && b[6] == 3
                && b[7..10] == PCR_SELECTION && FromBE(b[10..12]) == 32)
            && (digest.Some? ==> digest.value == b[12..44])
  {
    hide FromBE;
    ghost var at, b := cursor.offset, cursor.bytes[cursor.offset..];
    var banks := cursor.ReadUint(4);
    assert banks.Some? ==> b[0..4] == cursor.bytes[at..at + 4];
    if banks.None? || banks.value != 1 {
      return None;
    }
    var algorithm := cursor.ReadUint(2);
    assert algorithm.Some? ==> b[4..6] == cursor.bytes[at + 4..at + 6];
    if algorithm.None? || algorithm.value != TPM_ALG_SHA256 {
      return None;
    }
    var bitmapLength := cursor.Take(1);
    assert bitmapLength.Some? ==> bitmapLength.value[0] == b[6];
    if bitmapLength.None? || bitmapLength.value[0] != 3 {
      return None;
    }
    var bitmap := cursor.Take(3);
    assert bitmap.Some? ==> b[7..10] == cursor.bytes[at + 7..at + 10];
    if bitmap.None? || bitmap.value != PCR_SELECTION {
      return None;
    }
    assert |b| >= 12 ==> b[10..12] == cursor.bytes[at + 10..at + 12];
    var last := cursor.ReadTpm2b();
    if last.None? || |last.value| != 32 || cursor.offset != |cursor.bytes| {
      return None;
    }
    assert last.value == b[12..44];
    return Some(last.value);
  }

  /** `parse_quote`: succeeds exactly on quotes, with their two digests. */
  method ParseQuote(quote: Bytes) returns (r: Option<ParsedQuote>)
    ensures r.Some? <==> IsQuote(quote)
    ensures r.Some? ==> r.value == QuoteFields(quote)
  {
    hide FromBE;
    var cursor := new Cursor(quote);
    var ok := ReadHead(cursor);
    if !ok {
      return None;
    }
    ghost var tail := quote[cursor.offset..];
    ghost var at := cursor.offset;
    var extra := ReadClock(cursor);
    if extra.None? {
      return None;
    }
    assert quote[cursor.offset..] == tail[59..];
    TailParts(tail);
    var digest := ReadPcrs(cursor);
    if digest.None? {
      return None;
    }
    return Some(ParsedQuote(extra.value, digest.value));
  }

  lemma TailParts(b: Bytes)
    requires |b| >= 59
    ensures var c := b[59..];
            TailInOrder(b) <==>
              && FromBE(b[0..2]) == 32 && b[50] == 1
              && |c| == 44 && FromBE(c[0..4]) == 1 && FromBE(c[4..6]) == TPM_ALG_SHA256 && c[6] == 3
              && c[7..10] == PCR_SELECTION && FromBE(c[10..12]) == 32
    ensures |b| == 103 ==> b[59..][12..44] == b[71..103]
  {
    hide FromBE;
    var c := b[59..];
    if |b| == 103 {
      assert c[0..4] == b[59..63] && c[4..6] == b[63..65] && c[7..10] == b[66..69] && c[10..12] == b[69..71];
    }
  }

  // ------------------------------------------------------------- challenge binding

  /** The bytes whose digest a quote must carry for this challenge. */
  function QualifyingInput(ch: Challenge): (b: Bytes)
    ensures |b| == 94
  {
    DOMAIN + ch.nonce + ToBE(ch.releaseCounter, 8) + ToBE(ch.policyGeneration, 8) + ch.merkleRoot
  }

  lemma QualifyingInputInjective(a: Challenge, b: Challenge)
    requires QualifyingInput(a) == QualifyingInput(b)
    ensures a == b
  {
    Pow256Values();
    FromBEToBE(a.releaseCounter, 8);
    FromBEToBE(b.releaseCounter, 8);
    FromBEToBE(a.policyGeneration, 8);
    FromBEToBE(b.policyGeneration, 8);
    hide ToBE, FromBE;
    QualifyingSlices(a);
    QualifyingSlices(b);
  }

  /** Where the fields of the hashed string lie. */
  lemma QualifyingSlices(ch: Challenge)
    ensures var x := QualifyingInput(ch);
            && x[..14] == DOMAIN && x[14..46] == ch.nonce && x[46..54] == ToBE(ch.releaseCounter, 8)
            && x[54..62] == ToBE(ch.policyGeneration, 8) && x[62..94] == ch.merkleRoot
  {
    hide ToBE;
  }

  /** `verify_attestation`; the tests in the order of the source, the messages left out. */
  function VerifyAttestation(H: Hash, S: Ecdsa, e: Evidence, ch: Challenge, p: AttestationPolicy): (r: Option<VerifiedAttestation>) {
    if ch.releaseCounter < p.minimumRelease || ch.policyGeneration != p.expectedPolicyGeneration || ch.merkleRoot != p.expectedMerkleRoot then None
    else if !S.signatureOk(e.signature) || !S.publicKeyOk(p.akPublicKey) || !S.verify(p.akPublicKey, e.quote, e.signature) then None
    else if !IsQuote(e.quote) || QuoteFields(e.quote).extraData != H(QualifyingInput(ch)) then None
    else if e.pcrValues != p.expectedPcrValues || QuoteFields(e.quote).pcrDigest != H(e.pcrValues) then None
    else Some(VerifiedAttestation(ch.releaseCounter, ch.policyGeneration, ch.merkleRoot))
  }

  /** Challenge binding: one piece of evidence answers one challenge, or the two qualifying inputs
      collide. */
  lemma ChallengeBinding(H: Hash, S: Ecdsa, e: Evidence, a: Challenge, b: Challenge, p: AttestationPolicy)
    requires VerifyAttestation(H, S, e, a, p).Some? && VerifyAttestation(H, S, e, b, p).Some?
    ensures a == b || CollisionIn(H, {QualifyingInput(a), QualifyingInput(b)})
  {
    hide IsQuote, QualifyingInput;
    EqualOrCollision(H, QualifyingInput(a), QualifyingInput(b), {QualifyingInput(a), QualifyingInput(b)});
    if QualifyingInput(a) == QualifyingInput(b) {
      QualifyingInputInjective(a, b);
    }
  }

  /** Evidence made for a challenge that meets the policy is accepted. */
  lemma HonestEvidenceIsAccepted(H: Hash, S: Ecdsa, sk: Bytes, q: Quote, ch: Challenge, p: AttestationPolicy)
    requires S.Correct() && S.privateKeyOk(sk) && p.akPublicKey == S.publicKey(sk) && Sized(q)
    requires q.extraData == H(QualifyingInput(ch)) && q.pcrDigest == H(p.expectedPcrValues)
    requires ch.releaseCounter >= p.minimumRelease && ch.policyGeneration == p.expectedPolicyGeneration && ch.merkleRoot == p.expectedMerkleRoot
    ensures VerifyAttestation(H, S, Evidence(PrintQuote(q), S.sign(sk, PrintQuote(q)), p.expectedPcrValues), ch, p)
            == Some(VerifiedAttestation(ch.releaseCounter, ch.policyGeneration, ch.merkleRoot))
  {
    PrintedQuoteIsRead(q);
    hide IsQuote, PrintQuote, QualifyingInput, QuoteFields;
  }

  /** The quote that answers a challenge: it prints to the evidence and carries the digests of this
      challenge and of the enrolled registers. */
  ghost predicate Answers(H: Hash, e: Evidence, ch: Challenge, p: AttestationPolicy) {
    exists q: Quote :: Sized(q) && PrintQuote(q) == e.quote && q.extraData == H(QualifyingInput(ch)) && q.pcrDigest == H(p.expectedPcrValues)
  }

  /** Evidence is accepted exactly when the challenge meets the policy, the registers are the enrolled
      ones, the enrolled key signed it, and it is a quote that answers the challenge; what is then
      reported is the challenge's own. */
  lemma AcceptedExactly(H: Hash, S: Ecdsa, e: Evidence, ch: Challenge, p: AttestationPolicy)
    ensures VerifyAttestation(H, S, e, ch, p).Some? <==>
              && ch.releaseCounter >= p.minimumRelease && ch.policyGeneration == p.expectedPolicyGeneration
              && ch.merkleRoot == p.expectedMerkleRoot && e.pcrValues == p.expectedPcrValues
              && S.publicKeyOk(p.akPublicKey) && S.signatureOk(e.signature) && S.verify(p.akPublicKey, e.quote, e.signature)
              && Answers(H, e, ch, p)
    ensures VerifyAttestation(H, S, e, ch, p).Some? ==>
              VerifyAttestation(H, S, e, ch, p).value == VerifiedAttestation(ch.releaseCounter, ch.policyGeneration, ch.merkleRoot)
  {
    hide IsQuote, QuoteFields, QualifyingInput, Answers;
    AnswersRead(H, e, ch, p);
  }

  /** The evidence answers exactly when the reader accepts it and finds the two digests. */
  lemma AnswersRead(H: Hash, e: Evidence, ch: Challenge, p: AttestationPolicy)
    ensures Answers(H, e, ch, p) <==>
              IsQuote(e.quote) && QuoteFields(e.quote) == ParsedQuote(H(QualifyingInput(ch)), H(p.expectedPcrValues))
  {
    hide IsQuote, PrintQuote, QuoteOf, QuoteFields, QualifyingInput;
    if IsQuote(e.quote) {
      ReadQuoteIsPrinted(e.quote);
      PrintedQuoteIsRead(QuoteOf(e.quote));
    }
    if Answers(H, e, ch, p) {
      var q: Quote :| Sized(q) && PrintQuote(q) == e.quote && q.extraData == H(QualifyingInput(ch)) && q.pcrDigest == H(p.expectedPcrValues);
      PrintedQuoteIsRead(q);
    }
  }

  // ------------------------------------------------------------- wire codecs

  function EncodeChallenge(ch: Challenge): (b: Bytes)
    ensures |b| == CHALLENGE_LEN
  {
    CHALLENGE_MAGIC + ToLE(WIRE_VERSION, 4) + ch.nonce + ToLE(ch.releaseCounter, 8) + ToLE(ch.policyGeneration, 8) + ch.merkleRoot
  }

  function ParseChallenge(data: Bytes): (r: Option<Challenge>) {
    if |data| != CHALLENGE_LEN then None
    else if data[..8] != CHALLENGE_MAGIC || FromLE(data[8..12]) != WIRE_VERSION then None
    else Some(Challenge(data[12..44], Read64(data, 44), Read64(data, 52), data[60..92]))
  }

  /** A challenge envelope parses exactly when it is the encoding of what it parses to. */
  lemma ChallengeCodec(data: Bytes, ch: Challenge)
    ensures ParseChallenge(data) == Some(ch) <==> data == EncodeChallenge(ch)
  {
    if data == EncodeChallenge(ch) {
      ChallengeSlices(ch);
      Pow256Values();
      FromLEToLE(WIRE_VERSION, 4);
      FromLEToLE(ch.releaseCounter, 8);
      FromLEToLE(ch.policyGeneration, 8);
      hide EncodeChallenge, ToLE, FromLE;
    }
    if ParseChallenge(data) == Some(ch) {
      ToLEFromLE(data[8..12]);
      ToLEFromLE(data[44..52]);
      ToLEFromLE(data[52..60]);
      hide ToLE, FromLE;
      assert data == data[..8] + data[8..12] + data[12..44] + data[44..52] + data[52..60] + data[60..92];
    }
  }

  /** Where the fields of a challenge envelope lie. */
  lemma ChallengeSlices(ch: Challenge)
    ensures var x := EncodeChallenge(ch);
            && x[..8] == CHALLENGE_MAGIC && x[8..12] == ToLE(1, 4) && x[12..44] == ch.nonce
            && x[44..52] == ToLE(ch.releaseCounter, 8) && x[52..60] == ToLE(ch.policyGeneration, 8) && x[60..92] == ch.merkleRoot
  {
    hide ToLE;
  }

  function EncodeEvidence(e: Evidence): (r: Option<Bytes>) {
    if e.quote == [] || |e.quote| > MAX_QUOTE_LEN then None else Some(PrintEvidence(e))
  }

  function PrintEvidence(e: Evidence): (b: Bytes) {
    EVIDENCE_MAGIC + ToLE(WIRE_VERSION, 4) + ToLE(|e.quote|, 4) + e.signature + e.pcrValues + e.quote
  }

  function ParseEvidence(data: Bytes): (r: Option<Evidence>) {
    if |data| < EVIDENCE_PREFIX_LEN then None
    else if data[..8] != EVIDENCE_MAGIC || FromLE(data[8..12]) != WIRE_VERSION then None
    else
      var quoteLen := FromLE(data[12..16]);
      if quoteLen == 0 || quoteLen > MAX_QUOTE_LEN || |data| != EVIDENCE_PREFIX_LEN + quoteLen then None
      else Some(Evidence(data[240..], data[16..80], data[80..240]))
  }

  /** Where the fields of an evidence envelope lie, and which evidence has none. */
  lemma EvidenceLayout(e: Evidence)
    ensures EncodeEvidence(e).None? <==> |e.quote| == 0 || |e.quote| > 4096
    ensures EncodeEvidence(e).Some? ==>
              var x := EncodeEvidence(e).value;
              && |x| == 240 + |e.quote| && x[..8] == EVIDENCE_MAGIC && x[8..12] == ToLE(1, 4) && x[12..16] == ToLE(|e.quote|, 4)
              && x[16..80] == e.signature && x[80..240] == e.pcrValues && x[240..] == e.quote
  {
    EvidenceSlices(e);
    hide PrintEvidence, ToLE;
  }

  /** The marks spelled out. */
  lemma MarksSpelled()
    ensures forall i :: 0 <= i < 14 ==> DOMAIN[i] == "DFIM-ATTEST-V1"[i] as int
    ensures forall i :: 0 <= i < 8 ==> CHALLENGE_MAGIC[i] == "DFIMCHL1"[i] as int && EVIDENCE_MAGIC[i] == "DFIMATS1"[i] as int
  {
  }

  /** An evidence envelope parses exactly when it is the encoding of what it parses to. */
  lemma EvidenceCodec(data: Bytes, e: Evidence)
    ensures ParseEvidence(data) == Some(e) <==> EncodeEvidence(e) == Some(data)
  {
    if EncodeEvidence(e) == Some(data) {
      PrintedEvidenceIsRead(e);
    }
    if ParseEvidence(data) == Some(e) {
      ReadEvidenceIsPrinted(data);
    }
  }

  lemma PrintedEvidenceIsRead(e: Evidence)
    requires EncodeEvidence(e).Some?
    ensures ParseEvidence(PrintEvidence(e)) == Some(e)
  {
    EvidenceSlices(e);
    Pow256Values();
    FromLEToLE(WIRE_VERSION, 4);
    FromLEToLE(|e.quote|, 4);
    hide PrintEvidence, ToLE, FromLE;
  }

  lemma ReadEvidenceIsPrinted(data: Bytes)
    requires ParseEvidence(data).Some?
    ensures EncodeEvidence(ParseEvidence(data).value) == Some(data)
  {
    ToLEFromLE(data[8..12]);
    ToLEFromLE(data[12..16]);
    hide ToLE, FromLE;
    EvidencePieces(data);
  }

  lemma EvidencePieces(data: Bytes)
    requires |data| >= EVIDENCE_PREFIX_LEN
    ensures data == data[..8] + data[8..12] + data[12..16] + data[16..80] + data[80..240] + data[240..]
  {
    assert data[..16] == data[..8] + data[8..12] + data[12..16];
    assert data[..240] == data[..16] + data[16..80] + data[80..240];
  }

  lemma EvidenceSlices(e: Evidence)
    ensures var x := PrintEvidence(e);
            && |x| == 240 + |e.quote| && x[..8] == EVIDENCE_MAGIC && x[8..12] == ToLE(WIRE_VERSION, 4) && x[12..16] == ToLE(|e.quote|, 4)
            && x[16..80] == e.signature && x[80..240] == e.pcrValues && x[240..] == e.quote
  {
    hide ToLE;
  }
}
