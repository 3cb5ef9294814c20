/** The `--state` database: a bare sidecar, or one inside the checksummed DFIMSTAT envelope. */
module StateDb {
  import opened Basics
  import opened Sidecar

  /** "DFIMSTAT" */
  const WRAPPED_MAGIC: Bytes := [0x44, 0x46, 0x49, 0x4D, 0x53, 0x54, 0x41, 0x54]
  /** "STATE_"; the longer prefix "STATE_HASH" that the source also names starts with it. */
  const PLAINTEXT_PREFIX: Bytes := [0x53, 0x54, 0x41, 0x54, 0x45, 0x5F]
  const WRAPPED_VERSION: nat := 1
  const WRAPPED_HEADER_LEN: nat := 16
  const MIN_WRAPPED_LEN: nat := 48
  const LEGACY_LICENSE_LEN: nat := 16

  predicate IsPrintableAscii(b: byte) {
    0x21 <= b <= 0x7E || b == 0x20 || b == 0x09 || b == 0x0A || b == 0x0C || b == 0x0D
  }

  /** `reject_plaintext_injection` */
  function RejectPlaintext(raw: Bytes): (r: Result<()>) {
    if raw == [] then Err(EmptyInput)
    else if |raw| == LEGACY_LICENSE_LEN then Err(CorruptMetadata)
    else if PLAINTEXT_PREFIX <= raw then Err(CorruptMetadata)
    else if |raw| < 8 && forall i :: 0 <= i < |raw| ==> IsPrintableAscii(raw[i]) then Err(CorruptMetadata)
    else Ok(())
  }

  /** `validate_boot_sidecar_header` */
  function SidecarHeader(data: Bytes): (r: Result<()>) {
    if |data| < HEADER_LEN then Err(BufferTooShort)
    else if data[0..8] != MAGIC then Err(IntegrityFailure)
    else if Read32(data, 8) != VERSION then Err(InvalidParameter)
    else if Read32(data, 12) != DFIM_BLOCK_SIZE || Read32(data, 16) == 0 then Err(InvalidParameter)
    else ValidateBlockCount(Read32(data, 16))
  }

  function EnvelopeBody(payload: Bytes): (b: Bytes) {
    WRAPPED_MAGIC + ToLE(WRAPPED_VERSION, 4) + ToLE(|payload|, 4) + payload
  }

  function Envelope(H: Hash, payload: Bytes): (b: Bytes) {
    EnvelopeBody(payload) + H(EnvelopeBody(payload))
  }

  /** `wrap_authenticated_state_db` */
  function Wrapped(H: Hash, payload: Bytes): (r: Result<Bytes>) {
    if SidecarHeader(payload).Err? then Err(SidecarHeader(payload).error)
    else if |payload| >= U32_LIMIT then Err(ParameterOverflow)
    else Ok(Envelope(H, payload))
  }

  /** `unwrap_authenticated_envelope` */
  function Unwrapped(H: Hash, raw: Bytes): (r: Result<Bytes>) {
    if |raw| < MIN_WRAPPED_LEN then Err(BufferTooShort)
    else if Read32(raw, 8) != WRAPPED_VERSION then Err(InvalidParameter)
    else
      var payloadEnd := WRAPPED_HEADER_LEN + Read32(raw, 12);
      if |raw| != payloadEnd + SHA256_LEN then Err(CorruptMetadata)
      else if H(raw[..payloadEnd]) != raw[payloadEnd..] then Err(IntegrityFailure)
      else
        var payload := raw[WRAPPED_HEADER_LEN..payloadEnd];
        if SidecarHeader(payload).Err? then Err(SidecarHeader(payload).error) else Ok(payload)
  }

  /** `parse_authenticated_state_db` */
  function StateParsed(H: Hash, raw: Bytes): (r: Result<Bytes>) {
    if RejectPlaintext(raw).Err? then Err(RejectPlaintext(raw).error)
    else if |raw| >= 8 && raw[0..8] == WRAPPED_MAGIC then Unwrapped(H, raw)
    else if |raw| >= 8 && raw[0..8] == MAGIC then
      if SidecarHeader(raw).Err? then Err(SidecarHeader(raw).error) else Ok(raw)
    else Err(CorruptMetadata)
  }

  method WrapAuthenticatedStateDb(H: Hash, payload: Bytes) returns (r: Result<Bytes>)
    ensures r == Wrapped(H, payload)
    ensures SidecarHeader(payload).Err? ==> r == Err(SidecarHeader(payload).error)
    ensures SidecarHeader(payload).Ok? && |payload| >= 0x1_0000_0000 ==> r == Err(ParameterOverflow)
    ensures r.Ok? ==> StateParsed(H, r.value) == Ok(payload)
  {
    if Wrapped(H, payload).Ok? {
      ParseWrapped(H, payload);
    }
    hide SidecarHeader, ToLE, StateParsed;
    var _ :- SidecarHeader(payload);
    if |payload| > U32_LIMIT - 1 {
      return Err(ParameterOverflow);
    }
    var out: Bytes := [];
    out := out + WRAPPED_MAGIC;
    out := out + ToLE(WRAPPED_VERSION, 4);
    out := out + ToLE(|payload|, 4);
    out := out + payload;
    assert out == EnvelopeBody(payload);
    var checksum := H(out);
    out := out + checksum;
    return Ok(out);
  }

  // ------------------------------------------------------------- headers and errors

  ghost predicate IsHeader(header: Bytes) {
    exists root: Digest, n: u32, fecLen: u32 :: 1 <= n <= 64 && header == Header(root, 4096, n, fecLen)
  }

  /** The header test passes exactly on what begins with a printed v1 header of one to 64 blocks. */
  lemma SidecarHeaderExactly(data: Bytes)
    ensures SidecarHeader(data).Ok? <==> |data| >= 56 && IsHeader(data[..56])
  {
    if SidecarHeader(data).Ok? {
      assert FromLE(data[8..12]) == VERSION;
      HeaderFromFields(data);
      assert IsHeader(data[..56]);
    }
    hide Header, Read32, FromLE;
    if |data| >= 56 && IsHeader(data[..56]) {
      var root: Digest, n: u32, fecLen: u32 :| 1 <= n <= 64 && data[..56] == Header(root, 4096, n, fecLen);
      HeaderReads(root, 4096, n, fecLen, data[56..]);
      assert data == data[..56] + data[56..];
      VersionRead(data);
    }
  }

  lemma VersionRead(data: Bytes)
    requires |data| >= 56
    ensures FromLE(data[8..12]) == Read32(data, 8)
  {
  }

  /** A sidecar of another version, the signed one included, is no state database. */
  lemma OtherVersionsAreRefused(H: Hash, raw: Bytes)
    requires |raw| >= 56 && raw[0..8] == MAGIC && Read32(raw, 8) != 1
    ensures StateParsed(H, raw) == Err(InvalidParameter)
  {
    hide Read32;
    assert raw[0..8][2] == 0x49;
    assert raw[0..8][4] == 0x42;
  }

  /** Which state is refused for which reason: the first that applies, in this order. */
  lemma StateErrors(H: Hash, raw: Bytes)
    ensures |raw| == 0 ==> StateParsed(H, raw) == Err(EmptyInput)
    ensures |raw| == 16 || (0 < |raw| && PLAINTEXT_PREFIX <= raw) ==> StateParsed(H, raw) == Err(CorruptMetadata)
    ensures 0 < |raw| && (|raw| < 8 || (raw[0..8] != WRAPPED_MAGIC && raw[0..8] != MAGIC)) ==> StateParsed(H, raw) == Err(CorruptMetadata)
    ensures |raw| >= 8 && |raw| != 16 && raw[0..8] == MAGIC && SidecarHeader(raw).Err? ==> StateParsed(H, raw) == Err(SidecarHeader(raw).error)
    ensures |raw| >= 8 && |raw| != 16 && raw[0..8] == WRAPPED_MAGIC ==>
              && (|raw| < 48 ==> StateParsed(H, raw) == Err(BufferTooShort))
              && (|raw| >= 48 && Read32(raw, 8) != 1 ==> StateParsed(H, raw) == Err(InvalidParameter))
              && (|raw| >= 48 && Read32(raw, 8) == 1 ==> EnvelopeErrors(H, raw, 16 + Read32(raw, 12)))
  {
    hide SidecarHeader, Read32;
    if |raw| >= 8 && (raw[0..8] == MAGIC || raw[0..8] == WRAPPED_MAGIC) {
      assert raw[0..8][2] == 0x49;
    }
    assert WRAPPED_MAGIC[4] != MAGIC[4];
  }

  ghost predicate EnvelopeErrors(H: Hash, raw: Bytes, end: nat) {
    && (|raw| != end + 32 ==> StateParsed(H, raw) == Err(CorruptMetadata))
    && (|raw| == end + 32 && H(raw[..end]) != raw[end..] ==> StateParsed(H, raw) == Err(IntegrityFailure))
  }

  /** The marks spelled out. */
  lemma MarksSpelled()
    ensures forall i :: 0 <= i < 8 ==> WRAPPED_MAGIC[i] == "DFIMSTAT"[i] as int && MAGIC[i] == "DFIMBOOT"[i] as int
    ensures forall i :: 0 <= i < 6 ==> PLAINTEXT_PREFIX[i] == "STATE_"[i] as int
  {
  }

  // ------------------------------------------------------------- the two directions

  lemma EnvelopeFields(H: Hash, payload: Bytes)
    requires |payload| < U32_LIMIT
    ensures var raw := Envelope(H, payload);
            var end := WRAPPED_HEADER_LEN + |payload|;
            && |raw| == end + 32 && raw[0..8] == WRAPPED_MAGIC && Read32(raw, 8) == WRAPPED_VERSION && Read32(raw, 12) == |payload|
            && raw[WRAPPED_HEADER_LEN..end] == payload && raw[..end] == EnvelopeBody(payload) && raw[end..] == H(EnvelopeBody(payload))
  {
    Pow256Values();
    FromLEToLE(WRAPPED_VERSION, 4);
    FromLEToLE(|payload|, 4);
    hide ToLE, FromLE;
    var raw := Envelope(H, payload);
    assert raw[8..12] == ToLE(WRAPPED_VERSION, 4);
    assert raw[12..16] == ToLE(|payload|, 4);
  }

  /** Whatever can be wrapped is unwrapped again. */
  lemma ParseWrapped(H: Hash, payload: Bytes)
    requires Wrapped(H, payload).Ok?
    ensures StateParsed(H, Wrapped(H, payload).value) == Ok(payload)
  {
    hide SidecarHeader, Envelope, EnvelopeBody, Read32;
    EnvelopeFields(H, payload);
    var raw := Envelope(H, payload);
    SidecarHeaderLength(payload);
    assert raw[0..8][2] == 0x49;
  }

  lemma SidecarHeaderLength(data: Bytes)
    ensures SidecarHeader(data).Ok? ==> |data| >= HEADER_LEN && data[0..8] == MAGIC
  {
    hide Read32;
  }

  lemma EnvelopeFromFields(H: Hash, raw: Bytes)
    requires Unwrapped(H, raw).Ok? && raw[0..8] == WRAPPED_MAGIC
    ensures raw == Envelope(H, Unwrapped(H, raw).value) && |Unwrapped(H, raw).value| < U32_LIMIT
  {
    hide SidecarHeader;
    var payloadEnd := WRAPPED_HEADER_LEN + Read32(raw, 12);
    var payload := raw[WRAPPED_HEADER_LEN..payloadEnd];
    Read32Prints(raw, 8);
    Read32Prints(raw, 12);
    hide Read32, ToLE;
    assert raw[..payloadEnd] == raw[0..8] + raw[8..12] + raw[12..16] + payload;
    assert raw == raw[..payloadEnd] + raw[payloadEnd..];
  }

  /** The state parser accepts exactly the sidecars with a good header, bare or in an envelope
      that re-wraps to the same bytes. */
  lemma StateParsedExactly(H: Hash, raw: Bytes, payload: Bytes)
    ensures StateParsed(H, raw) == Ok(payload) <==>
              (raw == payload && SidecarHeader(payload).Ok?) || Wrapped(H, payload) == Ok(raw)
  {
    hide SidecarHeader, Envelope, EnvelopeBody;
    if StateParsed(H, raw) == Ok(payload) {
      if raw[0..8] == WRAPPED_MAGIC {
        assert SidecarHeader(payload).Ok?;
        EnvelopeFromFields(H, raw);
      }
    }
    if raw == payload && SidecarHeader(payload).Ok? {
      SidecarHeaderLength(payload);
      assert raw[0..8][2] == 0x49;
      assert raw[0..8][4] == 0x42;
    }
    if Wrapped(H, payload) == Ok(raw) {
      ParseWrapped(H, payload);
    }
  }
}
