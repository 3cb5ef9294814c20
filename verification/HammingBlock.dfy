/** The byte-level codec: each byte becomes two Hamming(7,4) codewords, one per nibble. */
module HammingBlock {
  import opened Basics
  import opened Observer
  import opened HammingCode
  import opened Hamming

  /** The codeword byte of a nibble. */
  function CodeByte(x: nat): (b: byte)
    requires x < 16
    ensures b < 128
  {
    var c := Encoded(ToWord(x), 4);
    ValueBits(c, 7); PowersUpTo8();
    Value(c, 7)
  }

  /** The nibble read from a possibly damaged codeword byte; bit 7 is ignored. */
  function Nibble(b: byte): (x: nat)
    ensures x < 16
  {
    var data := DataOf(Corrected(ToWord(b % 128), 4), 4);
    ValueBits(data, 4); PowersUpTo8();
    Value(data, 4)
  }

  function EncodedBlock(data: Bytes): (enc: Bytes)
    ensures |enc| == 2 * |data|
  {
    seq(2 * |data|, i requires 0 <= i < 2 * |data| =>
      if i % 2 == 0 then CodeByte(data[i / 2] / 16) else CodeByte(data[i / 2] % 16))
  }

  /** `(hi << 4) | lo` */
  function Paired(hi: nat, lo: nat): (b: byte)
    requires hi < 16 && lo < 16
  {
    16 * hi + lo
  }

  function PairAt(enc: Bytes, i: nat): (b: byte)
    requires i < |enc| / 2
  {
    Paired(Nibble(enc[2 * i]), Nibble(enc[2 * i + 1]))
  }

  function DecodedBlock(enc: Bytes): (data: Bytes)
    ensures |data| == |enc| / 2
  {
    seq(|enc| / 2, i requires 0 <= i < |enc| / 2 => PairAt(enc, i))
  }

  function DecodeResult(enc: Bytes): (r: Result<Bytes>) {
    if enc == [] || |enc| % 2 != 0 then Err(InvalidParameter) else Ok(DecodedBlock(enc))
  }

  // ------------------------------------------------------------- damage

  /** `d` is `c` with exactly bit `k` flipped, looking only at the low seven bits. */
  ghost predicate FlippedAt(c: byte, d: byte, k: nat)
    requires k < 7
  {
    ToWord(d % 128) == FlipBit(ToWord(c % 128), k)
  }

  ghost predicate AtMostOneFlip(c: byte, d: byte) {
    d % 128 == c % 128 || exists k: nat :: k < 7 && FlippedAt(c, d, k)
  }

  ghost predicate TwoFlips(c: byte, d: byte) {
    exists k: nat, l: nat :: k < 7 && l < 7 && k != l && ToWord(d % 128) == FlipBit(FlipBit(ToWord(c % 128), k), l)
  }

  lemma CodeByteWord(x: nat)
    requires x < 16
    ensures Fits(ToWord(x), 4) && Value(ToWord(x), 4) == x
    ensures ToWord(CodeByte(x) % 128) == Encoded(ToWord(x), 4)
  {
    PowersUpTo8();
    ValueOfToWord(x, 4);
    EncodedIsCodeword(ToWord(x), 4);
    CodewordIsSevenBits(Encoded(ToWord(x), 4));
  }

  lemma CodewordIsSevenBits(c: Word)
    requires IsCodeword(c, 4)
    ensures ToWord(Value(c, 7) % 128) == c
  {
    PowersUpTo8();
    ValueBits(c, 7);
    ToWordOfValue(c, 7);
  }

  lemma SevenBits(b: nat)
    requires b < 128
    ensures Fits(ToWord(b), 7) && Masked(ToWord(b), 7) == ToWord(b)
  {
    PowersUpTo8();
    ValueOfToWord(b, 7);
  }

  /** A nibble survives any single flip of its codeword byte. */
  lemma NibbleSurvivesOneFlip(x: nat, d: byte)
    requires x < 16 && AtMostOneFlip(CodeByte(x), d)
    ensures Nibble(d) == x
  {
    CodeByteWord(x);
    if d % 128 == CodeByte(x) % 128 {
      SingleFlipIsCorrected(ToWord(x), 4, 0);
    } else {
      var k: nat :| k < 7 && FlippedAt(CodeByte(x), d, k);
      SingleFlipIsCorrected(ToWord(x), 4, k);
    }
  }

  /** Two flips in one codeword byte always change the nibble. */
  lemma NibbleChangesOnTwoFlips(x: nat, d: byte)
    requires x < 16 && TwoFlips(CodeByte(x), d)
    ensures Nibble(d) != x
  {
    CodeByteWord(x);
    SevenBits(d % 128);
    PerfectCodeAcceptsAll(ToWord(d % 128), 4);
    var k: nat, l: nat :| k < 7 && l < 7 && k != l && ToWord(d % 128) == FlipBit(FlipBit(ToWord(CodeByte(x) % 128), k), l);
    DoubleFlipIsNotCorrected(ToWord(x), 4, k, l);
    var data := DataOf(Corrected(ToWord(d % 128), 4), 4);
    DataFits(Corrected(ToWord(d % 128), 4), 4);
    ToWordOfValue(data, 4);
  }

  lemma EncodedPair(data: Bytes, j: nat)
    requires j < |data|
    ensures EncodedBlock(data)[2 * j] == CodeByte(data[j] / 16)
    ensures EncodedBlock(data)[2 * j + 1] == CodeByte(data[j] % 16)
  {
    hide CodeByte;
    assert (2 * j) / 2 == j && (2 * j + 1) / 2 == j;
  }

  /** Decoding a block whose codeword bytes each suffered at most one flip restores the data. */
  lemma BlockSurvivesOneFlipPerByte(data: Bytes, damaged: Bytes)
    requires |damaged| == 2 * |data|
    requires forall i :: 0 <= i < |damaged| ==> AtMostOneFlip(EncodedBlock(data)[i], damaged[i])
    ensures DecodedBlock(damaged) == data
  {
    hide CodeByte, Nibble, AtMostOneFlip, EncodedBlock;
    forall j | 0 <= j < |data|
      ensures PairAt(damaged, j) == data[j]
    {
      EncodedPair(data, j);
      assert AtMostOneFlip(EncodedBlock(data)[2 * j], damaged[2 * j]);
      assert AtMostOneFlip(EncodedBlock(data)[2 * j + 1], damaged[2 * j + 1]);
      NibbleSurvivesOneFlip(data[j] / 16, damaged[2 * j]);
      NibbleSurvivesOneFlip(data[j] % 16, damaged[2 * j + 1]);
    }
    hide PairAt;
  }

  /** Round trip of the block codec. */
  lemma BlockRoundTrip(data: Bytes)
    ensures DecodedBlock(EncodedBlock(data)) == data
  {
    BlockSurvivesOneFlipPerByte(data, EncodedBlock(data));
  }

  /** Two flips in codeword byte `i` change byte `i / 2` of the decoded data, whatever happened to
      the rest of the block. */
  lemma BlockChangesOnTwoFlips(data: Bytes, damaged: Bytes, i: nat)
    requires |damaged| == 2 * |data| && i < |damaged|
    requires TwoFlips(EncodedBlock(data)[i], damaged[i])
    ensures DecodedBlock(damaged)[i / 2] != data[i / 2]
  {
    hide CodeByte, Nibble, TwoFlips, EncodedBlock;
    var j := i / 2;
    EncodedPair(data, j);
    assert i == if i % 2 == 0 then 2 * j else 2 * j + 1;
    var hi, lo := Nibble(damaged[2 * j]), Nibble(damaged[2 * j + 1]);
    if i % 2 == 0 {
      NibbleChangesOnTwoFlips(data[j] / 16, damaged[i]);
      assert hi != data[j] / 16;
    } else {
      NibbleChangesOnTwoFlips(data[j] % 16, damaged[i]);
      assert lo != data[j] % 16;
    }
    assert DecodedBlock(damaged)[j] == Paired(hi, lo);
  }

  // ------------------------------------------------------------- the code

  method EncodeNibble(x: nat) returns (r: Result<byte>)
    requires x < 16
    ensures r == Ok(CodeByte(x))
  {
    CodeByteWord(x);
    PowersUpTo8();
    var cw :- EncodeBits(ToWord(x), 4);
    ValueBits(cw, 7);
    return Ok(Value(cw, 7));
  }

  method DecodeNibbleStrict(b: byte) returns (r: Result<nat>)
    ensures r == Ok(Nibble(b))
  {
    SevenBits(b % 128);
    PerfectCodeAcceptsAll(ToWord(b % 128), 4);
    var data :- DecodeBitsStrict(ToWord(b % 128), 4);
    return Ok(Value(data, 4));
  }

  lemma EncodedBlockStep(data: Bytes, i: nat)
    requires i < |data|
    ensures EncodedBlock(data)[..2 * (i + 1)] == EncodedBlock(data)[..2 * i] + [CodeByte(data[i] / 16)] + [CodeByte(data[i] % 16)]
  {
    hide CodeByte, EncodedBlock;
    var enc := EncodedBlock(data);
    EncodedPair(data, i);
    assert enc[..2 * (i + 1)] == enc[..2 * i] + [enc[2 * i]] + [enc[2 * i + 1]];
  }

  lemma DecodedBlockStep(enc: Bytes, i: nat)
    requires i < |enc| / 2
    ensures DecodedBlock(enc)[..i + 1] == DecodedBlock(enc)[..i] + [PairAt(enc, i)]
  {
    hide PairAt;
  }

  /** Both codeword bytes of byte `i`. */
  method DecodePairStrict(enc: Bytes, i: nat) returns (r: Result<byte>)
    requires i < |enc| / 2
    ensures r == Ok(PairAt(enc, i))
  {
    hide Nibble;
    var hi :- DecodeNibbleStrict(enc[2 * i]);
    var lo :- DecodeNibbleStrict(enc[2 * i + 1]);
    return Ok(Paired(hi, lo));
  }

  /** `encode_block` */
  method EncodeBlock(data: Bytes) returns (r: Result<Bytes>)
    requires |data| <= MAX_SLICE_BYTES
    ensures r == if data == [] then Err(EmptyInput) else Ok(EncodedBlock(data))
    ensures r.Ok? ==> DecodedBlock(r.value) == data
  {
    BlockRoundTrip(data);
    hide DecodedBlock;
    if data == [] {
      return Err(EmptyInput);
    }
    hide CodeByte, EncodedBlock;
    var out: Bytes := [];
    var observer :- NewObserver(SaturatingMul(|data|, 2));
    for i := 0 to |data|
      invariant observer.count == i
      invariant out == EncodedBlock(data)[..2 * i]
    {
      var _ :- observer.Tick();
      EncodedBlockStep(data, i);
      var hi := data[i] / 16;
      var lo := data[i] % 16;
      var cwHi :- EncodeNibble(hi);
      var cwLo :- EncodeNibble(lo);
      out := out + [cwHi];
      out := out + [cwLo];
    }
    assert EncodedBlock(data)[..2 * |data|] == EncodedBlock(data);
    return Ok(out);
  }

  /** `decode_block` */
  method DecodeBlock(encoded: Bytes) returns (r: Result<Bytes>)
    requires |encoded| <= MAX_SLICE_BYTES
    ensures r == DecodeResult(encoded)
    ensures |encoded| == 0 || |encoded| % 2 != 0 ==> r == Err(InvalidParameter)
    ensures |encoded| > 0 && |encoded| % 2 == 0 ==> r == Ok(DecodedBlock(encoded))
  {
    if encoded == [] || |encoded| % 2 != 0 {
      return Err(InvalidParameter);
    }
    hide PairAt, DecodedBlock;
    var out: Bytes := [];
    var pairs := |encoded| / 2;
    var observer :- NewObserver(pairs);
    for i := 0 to pairs
      invariant observer.count == i
      invariant out == DecodedBlock(encoded)[..i]
    {
      var _ :- observer.Tick();
      DecodedBlockStep(encoded, i);
      var b :- DecodePairStrict(encoded, i);
      out := out + [b];
    }
    assert DecodedBlock(encoded)[..pairs] == DecodedBlock(encoded);
    return Ok(out);
  }

  /** `decode_block_into_strict`: fills a caller's buffer in place; a refused call changes nothing. */
  method DecodeBlockIntoStrict(encoded: Bytes, out: array<byte>, writtenBefore: nat) returns (r: Result<()>, written: nat)
    requires |encoded| <= MAX_SLICE_BYTES
    modifies out
    ensures encoded == [] || |encoded| % 2 != 0 ==> r == Err(InvalidParameter)
    ensures encoded != [] && |encoded| % 2 == 0 && out.Length < |encoded| / 2 ==> r == Err(BufferTooShort)
    ensures encoded != [] && |encoded| % 2 == 0 && out.Length >= |encoded| / 2 ==>
              && r == Ok(()) && written == |encoded| / 2
              && out[..] == DecodedBlock(encoded) + old(out[..])[|encoded| / 2..]
    ensures r.Err? ==> written == writtenBefore && out[..] == old(out[..])
  {
    hide PairAt, DecodedBlock;
    written := writtenBefore;
    if encoded == [] || |encoded| % 2 != 0 {
      return Err(InvalidParameter), written;
    }
    var pairs := |encoded| / 2;
    if out.Length < pairs {
      return Err(BufferTooShort), written;
    }
    var observer :- NewObserver(pairs);
    written := 0;
    for i := 0 to pairs
      invariant observer.count == i && written == i
      invariant out[..i] == DecodedBlock(encoded)[..i]
      invariant out[i..] == old(out[..])[i..]
      modifies out, observer
    {
      var _ :- observer.Tick();
      DecodedBlockStep(encoded, i);
      var b :- DecodePairStrict(encoded, i);
      out[written] := b;
      written := written + 1;
    }
    assert out[..] == out[..pairs] + out[pairs..];
    assert DecodedBlock(encoded)[..pairs] == DecodedBlock(encoded);
    return Ok(()), written;
  }
}
