/** The Hamming codec of the core engine: its loops over 64-bit words. */
module Hamming {
  import opened Basics
  import opened Observer
  import opened HammingCode

  predicate InRange(n: nat) {
    MIN_DATA_BITS <= n <= MAX_DATA_BITS
  }

  method CeilLog2(n: nat) returns (r: nat)
    ensures n <= 1 ==> r == 1
    ensures n > 1 ==> n <= Pow2(r) && forall s: nat :: n <= Pow2(s) ==> r <= s
  {
    if n <= 1 {
      return 1;
    }
    r := 0;
    var v := n - 1;
    while v > 0
      invariant v >= 0
      invariant v * Pow2(r) <= n - 1 < (v + 1) * Pow2(r)
      invariant r > 0 ==> Pow2(r - 1) < n
      decreases v
    {
      HalveStep(v, Pow2(r), n - 1);
      r := r + 1;
      v := v / 2;
    }
    forall s: nat | n <= Pow2(s)
      ensures r <= s
    {
      if s < r {
        Pow2Monotone(s, r - 1);
      }
    }
  }

  lemma HalveStep(v: nat, p: nat, m: nat)
    requires v > 0 && v * p <= m < (v + 1) * p
    ensures (v / 2) * (2 * p) <= m < (v / 2 + 1) * (2 * p)
    ensures p <= m
  {
    var h := v / 2;
    ProductAtLeast(v, p);
    assert h * (2 * p) == (2 * h) * p && (h + 1) * (2 * p) == (2 * h + 2) * p;
    if v % 2 == 0 {
      assert (2 * h + 2) * p == (v + 1) * p + p;
    } else {
      assert (2 * h) * p == v * p - p;
    }
  }

  /** `parity_bit_count`: the least `r` with `2^r >= n + r + 1`, whatever the starting guess. */
  method ParityBitCount(nData: nat) returns (r: Result<nat>)
    ensures nData < 4 || nData > 247 ==> r == Err(InvalidParameter)
    ensures 4 <= nData <= 247 ==> r == Ok(ParityBits(nData))
  {
    if !InRange(nData) {
      return Err(InvalidParameter);
    }
    ParityBitsIsLeast(nData);
    ghost var least := ParityBits(nData);
    var count := CeilLog2(nData + 1);
    var observer :- NewObserver(64);
    while Pow2(count) < nData + count + 1
      invariant count <= least
      invariant observer.count <= count
      decreases least - count
    {
      assert count < least;
      var _ :- observer.Tick();
      count := count + 1;
      if count > 64 {
        return Err(ParameterOverflow);
      }
    }
    return Ok(count);
  }

  method ComputeParity(cw: Word, total: nat, p: nat) returns (parity: bool)
    requires total <= 64
    ensures parity == Parity(cw, total, p)
  {
    parity := false;
    for pos := 1 to total + 1
      invariant parity == Parity(cw, pos - 1, p)
    {
      if NatBit(pos, p) {
        parity := parity != cw[pos - 1];
      }
    }
  }

  method SpreadData(data: Word, total: nat) returns (cw: Word)
    requires total <= 64
    ensures cw == Spread(data, total)
  {
    cw := Zero();
    var dataIdx: nat := 0;
    for pos := 1 to total + 1
      invariant dataIdx == DataCount(pos - 1)
      invariant cw == Spread(data, pos - 1)
    {
      if !IsParityPosition(pos) {
        cw := OrBit(cw, pos - 1, data[dataIdx]);
        dataIdx := dataIdx + 1;
      }
    }
  }

  method FillParities(spread: Word, nData: nat) returns (cw: Word)
    requires Width(nData)
    ensures cw == FillParity(spread, Total(nData), ParityBits(nData))
  {
    cw := spread;
    for p := 0 to ParityBits(nData)
      invariant cw == FillParity(spread, Total(nData), p)
    {
      hide Parity, Pow2, FillParity, OrBit;
      ParityPositionInRange(nData, p);
      FillParityStep(spread, Total(nData), p + 1);
      var parityPos := Pow2(p);
      var parity := ComputeParity(cw, Total(nData), p);
      cw := OrBit(cw, parityPos - 1, parity);
    }
  }

  /** `encode_bits`, for the widths whose codeword fits a u64. */
  method EncodeBits(data: Word, nData: nat) returns (r: Result<Word>)
    requires !(57 < nData <= MAX_DATA_BITS)
    ensures nData < 4 || nData > 247 || !Fits(data, nData) ==> r == Err(InvalidParameter)
    ensures 4 <= nData <= 247 && Fits(data, nData) ==>
              r.Ok? && r.value == Encoded(data, nData) && IsCodeword(r.value, nData) && DataOf(r.value, nData) == data
  {
    if !InRange(nData) {
      return Err(InvalidParameter);
    }
    if !Fits(data, nData) {
      return Err(InvalidParameter);
    }
    var rr :- ParityBitCount(nData);
    var total := nData + rr;
    var cw := SpreadData(data, total);
    cw := FillParities(cw, nData);
    EncodedIsCodeword(data, nData);
    assert Masked(cw, total) == cw;
    return Ok(Masked(cw, total));
  }

  method CollectData(cw: Word, total: nat) returns (data: Word)
    requires total <= 64
    ensures data == Gather(cw, total)
  {
    data := Zero();
    var dataIdx: nat := 0;
    for pos := 1 to total + 1
      invariant dataIdx == DataCount(pos - 1)
      invariant data == Gather(cw, pos - 1)
    {
      if !IsParityPosition(pos) {
        data := OrBit(data, dataIdx, cw[pos - 1]);
        dataIdx := dataIdx + 1;
      }
    }
  }

  method ComputeSyndrome(cw: Word, nData: nat) returns (syndrome: nat)
    requires Width(nData)
    ensures syndrome == Syndrome(cw, nData)
  {
    syndrome := 0;
    var total := Total(nData);
    for p := 0 to ParityBits(nData)
      invariant syndrome == Value(ParityWord(cw, nData), p)
    {
      var parity := ComputeParity(cw, total, p);
      if parity {
        // bit p is still clear, so the bitwise or is an addition
        syndrome := syndrome + Pow2(p);
      }
    }
  }

  /** `decode_bits`: the data of the corrected word, and the syndrome. */
  method DecodeBits(codeword: Word, nData: nat) returns (r: Result<(Word, nat)>)
    requires !(57 < nData <= MAX_DATA_BITS)
    ensures nData < 4 || nData > 247 ==> r == Err(InvalidParameter)
    ensures 4 <= nData <= 247 ==>
              var received := Masked(codeword, Total(nData));
              r == Ok((DataOf(Corrected(received, nData), nData), Syndrome(received, nData)))
  {
    if !InRange(nData) {
      return Err(InvalidParameter);
    }
    var rr :- ParityBitCount(nData);
    var total := nData + rr;
    var cw: Word := Masked(codeword, total);
    var syndrome := ComputeSyndrome(cw, nData);
    if syndrome != 0 {
      var errPos := syndrome;
      if errPos <= total {
        cw := FlipBit(cw, errPos - 1);
      }
    }
    var data := CollectData(cw, total);
    DataFits(cw, nData);
    assert Masked(data, nData) == data;
    return Ok((Masked(data, nData), syndrome));
  }

  /** `decode_bits_strict`: accepted exactly when the received word is within one bit of a codeword,
      and then with that codeword's data. */
  method DecodeBitsStrict(codeword: Word, nData: nat) returns (r: Result<Word>)
    requires !(57 < nData <= MAX_DATA_BITS)
    ensures nData < 4 || nData > 247 ==> r == Err(InvalidParameter)
    ensures 4 <= nData <= 247 ==> r == StrictDecode(codeword, nData)
    ensures 4 <= nData <= 247 ==>
              (r.Ok? <==> exists c: Word :: IsCodeword(c, nData) && WithinOne(Masked(codeword, Total(nData)), c))
    ensures 4 <= nData <= 247 ==>
              forall c: Word :: IsCodeword(c, nData) && WithinOne(Masked(codeword, Total(nData)), c) ==> r == Ok(DataOf(c, nData))
  {
    if !InRange(nData) {
      return Err(InvalidParameter);
    }
    var rr :- ParityBitCount(nData);
    var total := nData + rr;
    var received: Word := Masked(codeword, total);
    StrictMeaning(received, nData);
    assert Masked(received, total) == received;
    var decoded :- DecodeBits(received, nData);
    var (data, syndrome) := decoded;
    DataFits(Corrected(received, nData), nData);
    var reencoded :- EncodeBits(data, nData);
    if reencoded == received {
      return Ok(data);
    }
    if syndrome == 0 {
      return Err(CorruptMetadata);
    }
    var errPos := syndrome;
    if errPos == 0 || errPos > total {
      return Err(CorruptMetadata);
    }
    var corrected: Word := FlipBit(received, errPos - 1);
    if reencoded == corrected {
      return Ok(data);
    }
    return Err(CorruptMetadata);
  }

  function StrictDecode(codeword: Word, n: nat): (r: Result<Word>)
    requires Width(n)
  {
    var received := Masked(codeword, Total(n));
    if StrictAccepts(received, n) then Ok(DataOf(Corrected(received, n), n)) else Err(CorruptMetadata)
  }

  /** One flipped bit is undone and located; no flipped bit gives syndrome 0. */
  lemma SingleFlipIsCorrected(data: Word, n: nat, k: nat)
    requires Width(n) && Fits(data, n) && k < Total(n)
    ensures var c := Encoded(data, n);
            && DataOf(Corrected(c, n), n) == data && Syndrome(c, n) == 0
            && DataOf(Corrected(FlipBit(c, k), n), n) == data && Syndrome(FlipBit(c, k), n) == k + 1
            && StrictDecode(c, n) == Ok(data) && StrictDecode(FlipBit(c, k), n) == Ok(data)
  {
    var c := Encoded(data, n);
    EncodedIsCodeword(data, n);
    SyndromeZero(c, n);
    SyndromeLocatesFlip(c, n, k);
    assert FlipBit(FlipBit(c, k), k) == c;
    assert Masked(c, Total(n)) == c && Masked(FlipBit(c, k), Total(n)) == FlipBit(c, k);
    StrictMeaning(c, n);
    StrictMeaning(FlipBit(c, k), n);
    assert WithinOne(c, c) && WithinOne(FlipBit(c, k), c);
  }

  /** Every decoded bit, for every received word: the bit at its position, flipped exactly when the
      syndrome names that position. */
  lemma DecodedBit(w: Word, n: nat, q: nat)
    requires Width(n) && 1 <= q <= Total(n) && !IsParityPosition(q)
    ensures DataOf(Corrected(w, n), n)[DataCount(q - 1)] == (w[q - 1] != (Syndrome(w, n) == q))
  {
    hide Syndrome, IsParityPosition, DataCount;
    GatherBit(Corrected(w, n), Total(n), q);
    hide Gather;
  }

  /** Two flipped bits are never undone: strict decoding rejects or returns other data. */
  lemma DoubleFlipIsNotCorrected(data: Word, n: nat, k: nat, l: nat)
    requires Width(n) && Fits(data, n) && k < Total(n) && l < Total(n) && k != l
    ensures StrictDecode(FlipBit(FlipBit(Encoded(data, n), k), l), n) != Ok(data)
  {
    var c := Encoded(data, n);
    var w := FlipBit(FlipBit(c, k), l);
    EncodedIsCodeword(data, n);
    assert Masked(w, Total(n)) == w;
    assert w[k] != c[k] && w[l] != c[l];
  }

  /** The syndrome of a codeword with two flipped positions is their exclusive or. */
  lemma DoubleFlipSyndrome(c: Word, n: nat, k: nat, l: nat)
    requires Width(n) && IsCodeword(c, n) && k < Total(n) && l < Total(n)
    ensures Syndrome(FlipBit(FlipBit(c, k), l), n) == NatXor(k + 1, l + 1)
  {
    var w, r := FlipBit(FlipBit(c, k), l), ParityBits(n);
    SyndromeBits(w, n);
    ParityBitsIsLeast(n);
    NatXorBound(k + 1, l + 1, r);
    forall p: nat | p < r
      ensures NatBit(Syndrome(w, n), p) == NatBit(NatXor(k + 1, l + 1), p)
    {
      ParityAfterFlip(FlipBit(c, k), Total(n), p, l);
      ParityAfterFlip(c, Total(n), p, k);
      NatXorBits(k + 1, l + 1, p);
    }
    BitsDetermine(Syndrome(w, n), NatXor(k + 1, l + 1), r);
  }

  /** Which double flips strict decoding rejects: exactly those whose positions combine to a number
      past the end of the codeword. */
  lemma DoubleFlipRejectedExactly(data: Word, n: nat, k: nat, l: nat)
    requires Width(n) && Fits(data, n) && k < Total(n) && l < Total(n)
    ensures StrictDecode(FlipBit(FlipBit(Encoded(data, n), k), l), n) == Err(CorruptMetadata) <==> NatXor(k + 1, l + 1) > Total(n)
  {
    var c := Encoded(data, n);
    var w := FlipBit(FlipBit(c, k), l);
    EncodedIsCodeword(data, n);
    DoubleFlipSyndrome(c, n, k, l);
    assert Masked(w, Total(n)) == w;
    StrictRejectsExactly(w, n);
  }

  /** At every width some double flip is accepted, with the wrong data: the first two positions
      combine to the third. */
  lemma SomeDoubleFlipIsAccepted(data: Word, n: nat)
    requires Width(n) && Fits(data, n)
    ensures StrictDecode(FlipBit(FlipBit(Encoded(data, n), 0), 1), n).Ok?
    ensures StrictDecode(FlipBit(FlipBit(Encoded(data, n), 0), 1), n) != Ok(data)
  {
    assert NatXor(1, 2) == 3 by {
      assert NatXor(0, 1) == 1;
    }
    DoubleFlipRejectedExactly(data, n, 0, 1);
    DoubleFlipIsNotCorrected(data, n, 0, 1);
  }

  /** Strict decoding can reject something exactly at the widths whose code is not perfect; there,
      some double flip of every codeword is caught. */
  lemma RejectsSomethingExactly(data: Word, n: nat)
    requires Width(n) && Fits(data, n)
    ensures (exists w: Word :: Fits(w, Total(n)) && !StrictAccepts(w, n)) <==> Pow2(ParityBits(n)) != Total(n) + 1
    ensures Pow2(ParityBits(n)) != Total(n) + 1 ==>
              exists k: nat, l: nat :: k < Total(n) && l < Total(n)
                && StrictDecode(FlipBit(FlipBit(Encoded(data, n), k), l), n) == Err(CorruptMetadata)
  {
    var q, total := ParityBits(n) - 1, Total(n);
    ParityBitsIsLeast(n);
    if Pow2(ParityBits(n)) != total + 1 {
      assert Pow2(q) < n + q + 1;
      var k, l := total - Pow2(q), Pow2(q) - 1;
      NatXorOfPower(k + 1, q);
      DoubleFlipRejectedExactly(data, n, k, l);
      var w := FlipBit(FlipBit(Encoded(data, n), k), l);
      EncodedIsCodeword(data, n);
      assert Masked(w, total) == w;
      assert Fits(w, total) && !StrictAccepts(w, n);
    } else {
      forall w: Word | Fits(w, total)
        ensures StrictAccepts(w, n)
      {
        PerfectCodeAcceptsAll(w, n);
      }
    }
  }
}
