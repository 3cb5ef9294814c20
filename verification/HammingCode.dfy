/** The Hamming code itself, apart from the loops that compute it: parities of 64-bit words,
    codewords, syndromes, and why one flipped bit can always be undone. */
module HammingCode {
  import opened Basics

  /** A u64, bit 0 first. */
  type Word = w: seq<bool> | |w| == 64 witness seq(64, _ => false)

  const MIN_DATA_BITS: nat := 4
  const MAX_DATA_BITS: nat := 247

  function Zero(): (w: Word) {
    seq(64, _ => false)
  }

  /** `w | (b << k)` */
  function OrBit(w: Word, k: nat, b: bool): (v: Word)
    requires k < 64
  {
    w[k := w[k] || b]
  }

  /** `w ^ (1 << k)` */
  function FlipBit(w: Word, k: nat): (v: Word)
    requires k < 64
  {
    w[k := !w[k]]
  }

  /** `w & data_mask(bits)` */
  function Masked(w: Word, bits: nat): (v: Word) {
    seq(64, k requires 0 <= k < 64 => w[k] && k < bits)
  }

  predicate Fits(w: Word, bits: nat) {
    forall k :: bits <= k < 64 ==> !w[k]
  }

  // ------------------------------------------------------------- bits of a natural number

  /** `(n >> p) & 1 == 1` */
  predicate NatBit(n: nat, p: nat)
    decreases p
  {
    if p == 0 then n % 2 == 1 else NatBit(n / 2, p - 1)
  }

  /** `a & b` on machine integers. */
  function NatAnd(a: nat, b: nat): (c: nat)
    ensures c <= a
  {
    if a == 0 then 0 else 2 * NatAnd(a / 2, b / 2) + (if a % 2 == 1 && b % 2 == 1 then 1 else 0)
  }

  predicate IsParityPosition(pos: nat) {
    pos != 0 && NatAnd(pos, pos - 1) == 0
  }

  lemma {:induction false} NatAndSelf(a: nat)
    ensures NatAnd(a, a) == a
  {
    if a > 0 {
      NatAndSelf(a / 2);
    }
  }

  lemma {:induction false} PowerIsParityPosition(p: nat)
    ensures IsParityPosition(Pow2(p))
  {
    if p > 0 {
      PowerIsParityPosition(p - 1);
      var half := Pow2(p - 1);
      assert (2 * half) / 2 == half && (2 * half - 1) / 2 == half - 1;
    } else {
      assert NatAnd(1, 0) == 0;
    }
  }

  lemma {:induction false} LogOfParityPosition(pos: nat) returns (p: nat)
    requires IsParityPosition(pos)
    ensures pos == Pow2(p)
  {
    if pos == 1 {
      p := 0;
    } else if pos % 2 == 0 {
      assert (pos - 1) / 2 == pos / 2 - 1;
      p := LogOfParityPosition(pos / 2);
      p := p + 1;
    } else {
      assert (pos - 1) / 2 == pos / 2;
      NatAndSelf(pos / 2);
      assert false;
    }
  }

  /** The bit trick `pos & (pos - 1) == 0` finds exactly the powers of two. */
  lemma ParityPositionIsPowerOfTwo(pos: nat)
    ensures IsParityPosition(pos) <==> exists p: nat :: pos == Pow2(p)
  {
    if IsParityPosition(pos) {
      var p := LogOfParityPosition(pos);
    }
    if p: nat :| pos == Pow2(p) {
      PowerIsParityPosition(p);
    }
  }

  lemma {:induction false} BitOfPower(q: nat, p: nat)
    ensures NatBit(Pow2(q), p) <==> p == q
    decreases p
  {
    if p > 0 {
      if q > 0 {
        BitOfPower(q - 1, p - 1);
      } else {
        NoBits(p - 1);
      }
    }
  }

  lemma {:induction false} NoBits(p: nat)
    ensures !NatBit(0, p)
  {
    if p > 0 {
      NoBits(p - 1);
    }
  }

  lemma {:induction false} BitsDetermine(a: nat, b: nat, r: nat)
    requires a < Pow2(r) && b < Pow2(r)
    requires forall p: nat :: p < r ==> NatBit(a, p) == NatBit(b, p)
    ensures a == b
    decreases r
  {
    if r > 0 {
      assert NatBit(a, 0) == NatBit(b, 0);
      forall p: nat | p < r - 1
        ensures NatBit(a / 2, p) == NatBit(b / 2, p)
      {
        assert NatBit(a, p + 1) == NatBit(b, p + 1);
      }
      BitsDetermine(a / 2, b / 2, r - 1);
    }
  }

  lemma {:induction false} HighBitsClear(a: nat, r: nat, p: nat)
    requires a < Pow2(r) && r <= p
    ensures !NatBit(a, p)
    decreases p
  {
    if r == 0 {
      NoBits(p);
    } else {
      HighBitsClear(a / 2, r - 1, p - 1);
    }
  }

  lemma {:induction false} BitAfterAdding(a: nat, q: nat, p: nat)
    requires a < Pow2(q)
    ensures NatBit(a + Pow2(q), p) == (NatBit(a, p) || p == q)
    decreases p
  {
    if q == 0 {
      BitOfPower(0, p);
      NoBits(p);
    } else if p == 0 {
      assert Pow2(q) % 2 == 0;
    } else {
      assert (a + Pow2(q)) / 2 == a / 2 + Pow2(q - 1);
      BitAfterAdding(a / 2, q - 1, p - 1);
    }
  }

  /** `a ^ b` on machine integers. */
  function NatXor(a: nat, b: nat): (c: nat)
    decreases a + b
  {
    if a == 0 && b == 0 then 0 else 2 * NatXor(a / 2, b / 2) + (if a % 2 == b % 2 then 0 else 1)
  }

  lemma {:induction false} NatXorBits(a: nat, b: nat, p: nat)
    ensures NatBit(NatXor(a, b), p) == (NatBit(a, p) != NatBit(b, p))
    decreases p
  {
    if a == 0 && b == 0 {
      NoBits(p);
    } else if p > 0 {
      NatXorBits(a / 2, b / 2, p - 1);
      assert NatXor(a, b) / 2 == NatXor(a / 2, b / 2);
    }
  }

  lemma {:induction false} NatXorBound(a: nat, b: nat, r: nat)
    requires a < Pow2(r) && b < Pow2(r)
    ensures NatXor(a, b) < Pow2(r)
    decreases r
  {
    if r > 0 {
      NatXorBound(a / 2, b / 2, r - 1);
    }
  }

  /** Below a power of two, exclusive or with it is addition. */
  lemma NatXorOfPower(a: nat, q: nat)
    requires a < Pow2(q)
    ensures NatXor(a, Pow2(q)) == a + Pow2(q)
  {
    var r := q + 1;
    NatXorBound(a, Pow2(q), r);
    forall p: nat | p < r
      ensures NatBit(NatXor(a, Pow2(q)), p) == NatBit(a + Pow2(q), p)
    {
      NatXorBits(a, Pow2(q), p);
      BitOfPower(q, p);
      BitAfterAdding(a, q, p);
      HighBitsClear(a, q, q);
    }
    BitsDetermine(NatXor(a, Pow2(q)), a + Pow2(q), r);
  }

  /** Bit `p` is digit `p` in base two. */
  lemma {:induction false} NatBitIsDigit(n: nat, p: nat)
    ensures NatBit(n, p) <==> n / Pow2(p) % 2 == 1
    decreases p
  {
    if p > 0 {
      NatBitIsDigit(n / 2, p - 1);
      DivideTwice(n, 2, Pow2(p - 1));
    }
  }

  // ------------------------------------------------------------- words as numbers

  function ToWord(n: nat): (w: Word) {
    seq(64, k requires 0 <= k < 64 => NatBit(n, k))
  }

  /** The number in the low `bits` bits of `w`. */
  function Value(w: Word, bits: nat): (n: nat)
    requires bits <= 64
  {
    if bits == 0 then 0 else Value(w, bits - 1) + (if w[bits - 1] then Pow2(bits - 1) else 0)
  }

  lemma {:induction false} ValueBits(w: Word, bits: nat)
    requires bits <= 64
    ensures Value(w, bits) < Pow2(bits)
    ensures forall p: nat :: NatBit(Value(w, bits), p) <==> p < bits && w[p]
    decreases bits
  {
    if bits == 0 {
      forall p: nat
        ensures !NatBit(0, p)
      {
        NoBits(p);
      }
    } else {
      ValueBits(w, bits - 1);
      var low := Value(w, bits - 1);
      forall p: nat
        ensures NatBit(Value(w, bits), p) <==> p < bits && w[p]
      {
        if w[bits - 1] {
          BitAfterAdding(low, bits - 1, p);
        }
      }
    }
  }

  lemma ValueOfToWord(n: nat, bits: nat)
    requires bits <= 64 && n < Pow2(bits)
    ensures Value(ToWord(n), bits) == n && Fits(ToWord(n), bits)
  {
    ValueBits(ToWord(n), bits);
    BitsDetermine(Value(ToWord(n), bits), n, bits);
    forall k | bits <= k < 64
      ensures !ToWord(n)[k]
    {
      HighBitsClear(n, bits, k);
    }
  }

  lemma ToWordOfValue(w: Word, bits: nat)
    requires bits <= 64 && Fits(w, bits)
    ensures ToWord(Value(w, bits)) == w
  {
    ValueBits(w, bits);
  }

  // ------------------------------------------------------------- code dimensions

  /** The number of parity bits for `n` data bits, as a table; `ParityBitsIsLeast` says what it is. */
  function ParityBits(n: nat): (r: nat)
    requires MIN_DATA_BITS <= n <= MAX_DATA_BITS
  {
    if n <= 4 then 3 else if n <= 11 then 4 else if n <= 26 then 5
    else if n <= 57 then 6 else if n <= 120 then 7 else 8
  }

  /** `ParityBits(n)` is the least `r` with `2^r >= n + r + 1`, and the codeword fits a u64
      exactly for at most 57 data bits. */
  lemma ParityBitsIsLeast(n: nat)
    requires MIN_DATA_BITS <= n <= MAX_DATA_BITS
    ensures Pow2(ParityBits(n)) >= n + ParityBits(n) + 1
    ensures forall s: nat :: s < ParityBits(n) ==> Pow2(s) < n + s + 1
    ensures n + ParityBits(n) <= 64 <==> n <= 57
  {
    PowersUpTo8();
    var r := ParityBits(n);
    forall s: nat | s < r
      ensures Pow2(s) < n + s + 1
    {
      if s < r - 1 {
        Pow2Monotone(s, r - 2);
      }
    }
  }

  predicate Width(n: nat) {
    MIN_DATA_BITS <= n <= 57
  }

  function Total(n: nat): (t: nat)
    requires Width(n)
    ensures n < t < 64
  {
    n + ParityBits(n)
  }

  /** How many data positions lie in `1..pos`. */
  function DataCount(pos: nat): (c: nat)
    ensures c <= pos
  {
    if pos == 0 then 0 else DataCount(pos - 1) + (if IsParityPosition(pos) then 0 else 1)
  }

  lemma {:induction false} DataCountBetweenPowers(k: nat, pos: nat)
    requires Pow2(k) <= pos < Pow2(k + 1)
    ensures DataCount(pos) + k + 1 == pos
    decreases pos
  {
    ParityPositionIsPowerOfTwo(pos);
    if pos > Pow2(k) {
      forall p: nat
        ensures pos != Pow2(p)
      {
        if p <= k {
          Pow2Monotone(p, k);
        } else {
          Pow2Monotone(k + 1, p);
        }
      }
      DataCountBetweenPowers(k, pos - 1);
    } else if k > 0 {
      DataCountBetweenPowers(k - 1, pos - 1);
    } else {
      assert pos == 1 && DataCount(0) == 0;
    }
  }

  lemma DataCountOfTotal(n: nat)
    requires Width(n)
    ensures DataCount(Total(n)) == n
  {
    ParityBitsIsLeast(n);
    DataCountBetweenPowers(ParityBits(n) - 1, Total(n));
  }

  lemma {:induction false} DataCountMonotone(a: nat, b: nat)
    requires a <= b
    ensures DataCount(a) <= DataCount(b)
    decreases b
  {
    if a < b {
      DataCountMonotone(a, b - 1);
    }
  }

  // ------------------------------------------------------------- parities and codewords

  /** Parity `p`: the exclusive or of the bits at those positions `1..total` whose bit `p` is set. */
  function Parity(w: Word, total: nat, p: nat): (b: bool)
    requires total <= 64
  {
    if total == 0 then false else Parity(w, total - 1, p) != (NatBit(total, p) && w[total - 1])
  }

  /** The set positions that parity `p` covers. */
  ghost function Covered(w: Word, total: nat, p: nat): (ks: set<nat>)
    requires total <= 64
  {
    set k: nat | k < total && NatBit(k + 1, p) && w[k]
  }

  /** A parity is set exactly when an odd number of the positions it covers are. */
  lemma {:induction false} ParityIsOddCount(w: Word, total: nat, p: nat)
    requires total <= 64
    ensures Parity(w, total, p) <==> |Covered(w, total, p)| % 2 == 1
  {
    hide NatBit;
    if total > 0 {
      ParityIsOddCount(w, total - 1, p);
      var last := total - 1;
      if NatBit(last + 1, p) && w[last] {
        assert Covered(w, total, p) == Covered(w, last, p) + {last};
      } else {
        assert Covered(w, total, p) == Covered(w, last, p);
      }
    }
  }

  ghost predicate IsCodeword(w: Word, n: nat)
    requires Width(n)
  {
    Fits(w, Total(n)) && ParitiesClear(w, n)
  }

  /** The syndrome: parity `p` is its bit `p`. */
  function Syndrome(w: Word, n: nat): (s: nat)
    requires Width(n)
  {
    Value(ParityWord(w, n), ParityBits(n))
  }

  function ParityWord(w: Word, n: nat): (v: Word)
    requires Width(n)
  {
    seq(64, p requires 0 <= p < 64 => Parity(w, Total(n), p))
  }

  /** The data bits of `w` at positions `1..pos`, in order. */
  function Gather(w: Word, pos: nat): (d: Word)
    requires pos <= 64
  {
    if pos == 0 then Zero()
    else if IsParityPosition(pos) then Gather(w, pos - 1)
    else OrBit(Gather(w, pos - 1), DataCount(pos - 1), w[pos - 1])
  }

  function DataOf(w: Word, n: nat): (d: Word)
    requires Width(n)
  {
    Gather(w, Total(n))
  }

  lemma {:induction false} ParityAgrees(w: Word, v: Word, total: nat, p: nat)
    requires total <= 64
    requires forall k :: 0 <= k < total && NatBit(k + 1, p) ==> w[k] == v[k]
    ensures Parity(w, total, p) == Parity(v, total, p)
  {
    if total > 0 {
      ParityAgrees(w, v, total - 1, p);
      assert NatBit((total - 1) + 1, p) ==> w[total - 1] == v[total - 1];
    }
  }

  /** Flipping position `k + 1` flips exactly the parities named by the bits of `k + 1`. */
  lemma {:induction false} ParityAfterFlip(w: Word, total: nat, p: nat, k: nat)
    requires k < total <= 64
    ensures Parity(FlipBit(w, k), total, p) == (Parity(w, total, p) != NatBit(k + 1, p))
  {
    if k == total - 1 {
      ParityAgrees(FlipBit(w, k), w, total - 1, p);
    } else {
      ParityAfterFlip(w, total - 1, p, k);
    }
  }

  ghost predicate ParitiesClear(w: Word, n: nat)
    requires Width(n)
  {
    forall p: nat :: p < ParityBits(n) ==> !Parity(w, Total(n), p)
  }

  lemma SyndromeBits(w: Word, n: nat)
    requires Width(n)
    ensures Syndrome(w, n) < Pow2(ParityBits(n))
    ensures forall p: nat :: p < ParityBits(n) ==> NatBit(Syndrome(w, n), p) == Parity(w, Total(n), p)
  {
    ValueBits(ParityWord(w, n), ParityBits(n));
  }

  lemma SyndromeZero(w: Word, n: nat)
    requires Width(n)
    ensures Syndrome(w, n) == 0 <==> ParitiesClear(w, n)
  {
    SyndromeBits(w, n);
    forall p: nat
      ensures !NatBit(0, p)
    {
      NoBits(p);
    }
    if ParitiesClear(w, n) {
      BitsDetermine(Syndrome(w, n), 0, ParityBits(n));
    }
  }

  /** The syndrome of a codeword with position `k + 1` flipped is `k + 1`. */
  lemma SyndromeLocatesFlip(c: Word, n: nat, k: nat)
    requires Width(n) && IsCodeword(c, n) && k < Total(n)
    ensures Syndrome(FlipBit(c, k), n) == k + 1
  {
    var w := FlipBit(c, k);
    SyndromeBits(w, n);
    ParityBitsIsLeast(n);
    forall p: nat | p < ParityBits(n)
      ensures NatBit(Syndrome(w, n), p) == NatBit(k + 1, p)
    {
      ParityAfterFlip(c, Total(n), p, k);
    }
    BitsDetermine(Syndrome(w, n), k + 1, ParityBits(n));
  }

  /** Flipping the position a syndrome names gives a codeword. */
  lemma SyndromeRepairs(w: Word, n: nat)
    requires Width(n) && Fits(w, Total(n)) && 1 <= Syndrome(w, n) <= Total(n)
    ensures IsCodeword(FlipBit(w, Syndrome(w, n) - 1), n)
  {
    var k := Syndrome(w, n) - 1;
    SyndromeBits(w, n);
    forall p: nat | p < ParityBits(n)
      ensures !Parity(FlipBit(w, k), Total(n), p)
    {
      ParityAfterFlip(w, Total(n), p, k);
    }
  }

  // ------------------------------------------------------------- data bits determine a codeword

  lemma {:induction false} GatherFits(w: Word, pos: nat)
    requires pos <= 64
    ensures Fits(Gather(w, pos), DataCount(pos))
  {
    if pos > 0 {
      GatherFits(w, pos - 1);
    }
  }

  lemma {:induction false} GatherBit(w: Word, pos: nat, q: nat)
    requires 1 <= q <= pos <= 64 && !IsParityPosition(q)
    ensures Gather(w, pos)[DataCount(q - 1)] == w[q - 1]
    decreases pos
  {
    hide IsParityPosition, DataCount, Gather;
    GatherStep(w, pos);
    if q == pos {
      GatherFits(w, pos - 1);
    } else {
      GatherBit(w, pos - 1, q);
      GatherStep(w, q);
      DataCountMonotone(q, pos - 1);
    }
  }

  /** Two codewords with the same data are the same word. */
  lemma CodewordsWithEqualData(a: Word, b: Word, n: nat)
    requires Width(n) && IsCodeword(a, n) && IsCodeword(b, n) && DataOf(a, n) == DataOf(b, n)
    ensures a == b
  {
    forall q | 1 <= q <= Total(n) && !IsParityPosition(q)
      ensures a[q - 1] == b[q - 1]
    {
      GatherBit(a, Total(n), q);
      GatherBit(b, Total(n), q);
    }
    forall k | 0 <= k < Total(n)
      ensures a[k] == b[k]
    {
      assert !IsParityPosition(k + 1) ==> a[k + 1 - 1] == b[k + 1 - 1];
      if IsParityPosition(k + 1) {
        ParityPositionIsPowerOfTwo(k + 1);
        var p: nat :| k + 1 == Pow2(p);
        ParityBitFollows(a, b, n, p);
      }
    }
  }

  lemma ParityBitFollows(a: Word, b: Word, n: nat, p: nat)
    requires Width(n) && IsCodeword(a, n) && IsCodeword(b, n) && Pow2(p) <= Total(n)
    requires forall q :: 1 <= q <= Total(n) && !IsParityPosition(q) ==> a[q - 1] == b[q - 1]
    ensures a[Pow2(p) - 1] == b[Pow2(p) - 1]
  {
    var total, k := Total(n), Pow2(p) - 1;
    ParityBitsIsLeast(n);
    if p >= ParityBits(n) {
      Pow2Monotone(ParityBits(n), p);
    }
    if a[k] != b[k] {
      BitOfPower(p, p);
      ParityAfterFlip(a, total, p, k);
      forall j | 0 <= j < total && NatBit(j + 1, p)
        ensures FlipBit(a, k)[j] == b[j]
      {
        OnlyParityPositionSeen(p, j);
      }
      hide IsParityPosition, NatBit;
      ParityAgrees(FlipBit(a, k), b, total, p);
    }
  }

  /** The one parity position that parity `p` looks at is `2^p`. */
  lemma OnlyParityPositionSeen(p: nat, j: nat)
    requires NatBit(j + 1, p)
    ensures IsParityPosition(j + 1) ==> j + 1 == Pow2(p)
  {
    if IsParityPosition(j + 1) {
      var q := LogOfParityPosition(j + 1);
      BitOfPower(q, p);
    }
  }

  // ------------------------------------------------------------- encoding

  /** Data bits spread over the non-parity positions. */
  function Spread(data: Word, total: nat): (w: Word)
    requires total <= 64
  {
    seq(64, k requires 0 <= k < 64 => k < total && !IsParityPosition(k + 1) && data[DataCount(k)])
  }

  /** Parity bits `0..p` filled in, one after the other. */
  function FillParity(w: Word, total: nat, p: nat): (v: Word)
    requires total <= 64 && p <= 6
    decreases p
  {
    if p == 0 then w else
      var v := FillParity(w, total, p - 1);
      PowersUpTo8(); Pow2Monotone(p - 1, 6);
      OrBit(v, Pow2(p - 1) - 1, Parity(v, total, p - 1))
  }

  function Encoded(data: Word, n: nat): (c: Word)
    requires Width(n)
  {
    FillParity(Spread(data, Total(n)), Total(n), ParityBits(n))
  }

  /** `v` is `w` with its first `p` parity bits filled in. */
  ghost predicate Filled(w: Word, v: Word, n: nat, p: nat)
    requires Width(n)
  {
    && Fits(v, Total(n))
    && (forall q: nat :: q < p ==> !Parity(v, Total(n), q))
    && (forall k :: 0 <= k < 64 && v[k] != w[k] ==> exists q: nat :: q < p && k + 1 == Pow2(q))
  }

  lemma FillParityStep(w: Word, total: nat, p: nat)
    requires total <= 64 && 0 < p <= 6
    ensures Pow2(p - 1) <= 64
    ensures var v := FillParity(w, total, p - 1);
            FillParity(w, total, p) == OrBit(v, Pow2(p - 1) - 1, Parity(v, total, p - 1))
  {
    hide Parity, OrBit;
    PowersUpTo8();
    Pow2Monotone(p - 1, 6);
  }

  /** No parity position is set yet. */
  predicate ParityFree(w: Word) {
    forall k :: 0 <= k < 64 && IsParityPosition(k + 1) ==> !w[k]
  }

  lemma {:induction false} FillParityEffect(w: Word, n: nat, p: nat)
    requires Width(n) && p <= ParityBits(n) && Fits(w, Total(n))
    requires ParityFree(w)
    ensures Filled(w, FillParity(w, Total(n), p), n, p)
    decreases p
  {
    if p > 0 {
      hide Filled, ParityFree, Parity, Pow2, Fits, OrBit, FillParity;
      FillParityEffect(w, n, p - 1);
      FillParityStep(w, Total(n), p);
      FillOne(w, FillParity(w, Total(n), p - 1), n, p - 1);
    }
  }

  lemma ParityPositionInRange(n: nat, p: nat)
    requires Width(n) && p < ParityBits(n)
    ensures 1 <= Pow2(p) <= Total(n)
  {
    ParityBitsIsLeast(n);
    Pow2Monotone(p, ParityBits(n) - 1);
    assert Pow2(ParityBits(n) - 1) < n + (ParityBits(n) - 1) + 1;
  }

  lemma FillOne(w: Word, v: Word, n: nat, p: nat)
    requires Width(n) && p < ParityBits(n) && Filled(w, v, n, p)
    requires ParityFree(w)
    ensures Pow2(p) <= 64 && Filled(w, OrBit(v, Pow2(p) - 1, Parity(v, Total(n), p)), n, p + 1)
  {
    ParityPositionInRange(n, p);
    var total, k := Total(n), Pow2(p) - 1;
    var x := OrBit(v, k, Parity(v, total, p));
    ParityPositionIsPowerOfTwo(Pow2(p));
    assert !v[k] by {
      assert !w[k];
      forall q: nat | q < p
        ensures k + 1 != Pow2(q)
      {
        Pow2Monotone(q + 1, p);
      }
    }
    if Parity(v, total, p) {
      assert x == FlipBit(v, k);
      forall q: nat | q < p + 1
        ensures !Parity(x, total, q)
      {
        ParityAfterFlip(v, total, q, k);
        BitOfPower(p, q);
      }
    } else {
      assert x == v;
    }
  }

  /** Encoding gives the codeword of its data. */
  lemma EncodedIsCodeword(data: Word, n: nat)
    requires Width(n) && Fits(data, n)
    ensures IsCodeword(Encoded(data, n), n)
    ensures DataOf(Encoded(data, n), n) == data
  {
    var total, w := Total(n), Spread(data, Total(n));
    FillParityEffect(w, n, ParityBits(n));
    DataCountOfTotal(n);
    FilledKeepsData(data, w, Encoded(data, n), n, ParityBits(n));
    SpreadGathers(Encoded(data, n), data, total);
    assert Masked(data, n) == data;
  }

  lemma FilledKeepsData(data: Word, w: Word, v: Word, n: nat, p: nat)
    requires Width(n) && w == Spread(data, Total(n)) && Filled(w, v, n, p)
    ensures forall k :: 0 <= k < Total(n) && !IsParityPosition(k + 1) ==> v[k] == data[DataCount(k)]
  {
    forall k | 0 <= k < Total(n) && !IsParityPosition(k + 1)
      ensures v[k] == data[DataCount(k)]
    {
      if v[k] != w[k] {
        var q: nat :| q < p && k + 1 == Pow2(q);
        PowerIsParityPosition(q);
      }
    }
  }

  lemma GatherStep(w: Word, pos: nat)
    requires 0 < pos <= 64
    ensures DataCount(pos) == DataCount(pos - 1) + (if IsParityPosition(pos) then 0 else 1)
    ensures Gather(w, pos) == if IsParityPosition(pos) then Gather(w, pos - 1) else OrBit(Gather(w, pos - 1), DataCount(pos - 1), w[pos - 1])
  {
    hide IsParityPosition;
  }

  lemma {:induction false} SpreadGathers(w: Word, data: Word, pos: nat)
    requires pos <= 64
    requires forall k :: 0 <= k < pos && !IsParityPosition(k + 1) ==> w[k] == data[DataCount(k)]
    ensures Gather(w, pos) == Masked(data, DataCount(pos))
    decreases pos
  {
    if pos > 0 {
      hide IsParityPosition, DataCount, Gather, Masked, OrBit;
      var k, c := pos - 1, DataCount(pos - 1);
      SpreadGathers(w, data, k);
      GatherStep(w, pos);
      if !IsParityPosition(k + 1) {
        assert w[k] == data[c];
        MaskedGrows(data, c);
      }
    } else {
      assert Gather(w, 0) == Masked(data, 0);
    }
  }

  lemma MaskedGrows(data: Word, c: nat)
    requires c < 64
    ensures OrBit(Masked(data, c), c, data[c]) == Masked(data, c + 1)
  {
  }

  /** Data bits lie, in order, on the positions that are no power of two. */
  lemma EncodedDataBit(data: Word, n: nat, q: nat)
    requires Width(n) && Fits(data, n) && 1 <= q <= Total(n) && !IsParityPosition(q)
    ensures Encoded(data, n)[q - 1] == data[DataCount(q - 1)]
  {
    EncodedIsCodeword(data, n);
    GatherBit(Encoded(data, n), Total(n), q);
  }

  /** Hamming(7,4) spelled out: where the four data bits go and what each parity bit is. */
  lemma EncodedNibble(data: Word)
    requires Fits(data, 4)
    ensures var c, d := Encoded(data, 4), data;
            && c[2] == d[0] && c[4] == d[1] && c[5] == d[2] && c[6] == d[3]
            && c[0] == (d[0] != (d[1] != d[3])) && c[1] == (d[0] != (d[2] != d[3])) && c[3] == (d[1] != (d[2] != d[3]))
  {
    EncodedIsCodeword(data, 4);
    var c := Encoded(data, 4);
    NibblePositions();
    EncodedDataBit(data, 4, 3);
    EncodedDataBit(data, 4, 5);
    EncodedDataBit(data, 4, 6);
    EncodedDataBit(data, 4, 7);
    assert !Parity(c, 7, 0) && !Parity(c, 7, 1) && !Parity(c, 7, 2);
    hide Encoded;
    NibbleParities(c);
  }

  lemma NibblePositions()
    ensures IsParityPosition(1) && IsParityPosition(2) && IsParityPosition(4)
    ensures !IsParityPosition(3) && !IsParityPosition(5) && !IsParityPosition(6) && !IsParityPosition(7)
    ensures DataCount(2) == 0 && DataCount(4) == 1 && DataCount(5) == 2 && DataCount(6) == 3
  {
    assert DataCount(2) == 0;
    assert DataCount(4) == 1;
  }

  lemma NibbleParities(c: Word)
    ensures Parity(c, 7, 0) == (c[0] != (c[2] != (c[4] != c[6])))
    ensures Parity(c, 7, 1) == (c[1] != (c[2] != (c[5] != c[6])))
    ensures Parity(c, 7, 2) == (c[3] != (c[4] != (c[5] != c[6])))
  {
    ParityUpTo(c, 0, true, false, true, false, true, false, true);
    ParityUpTo(c, 1, false, true, true, false, false, true, true);
    ParityUpTo(c, 2, false, false, false, true, true, true, true);
  }

  lemma ParityUpTo(c: Word, p: nat, b1: bool, b2: bool, b3: bool, b4: bool, b5: bool, b6: bool, b7: bool)
    requires NatBit(1, p) == b1 && NatBit(2, p) == b2 && NatBit(3, p) == b3 && NatBit(4, p) == b4
    requires NatBit(5, p) == b5 && NatBit(6, p) == b6 && NatBit(7, p) == b7
    ensures Parity(c, 7, p) == ((b1 && c[0]) != ((b2 && c[1]) != ((b3 && c[2]) != ((b4 && c[3]) != ((b5 && c[4]) != ((b6 && c[5]) != (b7 && c[6])))))))
  {
    hide NatBit;
    assert Parity(c, 2, p) == ((b1 && c[0]) != (b2 && c[1])) by {
      assert Parity(c, 1, p) == (b1 && c[0]) by {
        assert !Parity(c, 0, p);
      }
    }
    assert Parity(c, 4, p) == (Parity(c, 2, p) != ((b3 && c[2]) != (b4 && c[3]))) by {
      assert Parity(c, 3, p) == (Parity(c, 2, p) != (b3 && c[2]));
    }
    assert Parity(c, 6, p) == (Parity(c, 4, p) != ((b5 && c[4]) != (b6 && c[5]))) by {
      assert Parity(c, 5, p) == (Parity(c, 4, p) != (b5 && c[4]));
    }
  }

  /** Every codeword is the encoding of its own data. */
  lemma CodewordIsEncodedData(c: Word, n: nat)
    requires Width(n) && IsCodeword(c, n)
    ensures Fits(DataOf(c, n), n) && c == Encoded(DataOf(c, n), n)
  {
    DataFits(c, n);
    EncodedIsCodeword(DataOf(c, n), n);
    CodewordsWithEqualData(c, Encoded(DataOf(c, n), n), n);
  }

  // ------------------------------------------------------------- distance

  /** Equal, or different in exactly one bit. */
  predicate WithinOne(a: Word, b: Word) {
    a == b || exists k :: 0 <= k < 64 && a == FlipBit(b, k)
  }

  /** Distinct codewords differ in at least three bits: no word is within one bit of two of them. */
  lemma CodewordsAreFarApart(w: Word, a: Word, b: Word, n: nat)
    requires Width(n) && IsCodeword(a, n) && IsCodeword(b, n) && Fits(w, Total(n))
    requires WithinOne(w, a) && WithinOne(w, b)
    ensures a == b
  {
    SyndromeZero(a, n);
    SyndromeZero(b, n);
    if w != a {
      var k :| 0 <= k < 64 && w == FlipBit(a, k);
      assert w[k] == !a[k];
      SyndromeLocatesFlip(a, n, k);
    }
    if w != b {
      var l :| 0 <= l < 64 && w == FlipBit(b, l);
      assert w[l] == !b[l];
      SyndromeLocatesFlip(b, n, l);
    }
    if w != a && w != b {
      var k := Syndrome(w, n) - 1;
      assert FlipBit(FlipBit(a, k), k) == a && FlipBit(FlipBit(b, k), k) == b;
    }
  }

  // ------------------------------------------------------------- decoding

  /** The word after the correction step of the decoder. */
  function Corrected(w: Word, n: nat): (c: Word)
    requires Width(n)
  {
    var s := Syndrome(w, n);
    if 1 <= s <= Total(n) then FlipBit(w, s - 1) else w
  }

  lemma DataFits(w: Word, n: nat)
    requires Width(n)
    ensures Fits(DataOf(w, n), n)
  {
    DataCountOfTotal(n);
    GatherFits(w, Total(n));
  }

  /** What strict decoding accepts: the word, or the word with the named bit flipped, is the
      encoding of the data that the decoder extracted. */
  predicate StrictAccepts(w: Word, n: nat)
    requires Width(n)
  {
    var s := Syndrome(w, n);
    var reencoded := Encoded(DataOf(Corrected(w, n), n), n);
    reencoded == w || (1 <= s <= Total(n) && reencoded == FlipBit(w, s - 1))
  }

  /** Strict decoding accepts exactly the words within one bit of a codeword, and the data it
      returns is that codeword's. */
  lemma StrictMeaning(w: Word, n: nat)
    requires Width(n) && Fits(w, Total(n))
    ensures StrictAccepts(w, n) <==> exists c: Word :: IsCodeword(c, n) && WithinOne(w, c)
    ensures forall c: Word :: IsCodeword(c, n) && WithinOne(w, c) ==> DataOf(Corrected(w, n), n) == DataOf(c, n)
  {
    var s := Syndrome(w, n);
    forall c: Word | IsCodeword(c, n) && WithinOne(w, c)
      ensures Corrected(w, n) == c && StrictAccepts(w, n)
    {
      NearbyCodeword(w, c, n);
      CodewordIsEncodedData(c, n);
    }
    if StrictAccepts(w, n) {
      var c := Encoded(DataOf(Corrected(w, n), n), n);
      DataFits(Corrected(w, n), n);
      EncodedIsCodeword(DataOf(Corrected(w, n), n), n);
      if c != w {
        assert w == FlipBit(c, s - 1);
      }
      assert IsCodeword(c, n) && WithinOne(w, c);
    }
  }

  lemma NearbyCodeword(w: Word, c: Word, n: nat)
    requires Width(n) && Fits(w, Total(n)) && IsCodeword(c, n) && WithinOne(w, c)
    ensures Corrected(w, n) == c
    ensures c == w || (1 <= Syndrome(w, n) <= Total(n) && c == FlipBit(w, Syndrome(w, n) - 1))
  {
    SyndromeZero(c, n);
    if w != c {
      var k :| 0 <= k < 64 && w == FlipBit(c, k);
      assert w[k] == !c[k];
      SyndromeLocatesFlip(c, n, k);
      assert FlipBit(FlipBit(c, k), k) == c;
    }
  }

  /** The guard that decides: strict decoding rejects exactly the words whose syndrome names no
      position. */
  lemma StrictRejectsExactly(w: Word, n: nat)
    requires Width(n) && Fits(w, Total(n))
    ensures StrictAccepts(w, n) <==> Syndrome(w, n) <= Total(n)
  {
    SyndromeZero(w, n);
    if 1 <= Syndrome(w, n) <= Total(n) {
      SyndromeRepairs(w, n);
      CodewordIsEncodedData(Corrected(w, n), n);
    } else if Syndrome(w, n) == 0 {
      CodewordIsEncodedData(w, n);
    } else if StrictAccepts(w, n) {
      StrictMeaning(w, n);
      var c: Word :| IsCodeword(c, n) && WithinOne(w, c);
      NearbyCodeword(w, c, n);
      SyndromeZero(c, n);
    }
  }

  /** When the code is perfect (`2^r == n + r + 1`) every word is accepted; width 4 is such a one,
      so Hamming(7,4) strict decoding never rejects anything. */
  lemma PerfectCodeAcceptsAll(w: Word, n: nat)
    requires Width(n) && Fits(w, Total(n))
    ensures Pow2(ParityBits(n)) == Total(n) + 1 ==> StrictAccepts(w, n)
    ensures n == 4 ==> StrictAccepts(w, n)
  {
    PowersUpTo8();
    SyndromeBits(w, n);
    StrictRejectsExactly(w, n);
  }
}
