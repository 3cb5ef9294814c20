/** Shared vocabulary of the DFIM core engine: bytes, digests, error codes, fixed-width
    integers, and what it means for a run to expose a hash collision. */
module Basics {

  type byte = x: int | 0 <= x < 256
  type Bytes = seq<byte>

  const SHA256_LEN: nat := 32
  const DFIM_BLOCK_SIZE: nat := 4096
  const MAX_BOOT_BLOCKS: nat := 64
  const MAX_IMAGE_BYTES: nat := 262144
  const MAX_PROOF_STEPS: nat := 16
  const MAX_FEC_BACKUP: nat := 128
  const U32_LIMIT: nat := 0x1_0000_0000
  const U64_LIMIT: nat := 0x1_0000_0000_0000_0000

  /** No Rust slice or vector holds more bytes than this (isize::MAX). */
  const MAX_SLICE_BYTES: nat := 0x7FFF_FFFF_FFFF_FFFF

  type Digest = d: Bytes | |d| == 32 witness seq(32, _ => 0)
  type u32 = x: int | 0 <= x < 0x1_0000_0000
  type u64 = x: int | 0 <= x < 0x1_0000_0000_0000_0000

  /** The hash is a parameter of everything above it, so each theorem holds of every
      function from byte strings to 32-byte digests, SHA-256 included. */
  type Hash = Bytes -> Digest

  datatype DfimError =
    | InvalidParameter
    | ParameterOverflow
    | BufferTooShort
    | BufferTooLong
    | UncorrectableError
    | CorruptMetadata
    | IntegrityFailure
    | WorkCapExceeded
    | EmptyInput

  datatype Result<+T> = Ok(value: T) | Err(error: DfimError) {
    predicate IsFailure() {
      Err?
    }

    function PropagateFailure<U>(): Result<U> {
      match this
      case Err(e) => Err(e)
      case Ok(_) => Err(IntegrityFailure)
    }

    function Extract(): T
      requires Ok?
    {
      value
    }
  }

  datatype Option<+T> = None | Some(value: T)

  // ---------------------------------------------------------------- collisions

  /** Two different members of `inputs` share a digest. By the pigeonhole principle some
      collision exists for every hash; what a soundness theorem must say is that the strings
      hashed by the code itself contain one, so `inputs` is always the set of those strings. */
  ghost predicate CollisionIn(H: Hash, inputs: set<Bytes>) {
    exists x, y :: x in inputs && y in inputs && x != y && H(x) == H(y)
  }

  lemma CollisionGrows(H: Hash, small: set<Bytes>, large: set<Bytes>)
    requires small <= large
    ensures CollisionIn(H, small) ==> CollisionIn(H, large)
  {
  }

  lemma EqualOrCollision(H: Hash, x: Bytes, y: Bytes, inputs: set<Bytes>)
    requires x in inputs && y in inputs && H(x) == H(y)
    ensures x == y || CollisionIn(H, inputs)
  {
  }

  // ---------------------------------------------------------------- arithmetic

  function Min(a: int, b: int): (m: int) {
    if a <= b then a else b
  }

  function Max(a: int, b: int): (m: int) {
    if a >= b then a else b
  }

  function DivCeil(n: nat, d: nat): (q: nat)
    requires d > 0
  {
    (n + d - 1) / d
  }

  function Pow2(k: nat): (p: nat)
    ensures p >= 1
  {
    if k == 0 then 1 else 2 * Pow2(k - 1)
  }

  lemma {:induction false} Pow2Monotone(i: nat, j: nat)
    requires i <= j
    ensures Pow2(i) <= Pow2(j)
    decreases j
  {
    if i < j {
      Pow2Monotone(i, j - 1);
    }
  }

  lemma PowersUpTo8()
    ensures Pow2(0) == 1 && Pow2(1) == 2 && Pow2(2) == 4 && Pow2(3) == 8 && Pow2(4) == 16
    ensures Pow2(5) == 32 && Pow2(6) == 64 && Pow2(7) == 128 && Pow2(8) == 256
  {
    assert Pow2(2) == 4;
    assert Pow2(4) == 16;
    assert Pow2(6) == 64;
  }

  lemma SliceOfSlice<T>(s: seq<T>, a: nat, b: nat, i: nat, j: nat)
    requires i <= j && a + j <= b <= |s|
    ensures s[a..b][i..j] == s[a + i..a + j]
  {
    assert |s[a..b][i..j]| == |s[a + i..a + j]|;
    assert forall k :: 0 <= k < j - i ==> s[a..b][i..j][k] == s[a + i..a + j][k];
  }

  lemma ConcatAssociative<T>(a: seq<T>, b: seq<T>, c: seq<T>)
    ensures a + (b + c) == (a + b) + c
  {
  }

  // ------------------------------------------------- little- and big-endian words

  function Pow256(k: nat): (p: nat)
    ensures p >= 1
  {
    if k == 0 then 1 else 256 * Pow256(k - 1)
  }

  lemma Pow256Values()
    ensures Pow256(2) == 0x1_0000
    ensures Pow256(4) == U32_LIMIT
    ensures Pow256(8) == U64_LIMIT
  {
    assert Pow256(2) == 256 * 256 * Pow256(0);
    assert Pow256(4) == 256 * 256 * Pow256(2);
    assert Pow256(6) == 256 * 256 * Pow256(4);
    assert Pow256(8) == 256 * 256 * Pow256(6);
  }

  /** The low `width` bytes of `n`, least significant first; higher bytes are cut off. */
  function ToLE(n: nat, width: nat): (b: Bytes)
    ensures |b| == width
  {
    if width == 0 then [] else [n % 256] + ToLE(n / 256, width - 1)
  }

  function FromLE(b: Bytes): (n: nat) {
    if b == [] then 0 else b[0] + 256 * FromLE(b[1..])
  }

  lemma {:induction false} FromLEToLE(n: nat, width: nat)
    requires n < Pow256(width)
    ensures FromLE(ToLE(n, width)) == n
  {
    if width > 0 {
      FromLEToLE(n / 256, width - 1);
      assert ToLE(n, width)[1..] == ToLE(n / 256, width - 1);
    }
  }

  lemma {:induction false} ToLEFromLE(b: Bytes)
    ensures FromLE(b) < Pow256(|b|)
    ensures ToLE(FromLE(b), |b|) == b
  {
    if b != [] {
      var low, rest := b[0], b[1..];
      ToLEFromLE(rest);
      var n := low + 256 * FromLE(rest);
      assert FromLE(b) == n && n % 256 == low && n / 256 == FromLE(rest);
      assert ToLE(n, |b|) == [low] + ToLE(FromLE(rest), |rest|);
      hide FromLE, ToLE;
      assert b == [low] + rest;
    }
  }

  function Read32(data: Bytes, at: nat): (n: u32)
    requires at + 4 <= |data|
  {
    ToLEFromLE(data[at..at + 4]); Pow256Values();
    FromLE(data[at..at + 4])
  }

  function Read64(data: Bytes, at: nat): (n: u64)
    requires at + 8 <= |data|
  {
    ToLEFromLE(data[at..at + 8]); Pow256Values();
    FromLE(data[at..at + 8])
  }

  lemma Read32Prefix(b: Bytes, n: nat, at: nat)
    requires at + 4 <= n <= |b|
    ensures Read32(b[..n], at) == Read32(b, at)
  {
    SliceOfSlice(b, 0, n, at, at + 4);
    assert b[0..n] == b[..n];
  }

  lemma Read32Prints(data: Bytes, at: nat)
    requires at + 4 <= |data|
    ensures ToLE(Read32(data, at), 4) == data[at..at + 4]
  {
    ToLEFromLE(data[at..at + 4]);
  }

  lemma ModUnique(n: int, d: int, q: int, r: int)
    requires d > 0 && 0 <= r < d && n == q * d + r
    ensures n / d == q && n % d == r
  {
    var q', r' := n / d, n % d;
    assert n == q' * d + r' && 0 <= r' < d;
    QuotientsAgree(d, q, r, q', r');
  }

  lemma QuotientsAgree(d: int, q: int, r: int, q': int, r': int)
    requires 0 <= r < d && 0 <= r' < d && q * d + r == q' * d + r'
    ensures q == q' && r == r'
  {
    assert (q - q') * d == r' - r;
    if q > q' {
      ProductAtLeast(q - q', d);
    } else if q < q' {
      ProductAtLeast(q' - q, d);
    }
  }

  lemma {:induction false} ProductAtLeast(a: int, d: int)
    requires a >= 1 && d >= 0
    ensures a * d >= d
    decreases a
  {
    if a > 1 {
      ProductAtLeast(a - 1, d);
      assert a * d == (a - 1) * d + d;
    }
  }

  lemma DivideTwice(n: nat, d: nat, p: nat)
    requires d > 0 && p > 0
    ensures d * p > 0 && n / d / p == n / (d * p)
  {
    var q, r := n / d, n % d;
    var a, s := q / p, q % p;
    ProductAtLeast(d, p);
    RemainderFits(d, p, r, s);
    Regrouped(a, p, s, d, r);
    ModUnique(n, d * p, a, d * s + r);
  }

  lemma Regrouped(a: int, p: int, s: int, d: int, r: int)
    ensures d * (a * p + s) + r == a * (d * p) + (d * s + r)
  {
    assert d * (a * p) == a * (d * p);
  }

  lemma RemainderFits(d: int, p: int, r: int, s: int)
    requires 0 <= r < d && 0 <= s < p
    ensures 0 <= d * s + r < d * p
  {
    assert d * p == d * s + d * (p - s);
    ProductAtLeast(p - s, d);
    assert d * (p - s) == (p - s) * d;
    assert d * s >= 0;
  }

  /** Byte `i` holds digit `i` in base 256, the least significant first. */
  lemma {:induction false} ToLEDigit(n: nat, width: nat, i: nat)
    requires i < width
    ensures ToLE(n, width)[i] == n / Pow256(i) % 256
    decreases width
  {
    if i > 0 {
      ToLEDigit(n / 256, width - 1, i - 1);
      DivideTwice(n, 256, Pow256(i - 1));
      assert ToLE(n, width)[i] == ToLE(n / 256, width - 1)[i - 1];
    }
  }

  function ToBE(n: nat, width: nat): (b: Bytes)
    ensures |b| == width
  {
    if width == 0 then [] else ToBE(n / 256, width - 1) + [n % 256]
  }

  function FromBE(b: Bytes): (n: nat) {
    if b == [] then 0 else 256 * FromBE(b[..|b| - 1]) + b[|b| - 1]
  }

  lemma {:induction false} FromBEToBE(n: nat, width: nat)
    requires n < Pow256(width)
    ensures FromBE(ToBE(n, width)) == n
  {
    if width > 0 {
      FromBEToBE(n / 256, width - 1);
      assert ToBE(n, width)[..width - 1] == ToBE(n / 256, width - 1);
    }
  }

  lemma {:induction false} ToBEFromBE(b: Bytes)
    ensures FromBE(b) < Pow256(|b|)
    ensures ToBE(FromBE(b), |b|) == b
  {
    if b != [] {
      var low, rest := b[|b| - 1], b[..|b| - 1];
      ToBEFromBE(rest);
      var n := 256 * FromBE(rest) + low;
      assert FromBE(b) == n && n % 256 == low && n / 256 == FromBE(rest);
      assert ToBE(n, |b|) == ToBE(FromBE(rest), |rest|) + [low];
      hide FromBE, ToBE;
      assert b == rest + [low];
    }
  }

  /** Byte `i` holds digit `width - 1 - i` in base 256: the most significant comes first. */
  lemma {:induction false} ToBEDigit(n: nat, width: nat, i: nat)
    requires i < width
    ensures ToBE(n, width)[i] == n / Pow256(width - 1 - i) % 256
    decreases width
  {
    if i < width - 1 {
      ToBEDigit(n / 256, width - 1, i);
      DivideTwice(n, 256, Pow256(width - 2 - i));
      assert ToBE(n, width)[i] == ToBE(n / 256, width - 1)[i];
    }
  }

  // ------------------------------------------------------------- image limits

  function ValidateBlockCount(blockCount: nat): (r: Result<()>)
    ensures r.Ok? <==> 1 <= blockCount <= 64
    ensures r.Err? ==> r.error == if blockCount == 0 then InvalidParameter else ParameterOverflow
  {
    if blockCount == 0 then Err(InvalidParameter)
    else if blockCount > MAX_BOOT_BLOCKS then Err(ParameterOverflow)
    else Ok(())
  }

  /** The third test of the source can never fire once the second has passed. */
  function ValidateImageByteLen(imageLen: nat): (r: Result<()>)
    ensures r.Ok? <==> 1 <= imageLen <= 262144
    ensures r.Err? ==> r.error == if imageLen == 0 then EmptyInput else BufferTooLong
    ensures r.Ok? ==> 1 <= DivCeil(imageLen, DFIM_BLOCK_SIZE) <= MAX_BOOT_BLOCKS
  {
    if imageLen == 0 then Err(EmptyInput)
    else if imageLen > MAX_IMAGE_BYTES then Err(BufferTooLong)
    else if DivCeil(imageLen, DFIM_BLOCK_SIZE) > MAX_BOOT_BLOCKS then Err(ParameterOverflow)
    else Ok(())
  }
}
