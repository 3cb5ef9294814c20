/** SHA-256 as FIPS 180-4 defines it, on byte strings. */
module Sha256 {
  import opened Basics
  import opened Partition

  // ------------------------------------------------------------- functions, section 4.1.2

  /** Addition modulo 2^32. */
  function WrappingAdd(x: bv32, y: bv32): (z: bv32) {
    x + y
  }

  function Ch(x: bv32, y: bv32, z: bv32): (r: bv32) {
    (x & y) ^ (!x & z)
  }

  function Maj(x: bv32, y: bv32, z: bv32): (r: bv32) {
    (x & y) ^ (x & z) ^ (y & z)
  }

  function BigSigma0(x: bv32): (r: bv32) {
    x.RotateRight(2) ^ x.RotateRight(13) ^ x.RotateRight(22)
  }

  function BigSigma1(x: bv32): (r: bv32) {
    x.RotateRight(6) ^ x.RotateRight(11) ^ x.RotateRight(25)
  }

  function SmallSigma0(x: bv32): (r: bv32) {
    x.RotateRight(7) ^ x.RotateRight(18) ^ (x >> 3)
  }

  function SmallSigma1(x: bv32): (r: bv32) {
    x.RotateRight(17) ^ x.RotateRight(19) ^ (x >> 10)
  }

  // ------------------------------------------------------------- constants, sections 4.2.2 and 5.3.3

  const K: seq<bv32> :=
      [0x428a2f98, 0x71374491, 0xb5c0fbcf, 0xe9b5dba5, 0x3956c25b, 0x59f111f1, 0x923f82a4, 0xab1c5ed5]
    + [0xd807aa98, 0x12835b01, 0x243185be, 0x550c7dc3, 0x72be5d74, 0x80deb1fe, 0x9bdc06a7, 0xc19bf174]
    + [0xe49b69c1, 0xefbe4786, 0x0fc19dc6, 0x240ca1cc, 0x2de92c6f, 0x4a7484aa, 0x5cb0a9dc, 0x76f988da]
    + [0x983e5152, 0xa831c66d, 0xb00327c8, 0xbf597fc7, 0xc6e00bf3, 0xd5a79147, 0x06ca6351, 0x14292967]
    + [0x27b70a85, 0x2e1b2138, 0x4d2c6dfc, 0x53380d13, 0x650a7354, 0x766a0abb, 0x81c2c92e, 0x92722c85]
    + [0xa2bfe8a1, 0xa81a664b, 0xc24b8b70, 0xc76c51a3, 0xd192e819, 0xd6990624, 0xf40e3585, 0x106aa070]
    + [0x19a4c116, 0x1e376c08, 0x2748774c, 0x34b0bcb5, 0x391c0cb3, 0x4ed8aa4a, 0x5b9cca4f, 0x682e6ff3]
    + [0x748f82ee, 0x78a5636f, 0x84c87814, 0x8cc70208, 0x90befffa, 0xa4506ceb, 0xbef9a3f7, 0xc67178f2]

  type State = s: seq<bv32> | |s| == 8 witness [0, 0, 0, 0, 0, 0, 0, 0]

  const INITIAL: State := [
    0x6a09e667, 0xbb67ae85, 0x3c6ef372, 0xa54ff53a, 0x510e527f, 0x9b05688c, 0x1f83d9ab, 0x5be0cd19]

  lemma KLength()
    ensures |K| == 64
  {
  }

  function RoundConstant(t: nat): (k: bv32)
    requires t < 64
  {
    KLength();
    K[t]
  }

  // ------------------------------------------------------------- padding, section 5.1.1

  /** The least number of zero bytes that leaves eight bytes for the length in the last block. */
  function ZeroBytes(len: nat): (k: nat)
    ensures k < 64 && (len + 1 + k) % 64 == 56
  {
    (119 - len % 64) % 64
  }

  function Pad(message: Bytes): (b: Bytes)
    ensures |b| == |message| + 1 + ZeroBytes(|message|) + 8
  {
    message + [0x80] + Zeros(ZeroBytes(|message|)) + ToBE(8 * |message|, 8)
  }

  /** The padded message is a whole number of blocks, and no shorter padding would be. */
  lemma PadIsMinimal(message: Bytes, k: nat)
    requires (|message| + 1 + k + 8) % 64 == 0
    ensures |Pad(message)| % 64 == 0 && |Pad(message)| <= |message| + 1 + k + 8
  {
    hide Pad;
    ZeroBytesMinimal(|message|, k);
  }

  /** The bytes of the padded message: the message, the mark, zeros, and the length. */
  lemma PadBytes(message: Bytes, j: nat)
    requires j < |Pad(message)| - 8
    ensures Pad(message)[j] == if j < |message| then message[j] else if j == |message| then 0x80 else 0
  {
    hide ToBE, ZeroBytes;
  }

  /** Below 2^61 bytes the last eight bytes hold the exact length in bits. */
  lemma PadHoldsLength(message: Bytes)
    requires |message| < 0x2000_0000_0000_0000
    ensures var padded := Pad(message);
            FromBE(padded[|padded| - 8..]) == 8 * |message|
  {
    Pow256Values();
    FromBEToBE(8 * |message|, 8);
    hide ToBE, Zeros, ZeroBytes;
    var padded := Pad(message);
    assert padded[|padded| - 8..] == ToBE(8 * |message|, 8);
  }

  lemma ZeroBytesMinimal(len: nat, k: nat)
    requires (len + 1 + k + 8) % 64 == 0
    ensures ZeroBytes(len) <= k
  {
    var q, r := len / 64, len % 64;
    assert len == 64 * q + r;
    assert (r + k + 9) % 64 == 0;
  }

  // ------------------------------------------------------------- computation, section 6.2.2

  function BigEndian(b0: byte, b1: byte, b2: byte, b3: byte): (w: bv32) {
    (b0 as bv8 as bv32 << 24) | (b1 as bv8 as bv32 << 16) | (b2 as bv8 as bv32 << 8) | (b3 as bv8 as bv32)
  }

  function WordAt(block: Bytes, i: nat): (w: bv32)
    requires 4 * i + 4 <= |block|
  {
    BigEndian(block[4 * i], block[4 * i + 1], block[4 * i + 2], block[4 * i + 3])
  }

  function ScheduleWord(w2: bv32, w7: bv32, w15: bv32, w16: bv32): (w: bv32) {
    WrappingAdd(WrappingAdd(WrappingAdd(SmallSigma1(w2), w7), SmallSigma0(w15)), w16)
  }

  /** Word `t` of the message schedule. */
  function Schedule(block: Bytes, t: nat): (w: bv32)
    requires |block| == 64
  {
    if t < 16 then WordAt(block, t)
    else ScheduleWord(Schedule(block, t - 2), Schedule(block, t - 7), Schedule(block, t - 15), Schedule(block, t - 16))
  }

  datatype Vars = Vars(a: bv32, b: bv32, c: bv32, d: bv32, e: bv32, f: bv32, g: bv32, h: bv32)

  function Round(v: Vars, k: bv32, w: bv32): (u: Vars) {
    var t1 := WrappingAdd(WrappingAdd(WrappingAdd(WrappingAdd(v.h, BigSigma1(v.e)), Ch(v.e, v.f, v.g)), k), w);
    var t2 := WrappingAdd(BigSigma0(v.a), Maj(v.a, v.b, v.c));
    Vars(WrappingAdd(t1, t2), v.a, v.b, v.c, WrappingAdd(v.d, t1), v.e, v.f, v.g)
  }

  function Load(s: State): (v: Vars) {
    Vars(s[0], s[1], s[2], s[3], s[4], s[5], s[6], s[7])
  }

  function Rounds(s: State, block: Bytes, t: nat): (v: Vars)
    requires |block| == 64 && t <= 64
  {
    if t == 0 then Load(s) else Round(Rounds(s, block, t - 1), RoundConstant(t - 1), Schedule(block, t - 1))
  }

  function AddVars(s: State, v: Vars): (u: State) {
    [WrappingAdd(s[0], v.a), WrappingAdd(s[1], v.b), WrappingAdd(s[2], v.c), WrappingAdd(s[3], v.d),
     WrappingAdd(s[4], v.e), WrappingAdd(s[5], v.f), WrappingAdd(s[6], v.g), WrappingAdd(s[7], v.h)]
  }

  function Compress(s: State, block: Bytes): (u: State)
    requires |block| == 64
  {
    AddVars(s, Rounds(s, block, 64))
  }

  /** The state after the first `n` blocks. */
  function Absorb(b: Bytes, n: nat): (s: State)
    requires 64 * n <= |b|
    decreases n
  {
    if n == 0 then INITIAL else Compress(Absorb(b, n - 1), b[64 * (n - 1)..64 * n])
  }

  function WordBytes(w: bv32): (b: Bytes)
    ensures |b| == 4
  {
    [((w >> 24) & 0xff) as bv8 as byte, ((w >> 16) & 0xff) as bv8 as byte, ((w >> 8) & 0xff) as bv8 as byte, (w & 0xff) as bv8 as byte]
  }

  lemma ByteRoundTrip(y: bv8)
    ensures (y as byte) as bv8 == y
  {
  }

  lemma WordPieces(w: bv32)
    ensures (((w >> 24) & 0xff) as bv8 as bv32 << 24) | (((w >> 16) & 0xff) as bv8 as bv32 << 16)
            | (((w >> 8) & 0xff) as bv8 as bv32 << 8) | ((w & 0xff) as bv8 as bv32) == w
  {
  }

  /** A word written as bytes is the word read from them. */
  lemma WordRoundTrip(w: bv32)
    ensures var b := WordBytes(w);
            BigEndian(b[0], b[1], b[2], b[3]) == w
  {
    ByteRoundTrip(((w >> 24) & 0xff) as bv8);
    ByteRoundTrip(((w >> 16) & 0xff) as bv8);
    ByteRoundTrip(((w >> 8) & 0xff) as bv8);
    ByteRoundTrip((w & 0xff) as bv8);
    WordPieces(w);
  }

  /** The first `n` words of the state, big-endian, end to end. */
  function FrontBytes(s: State, n: nat): (b: Bytes)
    requires n <= 8
    ensures |b| == 4 * n
  {
    if n == 0 then [] else FrontBytes(s, n - 1) + WordBytes(s[n - 1])
  }

  /** Reading the bytes as words gives the state back, so no two states share a digest. */
  lemma {:induction false} FrontRoundTrip(s: State, n: nat, i: nat)
    requires i < n <= 8
    ensures WordAt(FrontBytes(s, n), i) == s[i]
    decreases n
  {
    hide BigEndian, WordBytes;
    if i == n - 1 {
      WordRoundTrip(s[i]);
    } else {
      FrontRoundTrip(s, n - 1, i);
    }
  }

  function StateBytes(s: State): (d: Digest) {
    FrontBytes(s, 8)
  }

  function Digest256(message: Bytes): (d: Digest) {
    var padded := Pad(message);
    StateBytes(Absorb(padded, |padded| / 64))
  }

  // ------------------------------------------------------------- lemmas about absorbing

  lemma {:induction false} AbsorbPrefix(a: Bytes, b: Bytes, n: nat)
    requires 64 * n <= |a| && 64 * n <= |b| && a[..64 * n] == b[..64 * n]
    ensures Absorb(a, n) == Absorb(b, n)
    decreases n
  {
    hide Compress;
    if n > 0 {
      var m := 64 * (n - 1);
      SliceOfSlice(a, 0, 64 * n, 0, m);
      SliceOfSlice(b, 0, 64 * n, 0, m);
      AbsorbPrefix(a, b, n - 1);
      SliceOfSlice(a, 0, 64 * n, m, 64 * n);
      SliceOfSlice(b, 0, 64 * n, m, 64 * n);
    }
  }

  lemma AbsorbStep(b: Bytes, n: nat)
    requires 64 * (n + 1) <= |b|
    ensures Absorb(b, n + 1) == Compress(Absorb(b, n), b[64 * n..64 * (n + 1)])
  {
    hide Compress;
  }

  lemma Regroup<T>(a: seq<T>, b: seq<T>, c: seq<T>, d: seq<T>, e: seq<T>)
    ensures (a + b) + c + d + e == a + (b + c + d + e)
  {
  }

  /** The padded message after its first `n` full blocks. */
  lemma PadSplit(message: Bytes, n: nat)
    requires 64 * n <= |message|
    ensures Pad(message)[..64 * n] == message[..64 * n]
    ensures Pad(message)[64 * n..] == message[64 * n..] + [0x80] + Zeros(ZeroBytes(|message|)) + ToBE(8 * |message|, 8)
  {
    hide ToBE, Zeros, ZeroBytes;
    var a, b := message[..64 * n], message[64 * n..];
    assert message == a + b;
    Regroup(a, b, [0x80 as byte], Zeros(ZeroBytes(|message|)), ToBE(8 * |message|, 8));
    assert Pad(message) == a + (b + [0x80] + Zeros(ZeroBytes(|message|)) + ToBE(8 * |message|, 8));
  }

  lemma ZeroBytesValue(len: nat, n: nat)
    requires 64 * n <= len < 64 * n + 64
    ensures ZeroBytes(len) == if len - 64 * n < 56 then 55 - (len - 64 * n) else 119 - (len - 64 * n)
  {
    assert len % 64 == len - 64 * n;
  }

  /** The last block of the padded message when at most 55 bytes are left. */
  lemma PadShort(message: Bytes, n: nat)
    requires 64 * n <= |message| < 64 * n + 56
    ensures var padded := Pad(message);
            && |padded| == 64 * (n + 1) && padded[..64 * n] == message[..64 * n]
            && padded[64 * n..64 * (n + 1)] == message[64 * n..] + [0x80] + Zeros(55 - (|message| - 64 * n)) + ToBE(8 * |message|, 8)
  {
    ZeroBytesValue(|message|, n);
    hide ToBE, Zeros, ZeroBytes, Pad;
    PadSplit(message, n);
    assert Pad(message)[64 * n..64 * (n + 1)] == Pad(message)[64 * n..];
  }

  /** Otherwise the length spills into a block of its own. */
  lemma PadLong(message: Bytes, n: nat)
    requires 64 * n + 56 <= |message| < 64 * n + 64
    ensures var padded := Pad(message);
            && |padded| == 64 * (n + 2) && padded[..64 * n] == message[..64 * n]
            && padded[64 * n..64 * (n + 1)] == message[64 * n..] + [0x80] + Zeros(63 - (|message| - 64 * n))
            && padded[64 * (n + 1)..64 * (n + 2)] == Zeros(56) + ToBE(8 * |message|, 8)
  {
    var rem := |message| - 64 * n;
    ZeroBytesValue(|message|, n);
    assert Zeros(119 - rem) == Zeros(63 - rem) + Zeros(56);
    hide ToBE, Zeros, ZeroBytes, Pad;
    PadSplit(message, n);
    var tail := Pad(message)[64 * n..];
    assert tail == (message[64 * n..] + [0x80] + Zeros(63 - rem)) + (Zeros(56) + ToBE(8 * |message|, 8));
    assert tail[..64] == Pad(message)[64 * n..64 * (n + 1)];
    assert tail[64..] == Pad(message)[64 * (n + 1)..64 * (n + 2)];
  }
}
