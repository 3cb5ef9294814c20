/** The kernel's SHA-256, which reuses one workspace for every call. */
module BpfSha256 {
  import opened Basics
  import opened Partition
  import opened Sha256

  class Sha256Workspace {
    const state: array<bv32>
    const w: array<bv32>
    const block: array<byte>
    const merge: array<byte>

    ghost predicate Valid()
      reads this
    {
      && state.Length == 8 && w.Length == 64 && block.Length == 64 && merge.Length == 64
      && state != w && block != merge
      && state as object != block && state as object != merge && w as object != block && w as object != merge
    }

    ghost function Repr(): (r: set<object>)
      reads this
    {
      {state as object, w as object, block as object, merge as object}
    }

    constructor ()
      ensures Valid() && fresh(Repr())
    {
      state := new bv32[8](i requires 0 <= i < 8 => INITIAL[i]);
      w := new bv32[64](_ => 0);
      block := new byte[64](_ => 0);
      merge := new byte[64](_ => 0);
    }
  }

  /** The first sixteen words of the schedule: the block itself. */
  method LoadWords(w: array<bv32>, block: array<byte>)
    requires w.Length == 64 && block.Length == 64 && w as object != block
    modifies w
    ensures forall t :: 0 <= t < 16 ==> w[t] == Schedule(block[..], t)
  {
    hide BigEndian, ScheduleWord;
    ghost var b := block[..];
    for i := 0 to 16
      invariant block[..] == b
      invariant forall t :: 0 <= t < i ==> w[t] == Schedule(b, t)
    {
      w[i] := BigEndian(block[4 * i], block[4 * i + 1], block[4 * i + 2], block[4 * i + 3]);
      assert w[i] == Schedule(b, i);
    }
  }

  /** The message schedule, written over whatever `w` held. */
  method FillSchedule(w: array<bv32>, block: array<byte>)
    requires w.Length == 64 && block.Length == 64 && w as object != block
    modifies w
    ensures forall t :: 0 <= t < 64 ==> w[t] == Schedule(block[..], t)
  {
    hide WrappingAdd, SmallSigma0, SmallSigma1, WordAt;
    ghost var b := block[..];
    LoadWords(w, block);
    for i := 16 to 64
      invariant block[..] == b
      invariant forall t :: 0 <= t < i ==> w[t] == Schedule(b, t)
    {
      w[i] := WrappingAdd(WrappingAdd(WrappingAdd(SmallSigma1(w[i - 2]), w[i - 7]), SmallSigma0(w[i - 15])), w[i - 16]);
      assert w[i] == Schedule(b, i);
    }
  }

  method RunRounds(state: array<bv32>, w: array<bv32>, ghost block: Bytes) returns (v: Vars)
    requires state.Length == 8 && w.Length == 64 && |block| == 64
    requires forall t :: 0 <= t < 64 ==> w[t] == Schedule(block, t)
    ensures v == Rounds(state[..], block, 64)
  {
    hide WrappingAdd, BigSigma0, BigSigma1, Ch, Maj, Schedule, RoundConstant;
    var a, b, c, d, e, f, g, h := state[0], state[1], state[2], state[3], state[4], state[5], state[6], state[7];
    for i := 0 to 64
      invariant Vars(a, b, c, d, e, f, g, h) == Rounds(state[..], block, i)
    {
      var t1 := WrappingAdd(WrappingAdd(WrappingAdd(WrappingAdd(h, BigSigma1(e)), Ch(e, f, g)), RoundConstant(i)), w[i]);
      var t2 := WrappingAdd(BigSigma0(a), Maj(a, b, c));
      h := g;
      g := f;
      f := e;
      e := WrappingAdd(d, t1);
      d := c;
      c := b;
      b := a;
      a := WrappingAdd(t1, t2);
    }
    return Vars(a, b, c, d, e, f, g, h);
  }

  method AddFour(state: array<bv32>, at: nat, x: bv32, y: bv32, z: bv32, u: bv32)
    requires at + 4 <= state.Length
    modifies state
    ensures state[at] == WrappingAdd(old(state[at]), x) && state[at + 1] == WrappingAdd(old(state[at + 1]), y)
    ensures state[at + 2] == WrappingAdd(old(state[at + 2]), z) && state[at + 3] == WrappingAdd(old(state[at + 3]), u)
    ensures forall i :: 0 <= i < state.Length && !(at <= i < at + 4) ==> state[i] == old(state[i])
  {
    hide WrappingAdd;
    state[at] := WrappingAdd(state[at], x);
    state[at + 1] := WrappingAdd(state[at + 1], y);
    state[at + 2] := WrappingAdd(state[at + 2], z);
    state[at + 3] := WrappingAdd(state[at + 3], u);
  }

  method AddInto(state: array<bv32>, v: Vars)
    requires state.Length == 8
    modifies state
    ensures state[..] == AddVars(old(state[..]), v)
  {
    hide WrappingAdd;
    AddFour(state, 0, v.a, v.b, v.c, v.d);
    AddFour(state, 4, v.e, v.f, v.g, v.h);
  }

  /** `compress_block_raw`: one compression, in place. */
  method CompressBlockRaw(state: array<bv32>, w: array<bv32>, block: array<byte>)
    requires state.Length == 8 && w.Length == 64 && block.Length == 64 && state != w
    requires state as object != block && w as object != block
    modifies state, w
    ensures state[..] == Compress(old(state[..]), block[..])
  {
    hide Schedule, Rounds, AddVars;
    ghost var b := block[..];
    FillSchedule(w, block);
    assert state[..] == old(state[..]) && block[..] == b;
    var v := RunRounds(state, w, b);
    AddInto(state, v);
  }

  method ResetSha256(ws: Sha256Workspace)
    requires ws.Valid()
    modifies ws.state, ws.w
    ensures ws.state[..] == INITIAL
  {
    forall i | 0 <= i < 8 {
      ws.state[i] := INITIAL[i];
    }
    forall i | 0 <= i < 64 {
      ws.w[i] := 0;
    }
  }

  method CopyInto(target: array<byte>, at: nat, source: Bytes)
    requires at + |source| <= target.Length
    modifies target
    ensures target[..] == old(target[..])[..at] + source + old(target[..])[at + |source|..]
  {
    forall i | 0 <= i < |source| {
      target[at + i] := source[i];
    }
  }

  /** `state_to_digest`: the word loop; read as big-endian words the digest is the state again. */
  method StateToDigest(state: array<bv32>) returns (d: Digest)
    requires state.Length == 8
    ensures d == StateBytes(state[..])
    ensures forall i :: 0 <= i < 8 ==> WordAt(d, i) == state[i]
  {
    hide WordBytes, WordAt;
    var out := new byte[32](_ => 0);
    for i := 0 to 8
      invariant out[..4 * i] == FrontBytes(state[..], i)
    {
      CopyInto(out, 4 * i, WordBytes(state[i]));
      assert out[..4 * (i + 1)] == FrontBytes(state[..], i) + WordBytes(state[i]);
    }
    d := out[..];
    assert out[..32] == d;
    forall i | 0 <= i < 8
      ensures WordAt(d, i) == state[i]
    {
      FrontRoundTrip(state[..], 8, i);
    }
  }

  method FillZero(target: array<byte>)
    modifies target
    ensures target[..] == Zeros(target.Length)
  {
    forall i | 0 <= i < target.Length {
      target[i] := 0;
    }
  }

  /** Compressing the block that comes next. */
  method AbsorbNext(ws: Sha256Workspace, ghost padded: Bytes, ghost n: nat)
    requires ws.Valid() && 64 * (n + 1) <= |padded|
    requires ws.state[..] == Absorb(padded, n) && ws.block[..] == padded[64 * n..64 * (n + 1)]
    modifies ws.state, ws.w
    ensures ws.state[..] == Absorb(padded, n + 1)
  {
    hide Absorb, Compress;
    AbsorbStep(padded, n);
    CompressBlockRaw(ws.state, ws.w, ws.block);
  }

  method LoadBlock(ws: Sha256Workspace, b: Bytes)
    requires ws.Valid() && |b| == 64
    modifies ws.block
    ensures ws.block[..] == b
  {
    CopyInto(ws.block, 0, b);
  }

  /** The full blocks of the message. */
  method AbsorbFull(data: Bytes, ws: Sha256Workspace) returns (offset: nat, ghost n: nat)
    requires ws.Valid() && ws.state[..] == INITIAL
    modifies ws.Repr()
    ensures offset == 64 * n <= |data| < offset + 64
    ensures ws.state[..] == Absorb(data, n)
  {
    offset, n := 0, 0;
    assert Absorb(data, 0) == INITIAL;
    hide Absorb;
    while offset + 64 <= |data|
      invariant offset == 64 * n <= |data|
      invariant ws.state[..] == Absorb(data, n)
    {
      LoadBlock(ws, data[offset..offset + 64]);
      AbsorbNext(ws, data, n);
      offset, n := offset + 64, n + 1;
    }
  }

  /** What is left of the message, the 0x80 mark, and zeros. */
  method LoadTail(ws: Sha256Workspace, tail: Bytes)
    requires ws.Valid() && |tail| < 64
    modifies ws.block
    ensures ws.block[..] == tail + [0x80] + Zeros(63 - |tail|)
  {
    FillZero(ws.block);
    CopyInto(ws.block, 0, tail);
    ws.block[|tail|] := 0x80;
  }

  method WriteLength(ws: Sha256Workspace, bitLength: nat, ghost front: Bytes)
    requires ws.Valid() && |front| <= 56 && ws.block[..] == front + Zeros(64 - |front|)
    modifies ws.block
    ensures ws.block[..] == front + Zeros(56 - |front|) + ToBE(bitLength, 8)
  {
    hide ToBE;
    CopyInto(ws.block, 56, ToBE(bitLength, 8));
  }

  /** The tail of the message when the length still fits its block. */
  method AbsorbShortTail(data: Bytes, offset: nat, ghost n: nat, ws: Sha256Workspace)
    requires ws.Valid() && offset == 64 * n <= |data| < offset + 56
    requires ws.state[..] == Absorb(data, n) && ws.block[..] == data[offset..] + [0x80] + Zeros(63 - (|data| - offset))
    modifies ws.Repr()
    ensures |Pad(data)| / 64 == n + 1 && ws.state[..] == Absorb(Pad(data), n + 1)
  {
    hide Absorb, Pad, ToBE, Zeros;
    PadShort(data, n);
    AbsorbPrefix(data, Pad(data), n);
    WriteLength(ws, 8 * |data|, data[offset..] + [0x80]);
    AbsorbNext(ws, Pad(data), n);
  }

  /** The tail of the message when the length needs a block of its own. */
  method AbsorbLongTail(data: Bytes, offset: nat, ghost n: nat, ws: Sha256Workspace)
    requires ws.Valid() && 64 * n == offset && offset + 56 <= |data| < offset + 64
    requires ws.state[..] == Absorb(data, n) && ws.block[..] == data[offset..] + [0x80] + Zeros(63 - (|data| - offset))
    modifies ws.Repr()
    ensures |Pad(data)| / 64 == n + 2 && ws.state[..] == Absorb(Pad(data), n + 2)
  {
    hide Absorb, Pad, ToBE, Zeros;
    PadLong(data, n);
    AbsorbPrefix(data, Pad(data), n);
    AbsorbNext(ws, Pad(data), n);
    FillZero(ws.block);
    assert [] + Zeros(64) == Zeros(64) && [] + Zeros(56) == Zeros(56);
    WriteLength(ws, 8 * |data|, []);
    AbsorbNext(ws, Pad(data), n + 1);
  }

  /** `sha256_digest`: the FIPS digest of the message, whatever the workspace held before. */
  method Sha256Digest(data: Bytes, ws: Sha256Workspace) returns (d: Digest)
    requires ws.Valid()
    modifies ws.Repr()
    ensures d == Digest256(data)
  {
    hide Absorb, Pad, StateBytes, Zeros;
    ResetSha256(ws);
    var offset, n := AbsorbFull(data, ws);
    LoadTail(ws, data[offset..]);
    if |data| - offset >= 56 {
      AbsorbLongTail(data, offset, n, ws);
    } else {
      AbsorbShortTail(data, offset, n, ws);
    }
    d := StateToDigest(ws.state);
  }

  /** `parent_hash`: the digest of the two children laid end to end. */
  method ParentHashBpf(left: Digest, right: Digest, ws: Sha256Workspace) returns (d: Digest)
    requires ws.Valid()
    modifies ws.Repr()
    ensures d == Digest256(left + right)
  {
    ghost var data := left + right;
    ghost var padded := Pad(data);
    hide Compress, Pad, ToBE, StateBytes;
    PadShort(data, 1);
    CopyInto(ws.merge, 0, left);
    CopyInto(ws.merge, 32, right);
    assert ws.merge[..] == data;
    ResetSha256(ws);
    CompressBlockRaw(ws.state, ws.w, ws.merge);
    assert padded[64 * 0..64 * 1] == data;
    assert ws.state[..] == Absorb(padded, 1);
    FillZero(ws.block);
    ws.block[0] := 0x80;
    CopyInto(ws.block, 56, ToBE(512, 8));
    assert ws.block[..] == data[64..] + [0x80] + Zeros(55) + ToBE(512, 8);
    CompressBlockRaw(ws.state, ws.w, ws.block);
    assert ws.state[..] == Absorb(padded, 2);
    d := StateToDigest(ws.state);
  }
}
