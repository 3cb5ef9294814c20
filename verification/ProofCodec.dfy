/** The list of Merkle proofs at the end of both sidecar formats: one count byte per proof, then
    its sibling digests. */
module ProofCodec {
  import opened Basics
  import opened Merkle

  // ------------------------------------------------------------- digests laid end to end

  function Flatten(steps: seq<Digest>): (b: Bytes)
    ensures |b| == 32 * |steps|
  {
    seq(32 * |steps|, i requires 0 <= i < 32 * |steps| => steps[i / 32][i % 32])
  }

  function Chunk(b: Bytes, k: nat): (steps: seq<Digest>)
    requires |b| == 32 * k
    ensures |steps| == k
  {
    seq(k, i requires 0 <= i < k => b[32 * i..32 * i + 32])
  }

  lemma FlattenAt(steps: seq<Digest>, i: nat)
    requires i < |steps|
    ensures Flatten(steps)[32 * i..32 * i + 32] == steps[i]
  {
    forall j | 0 <= j < 32
      ensures Flatten(steps)[32 * i..32 * i + 32][j] == steps[i][j]
    {
      assert (32 * i + j) / 32 == i && (32 * i + j) % 32 == j;
    }
  }

  lemma ChunkFlatten(steps: seq<Digest>)
    ensures Chunk(Flatten(steps), |steps|) == steps
  {
    forall i | 0 <= i < |steps|
      ensures Chunk(Flatten(steps), |steps|)[i] == steps[i]
    {
      FlattenAt(steps, i);
    }
  }

  lemma FlattenChunk(b: Bytes, k: nat)
    requires |b| == 32 * k
    ensures Flatten(Chunk(b, k)) == b
  {
    forall i | 0 <= i < |b|
      ensures Flatten(Chunk(b, k))[i] == b[i]
    {
      assert 32 * (i / 32) + i % 32 == i;
    }
  }

  lemma FlattenAppend(steps: seq<Digest>, i: nat)
    requires i < |steps|
    ensures Flatten(steps[..i + 1]) == Flatten(steps[..i]) + steps[i]
  {
    var all := Flatten(steps[..i + 1]);
    FlattenAt(steps[..i + 1], i);
    assert all[..32 * i] == Flatten(steps[..i]);
    assert all == all[..32 * i] + all[32 * i..32 * i + 32];
  }

  // ------------------------------------------------------------- printing

  function PrintProof(p: MerkleProof): (b: Bytes)
    requires |p.steps| <= MAX_PROOF_STEPS
  {
    [|p.steps|] + Flatten(p.steps)
  }

  predicate Short(ps: seq<MerkleProof>) {
    forall i :: 0 <= i < |ps| ==> |ps[i].steps| <= MAX_PROOF_STEPS
  }

  function PrintProofs(ps: seq<MerkleProof>): (b: Bytes)
    requires Short(ps)
  {
    if ps == [] then [] else PrintProof(ps[0]) + PrintProofs(ps[1..])
  }

  lemma {:induction false} PrintProofsAppend(ps: seq<MerkleProof>, p: MerkleProof)
    requires Short(ps) && |p.steps| <= MAX_PROOF_STEPS
    ensures Short(ps + [p]) && PrintProofs(ps + [p]) == PrintProofs(ps) + PrintProof(p)
  {
    if ps == [] {
      assert PrintProofs([p]) == PrintProof(p) + PrintProofs([]);
    } else {
      PrintProofsAppend(ps[1..], p);
      assert (ps + [p])[1..] == ps[1..] + [p];
    }
  }

  lemma {:induction false} PrintProofsLength(ps: seq<MerkleProof>)
    requires Short(ps)
    ensures |PrintProofs(ps)| <= 513 * |ps|
  {
    if ps != [] {
      PrintProofsLength(ps[1..]);
    }
  }

  // ------------------------------------------------------------- parsing

  function ParseProof(rest: Bytes): (r: Result<(MerkleProof, Bytes)>) {
    if rest == [] then Err(BufferTooShort)
    else
      var k: nat := rest[0];
      if k > MAX_PROOF_STEPS then Err(InvalidParameter)
      else if |rest| < 1 + 32 * k then Err(BufferTooShort)
      else Ok((MerkleProof(Chunk(rest[1..1 + 32 * k], k)), rest[1 + 32 * k..]))
  }

  function ParseProofs(rest: Bytes, count: nat): (r: Result<(seq<MerkleProof>, Bytes)>) {
    if count == 0 then Ok(([], rest))
    else
      var one :- ParseProof(rest);
      var more :- ParseProofs(one.1, count - 1);
      Ok(([one.0] + more.0, more.1))
  }

  /** What the loop has already read, in front of what it is still to read. */
  function Prepend(done: seq<MerkleProof>, r: Result<(seq<MerkleProof>, Bytes)>): (s: Result<(seq<MerkleProof>, Bytes)>) {
    match r
    case Err(e) => Err(e)
    case Ok((ps, rest)) => Ok((done + ps, rest))
  }

  lemma PrependNothing(r: Result<(seq<MerkleProof>, Bytes)>)
    ensures Prepend([], r) == r
  {
    if r.Ok? {
      assert [] + r.value.0 == r.value.0;
    }
  }

  lemma ParsePrintedProof(p: MerkleProof, tail: Bytes)
    requires |p.steps| <= MAX_PROOF_STEPS
    ensures ParseProof(PrintProof(p) + tail) == Ok((p, tail))
  {
    var rest := PrintProof(p) + tail;
    var k := |p.steps|;
    assert rest[0] == k;
    assert rest[1..1 + 32 * k] == Flatten(p.steps);
    assert rest[1 + 32 * k..] == tail;
    ChunkFlatten(p.steps);
  }

  lemma PrintParsedProof(rest: Bytes)
    requires ParseProof(rest).Ok?
    ensures |ParseProof(rest).value.0.steps| <= MAX_PROOF_STEPS
    ensures rest == PrintProof(ParseProof(rest).value.0) + ParseProof(rest).value.1
  {
    var k: nat := rest[0];
    FlattenChunk(rest[1..1 + 32 * k], k);
    assert rest == [k] + rest[1..1 + 32 * k] + rest[1 + 32 * k..];
  }

  /** A printed proof: one count byte, then the digests in order. */
  lemma PrintedProofBytes(p: MerkleProof, i: nat)
    requires |p.steps| <= 16 && i < |p.steps|
    ensures |PrintProof(p)| == 1 + 32 * |p.steps| && PrintProof(p)[0] == |p.steps|
    ensures PrintProof(p)[1 + 32 * i..1 + 32 * i + 32] == p.steps[i]
  {
    FlattenAt(p.steps, i);
    hide Flatten;
    SliceOfSlice(PrintProof(p), 1, |PrintProof(p)|, 32 * i, 32 * i + 32);
    assert PrintProof(p)[1..|PrintProof(p)|] == Flatten(p.steps);
  }

  /** Which proof is refused for which reason. */
  lemma ProofErrors(rest: Bytes)
    ensures |rest| == 0 ==> ParseProof(rest) == Err(BufferTooShort)
    ensures |rest| > 0 && rest[0] > 16 ==> ParseProof(rest) == Err(InvalidParameter)
    ensures |rest| > 0 && rest[0] <= 16 && |rest| < 1 + 32 * rest[0] as int ==> ParseProof(rest) == Err(BufferTooShort)
    ensures |rest| > 0 && rest[0] <= 16 && |rest| >= 1 + 32 * rest[0] as int ==> ParseProof(rest).Ok?
  {
    hide Chunk;
  }

  /** Printed proofs parse back, leaving exactly what follows them. */
  lemma {:induction false} ParsePrintedProofs(ps: seq<MerkleProof>, tail: Bytes)
    requires Short(ps)
    ensures ParseProofs(PrintProofs(ps) + tail, |ps|) == Ok((ps, tail))
  {
    if ps == [] {
      assert PrintProofs(ps) + tail == tail;
    } else {
      hide PrintProof, ParseProof;
      ParsePrintedProof(ps[0], PrintProofs(ps[1..]) + tail);
      ConcatAssociative(PrintProof(ps[0]), PrintProofs(ps[1..]), tail);
      ParsePrintedProofs(ps[1..], tail);
      assert [ps[0]] + ps[1..] == ps;
    }
  }

  /** Whatever parses is the print of its result followed by what was left over. */
  lemma {:induction false} PrintParsedProofs(rest: Bytes, count: nat)
    requires ParseProofs(rest, count).Ok?
    ensures var (ps, tail) := ParseProofs(rest, count).value;
            |ps| == count && Short(ps) && rest == PrintProofs(ps) + tail
    decreases count
  {
    if count > 0 {
      hide ParseProof, PrintProof;
      PrintParsedProof(rest);
      var one := ParseProof(rest).value;
      PrintParsedProofs(one.1, count - 1);
      var (more, tail) := ParseProofs(one.1, count - 1).value;
      var ps := [one.0] + more;
      assert ps[1..] == more;
      assert PrintProofs(ps) == PrintProof(one.0) + PrintProofs(more);
      ConcatAssociative(PrintProof(one.0), PrintProofs(more), tail);
    } else {
      assert PrintProofs([]) + rest == rest;
    }
  }

  // ------------------------------------------------------------- the loops

  /** One proof: its count byte, then its digests. */
  method AppendOne(head: Bytes, proof: MerkleProof) returns (blob: Bytes)
    requires |proof.steps| <= MAX_PROOF_STEPS
    ensures blob == head + PrintProof(proof)
  {
    blob := head + [|proof.steps|];
    for j := 0 to |proof.steps|
      invariant blob == head + ([|proof.steps|] + Flatten(proof.steps[..j]))
    {
      FlattenAppend(proof.steps, j);
      blob := blob + proof.steps[j];
    }
    assert proof.steps[..|proof.steps|] == proof.steps;
  }

  /** The proof loop of `serialize_boot_sidecar`. */
  method AppendProofs(head: Bytes, proofs: seq<MerkleProof>) returns (r: Result<Bytes>)
    ensures r == if Short(proofs) then Ok(head + PrintProofs(proofs)) else Err(InvalidParameter)
  {
    var blob := head;
    for i := 0 to |proofs|
      invariant Short(proofs[..i])
      invariant blob == head + PrintProofs(proofs[..i])
    {
      if |proofs[i].steps| > MAX_PROOF_STEPS {
        return Err(InvalidParameter);
      }
      hide PrintProof, PrintProofs;
      PrintProofsAppend(proofs[..i], proofs[i]);
      assert proofs[..i + 1] == proofs[..i] + [proofs[i]];
      ConcatAssociative(head, PrintProofs(proofs[..i]), PrintProof(proofs[i]));
      blob := AppendOne(blob, proofs[i]);
    }
    assert proofs[..|proofs|] == proofs;
    return Ok(blob);
  }

  method ReadSteps(data: Bytes, offset: nat, stepCount: nat) returns (steps: seq<Digest>)
    requires offset + 32 * stepCount <= |data|
    ensures steps == Chunk(data[offset..offset + 32 * stepCount], stepCount)
  {
    steps := [];
    for stepIdx := 0 to stepCount
      invariant steps == Chunk(data[offset..offset + 32 * stepCount], stepCount)[..stepIdx]
    {
      var from := offset + 32 * stepIdx;
      SliceOfSlice(data, offset, offset + 32 * stepCount, 32 * stepIdx, 32 * stepIdx + 32);
      steps := steps + [data[from..from + 32]];
    }
  }

  /** One proof: the length of the whole of it is checked up front. */
  method ReadOne(data: Bytes, start: nat) returns (r: Result<MerkleProof>, next: nat)
    requires start <= |data|
    ensures next <= |data|
    ensures r.Err? ==> ParseProof(data[start..]) == Err(r.error)
    ensures r.Ok? ==> ParseProof(data[start..]) == Ok((r.value, data[next..]))
  {
    hide Chunk;
    next := start;
    if next >= |data| {
      return Err(BufferTooShort), next;
    }
    var stepCount: nat := data[next];
    next := next + 1;
    if stepCount > MAX_PROOF_STEPS {
      return Err(InvalidParameter), next;
    }
    var proofEnd := next + 32 * stepCount;
    if |data| < proofEnd {
      return Err(BufferTooShort), next;
    }
    var steps := ReadSteps(data, next, stepCount);
    SliceOfSlice(data, start, |data|, 1, 1 + 32 * stepCount);
    assert data[start..] == data[start..|data|];
    next := proofEnd;
    return Ok(MerkleProof(steps)), next;
  }

  /** The proof loop of `parse_block_stream`. */
  method ReadProofs(data: Bytes, start: nat, count: nat) returns (r: Result<seq<MerkleProof>>, offset: nat)
    requires start <= |data|
    ensures offset <= |data|
    ensures r.Err? ==> ParseProofs(data[start..], count) == Err(r.error)
    ensures r.Ok? ==> ParseProofs(data[start..], count) == Ok((r.value, data[offset..]))
  {
    hide ParseProof, ParseProofs;
    offset := start;
    var proofs: seq<MerkleProof> := [];
    PrependNothing(ParseProofs(data[start..], count));
    for i := 0 to count
      invariant offset <= |data|
      invariant ParseProofs(data[start..], count) == Prepend(proofs, ParseProofs(data[offset..], count - i))
    {
      hide Prepend;
      ghost var rest := data[offset..];
      var one, next := ReadOne(data, offset);
      if one.Err? {
        ParseProofsStops(rest, count - i, proofs);
        return Err(one.error), next;
      }
      ParseProofsNext(rest, count - i, proofs, one.value, data[next..]);
      offset := next;
      proofs := proofs + [one.value];
    }
    ParseNoProofs(data[offset..], proofs);
    return Ok(proofs), offset;
  }

  lemma ParseNoProofs(rest: Bytes, done: seq<MerkleProof>)
    ensures Prepend(done, ParseProofs(rest, 0)) == Ok((done, rest))
  {
    assert done + [] == done;
  }

  /** A proof that does not parse stops the list. */
  lemma ParseProofsStops(rest: Bytes, count: nat, done: seq<MerkleProof>)
    requires count > 0 && ParseProof(rest).Err?
    ensures Prepend(done, ParseProofs(rest, count)) == Err(ParseProof(rest).error)
  {
    hide ParseProof;
  }

  /** One that does goes to the end of what is done. */
  lemma ParseProofsNext(rest: Bytes, count: nat, done: seq<MerkleProof>, p: MerkleProof, tail: Bytes)
    requires count > 0 && ParseProof(rest) == Ok((p, tail))
    ensures Prepend(done, ParseProofs(rest, count)) == Prepend(done + [p], ParseProofs(tail, count - 1))
  {
    hide ParseProof;
    var more := ParseProofs(tail, count - 1);
    if more.Ok? {
      assert done + ([p] + more.value.0) == (done + [p]) + more.value.0;
    }
  }
}
