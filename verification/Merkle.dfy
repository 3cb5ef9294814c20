/** Merkle tree over block digests: building, proving, verifying; soundness and completeness. */
module Merkle {
  import opened Basics
  import opened Observer

  datatype MerkleProof = MerkleProof(steps: seq<Digest>)
  datatype MerkleTree = MerkleTree(root: Digest, layers: seq<seq<Digest>>)

  // ------------------------------------------------------------- reference definitions

  function LeafHash(H: Hash, data: Bytes): (d: Digest) {
    H(data)
  }

  function ParentHash(H: Hash, left: Digest, right: Digest): (d: Digest) {
    H(left + right)
  }

  function Leaves(H: Hash, blocks: seq<Bytes>): (layer: seq<Digest>)
    ensures |layer| == |blocks|
  {
    seq(|blocks|, i requires 0 <= i < |blocks| => LeafHash(H, blocks[i]))
  }

  /** The right child of parent `i`; a missing one is replaced by the left child. */
  function RightChild(layer: seq<Digest>, i: nat): (d: Digest)
    requires 2 * i < |layer|
  {
    if 2 * i + 1 < |layer| then layer[2 * i + 1] else layer[2 * i]
  }

  function Parents(H: Hash, layer: seq<Digest>): (next: seq<Digest>)
    ensures |next| == (|layer| + 1) / 2
  {
    seq((|layer| + 1) / 2, i requires 0 <= i < (|layer| + 1) / 2 => ParentHash(H, layer[2 * i], RightChild(layer, i)))
  }

  function Layers(H: Hash, layer: seq<Digest>): (layers: seq<seq<Digest>>)
    requires layer != []
    ensures layers != [] && layers[0] == layer
    decreases |layer|
  {
    if |layer| == 1 then [layer] else [layer] + Layers(H, Parents(H, layer))
  }

  function Root(H: Hash, layer: seq<Digest>): (d: Digest)
    requires layer != []
    decreases |layer|
  {
    if |layer| == 1 then layer[0] else Root(H, Parents(H, layer))
  }

  /** The number of levels above `n` leaves. */
  function Depth(n: nat): (d: nat) {
    if n <= 1 then 0 else 1 + Depth((n + 1) / 2)
  }

  function SiblingIndex(n: nat, index: nat): (s: nat)
    requires index < n
    ensures s < n
  {
    if index % 2 == 0 then (if index + 1 < n then index + 1 else index) else index - 1
  }

  function Path(H: Hash, layer: seq<Digest>, index: nat): (steps: seq<Digest>)
    requires index < |layer|
    decreases |layer|
  {
    if |layer| == 1 then [] else [layer[SiblingIndex(|layer|, index)]] + Path(H, Parents(H, layer), index / 2)
  }

  /** The leaf that stands at position `j` once odd layers have repeated their last node: `j` itself
      below `n`, and an earlier leaf above. The verifier's index selects leaves this way. */
  function Source(n: nat, j: nat): (s: nat)
    requires n > 0
    ensures s < n
    decreases n
  {
    if n == 1 then 0 else
      var p := Source((n + 1) / 2, j / 2);
      if 2 * p + j % 2 < n then 2 * p + j % 2 else 2 * p
  }

  /** The 64 bytes hashed by one verification step. */
  function StepInput(hash: Digest, index: nat, sibling: Digest): (b: Bytes)
    ensures |b| == 64
  {
    if index % 2 == 0 then hash + sibling else sibling + hash
  }

  function Climb(H: Hash, hash: Digest, index: nat, steps: seq<Digest>): (d: Digest)
    decreases |steps|
  {
    if steps == [] then hash else Climb(H, H(StepInput(hash, index, steps[0])), index / 2, steps[1..])
  }

  predicate Accepts(H: Hash, root: Digest, block: Bytes, index: nat, proof: MerkleProof) {
    Climb(H, LeafHash(H, block), index, proof.steps) == root
  }

  ghost predicate IsTree(H: Hash, tree: MerkleTree) {
    && tree.layers != [] && tree.layers[0] != []
    && tree.layers == Layers(H, tree.layers[0])
    && tree.root == Root(H, tree.layers[0])
  }

  // ------------------------------------------------------------- the strings a run hashes

  ghost function ParentInputs(H: Hash, layer: seq<Digest>): (inputs: set<Bytes>)
    requires layer != []
    decreases |layer|
  {
    if |layer| == 1 then {} else
      (set i | 0 <= i < (|layer| + 1) / 2 :: layer[2 * i] + RightChild(layer, i)) + ParentInputs(H, Parents(H, layer))
  }

  ghost function ClimbInputs(H: Hash, hash: Digest, index: nat, steps: seq<Digest>): (inputs: set<Bytes>)
    decreases |steps|
  {
    if steps == [] then {} else
      var input := StepInput(hash, index, steps[0]);
      {input} + ClimbInputs(H, H(input), index / 2, steps[1..])
  }

  /** Everything hashed while building the tree over `blocks`. */
  ghost function BuildInputs(H: Hash, blocks: seq<Bytes>): (inputs: set<Bytes>)
    requires blocks != []
  {
    (set i | 0 <= i < |blocks| :: blocks[i]) + ParentInputs(H, Leaves(H, blocks))
  }

  /** Everything hashed while verifying `block` with `proof`. */
  ghost function VerifyInputs(H: Hash, block: Bytes, index: nat, proof: MerkleProof): (inputs: set<Bytes>) {
    {block} + ClimbInputs(H, LeafHash(H, block), index, proof.steps)
  }

  // ------------------------------------------------------------- completeness

  lemma {:induction false} SourceInRange(n: nat, j: nat)
    requires j < n
    ensures Source(n, j) == j
    decreases n
  {
    if n > 1 {
      SourceInRange((n + 1) / 2, j / 2);
    }
  }

  /** One level up from position `j`: its leaf and the leaf's sibling are the two children of the
      parent that stands at position `j / 2`. */
  lemma SourceChildren(layer: seq<Digest>, j: nat)
    requires |layer| > 1
    ensures var n := |layer|;
            var s, p := Source(n, j), Source((n + 1) / 2, j / 2);
            && s / 2 == p && 2 * p < n
            && layer[s] == (if j % 2 == 0 then layer[2 * p] else RightChild(layer, p))
            && layer[SiblingIndex(n, s)] == (if j % 2 == 0 then RightChild(layer, p) else layer[2 * p])
  {
  }

  /** At every index, in range or not, the path of the leaf standing there climbs to the root. */
  lemma {:induction false} PathLeadsToRoot(H: Hash, layer: seq<Digest>, index: nat)
    requires layer != []
    ensures var s := Source(|layer|, index);
            && Climb(H, layer[s], index, Path(H, layer, s)) == Root(H, layer)
            && |Path(H, layer, s)| == Depth(|layer|)
    decreases |layer|
  {
    if |layer| > 1 {
      var next, s := Parents(H, layer), Source(|layer|, index);
      var sibling := layer[SiblingIndex(|layer|, s)];
      SourceChildren(layer, index);
      assert H(StepInput(layer[s], index, sibling)) == next[s / 2];
      PathLeadsToRoot(H, next, index / 2);
      assert Path(H, layer, s) == [sibling] + Path(H, next, s / 2);
    }
  }

  /** Every honest proof is accepted, and it has exactly `Depth(n)` steps. */
  lemma MerkleCompleteness(H: Hash, blocks: seq<Bytes>, index: nat)
    requires index < |blocks|
    ensures Accepts(H, Root(H, Leaves(H, blocks)), blocks[index], index, MerkleProof(Path(H, Leaves(H, blocks), index)))
    ensures |Path(H, Leaves(H, blocks), index)| == Depth(|blocks|)
  {
    SourceInRange(|blocks|, index);
    PathLeadsToRoot(H, Leaves(H, blocks), index);
  }

  /** `Depth(n)` is the ceiling of the binary logarithm: the least `d` with `2^d >= n`. */
  lemma {:induction false} DepthIsCeilLog2(n: nat)
    requires n >= 1
    ensures Pow2(Depth(n)) >= n
    ensures forall d: nat :: Pow2(d) >= n ==> Depth(n) <= d
  {
    if n > 1 {
      DepthIsCeilLog2((n + 1) / 2);
      forall d: nat | Pow2(d) >= n
        ensures Depth(n) <= d
      {
        assert Pow2(d - 1) >= (n + 1) / 2;
      }
    }
  }

  lemma DepthOfBootImage(n: nat)
    requires 1 <= n <= MAX_BOOT_BLOCKS
    ensures Depth(n) <= 6
  {
    DepthIsCeilLog2(n);
    PowersUpTo8();
    assert Pow2(6) == 64;
  }

  // ------------------------------------------------------------- soundness

  /** Inverting one verification step that meets a parent of the layer. */
  lemma StepInverts(H: Hash, layer: seq<Digest>, i: nat, hash: Digest, index: nat, sibling: Digest, inputs: set<Bytes>)
    requires 2 * i < |layer|
    requires H(StepInput(hash, index, sibling)) == ParentHash(H, layer[2 * i], RightChild(layer, i))
    requires StepInput(hash, index, sibling) in inputs && layer[2 * i] + RightChild(layer, i) in inputs
    ensures CollisionIn(H, inputs)
            || (&& hash == (if index % 2 == 0 then layer[2 * i] else RightChild(layer, i))
                && sibling == (if index % 2 == 0 then RightChild(layer, i) else layer[2 * i]))
  {
    var x, y := StepInput(hash, index, sibling), layer[2 * i] + RightChild(layer, i);
    EqualOrCollision(H, x, y, inputs);
    if x == y {
      assert x[..32] == y[..32] && x[32..] == y[32..];
    }
  }

  ghost function Both(H: Hash, layer: seq<Digest>, hash: Digest, index: nat, steps: seq<Digest>): (inputs: set<Bytes>)
    requires layer != []
  {
    ParentInputs(H, layer) + ClimbInputs(H, hash, index, steps)
  }

  lemma BothShrinks(H: Hash, layer: seq<Digest>, hash: Digest, index: nat, steps: seq<Digest>)
    requires |layer| > 1 && steps != []
    ensures CollisionIn(H, Both(H, Parents(H, layer), H(StepInput(hash, index, steps[0])), index / 2, steps[1..]))
            ==> CollisionIn(H, Both(H, layer, hash, index, steps))
  {
    CollisionGrows(H, Both(H, Parents(H, layer), H(StepInput(hash, index, steps[0])), index / 2, steps[1..]),
                   Both(H, layer, hash, index, steps));
  }

  lemma ClimbStep(H: Hash, layer: seq<Digest>, i: nat, hash: Digest, index: nat, steps: seq<Digest>)
    requires |layer| > 1 && steps != [] && i < (|layer| + 1) / 2
    requires Parents(H, layer)[i] == H(StepInput(hash, index, steps[0]))
    ensures CollisionIn(H, Both(H, layer, hash, index, steps))
            || (&& hash == (if index % 2 == 0 then layer[2 * i] else RightChild(layer, i))
                && steps[0] == (if index % 2 == 0 then RightChild(layer, i) else layer[2 * i]))
  {
    assert layer[2 * i] + RightChild(layer, i) in ParentInputs(H, layer);
    StepInverts(H, layer, i, hash, index, steps[0], Both(H, layer, hash, index, steps));
  }

  lemma PathUnfolds(H: Hash, layer: seq<Digest>, s: nat)
    requires |layer| > 1 && s < |layer|
    ensures Path(H, layer, s) == [layer[SiblingIndex(|layer|, s)]] + Path(H, Parents(H, layer), s / 2)
  {
    hide SiblingIndex;
  }

  /** The step from a layer's parents down to the layer. */
  lemma SourceStep(H: Hash, layer: seq<Digest>, hash: Digest, index: nat, steps: seq<Digest>)
    requires |layer| > 1 && steps != []
    requires var next, p := Parents(H, layer), Source((|layer| + 1) / 2, index / 2);
             var input := StepInput(hash, index, steps[0]);
             || (H(input) == next[p] && steps[1..] == Path(H, next, p))
             || CollisionIn(H, Both(H, next, H(input), index / 2, steps[1..]))
    ensures var s := Source(|layer|, index);
            (hash == layer[s] && steps == Path(H, layer, s)) || CollisionIn(H, Both(H, layer, hash, index, steps))
  {
    hide Path, Source, SiblingIndex, Both, Parents, StepInput, RightChild, CollisionIn;
    var next, p, s := Parents(H, layer), Source((|layer| + 1) / 2, index / 2), Source(|layer|, index);
    SourceChildren(layer, index);
    PathUnfolds(H, layer, s);
    BothShrinks(H, layer, hash, index, steps);
    if H(StepInput(hash, index, steps[0])) == next[p] && steps[1..] == Path(H, next, p) {
      ClimbStep(H, layer, p, hash, index, steps);
      assert steps == [steps[0]] + steps[1..];
    }
  }

  /** A proof of the tree's own depth that ends at its root started at the leaf standing at that
      index, in range or not, and is that leaf's path: proofs are unique. */
  lemma {:induction false} ClimbReachesSource(H: Hash, layer: seq<Digest>, hash: Digest, index: nat, steps: seq<Digest>)
    requires layer != [] && |steps| == Depth(|layer|)
    requires Climb(H, hash, index, steps) == Root(H, layer)
    ensures var s := Source(|layer|, index);
            (hash == layer[s] && steps == Path(H, layer, s)) || CollisionIn(H, Both(H, layer, hash, index, steps))
    decreases |layer|
  {
    if |layer| > 1 {
      hide Source, Path, Both, Parents, StepInput;
      ClimbReachesSource(H, Parents(H, layer), H(StepInput(hash, index, steps[0])), index / 2, steps[1..]);
      SourceStep(H, layer, hash, index, steps);
    }
  }

  /** A proof longer than the tree is deep makes a 64-byte string hash to a bottom node. */
  lemma {:induction false} LongClimb(H: Hash, layer: seq<Digest>, hash: Digest, index: nat, steps: seq<Digest>) returns (x: Bytes)
    requires layer != [] && |steps| > Depth(|layer|)
    requires Climb(H, hash, index, steps) == Root(H, layer)
    ensures CollisionIn(H, Both(H, layer, hash, index, steps)) || (x in ClimbInputs(H, hash, index, steps) && |x| == 64 && H(x) in layer)
    decreases |steps|
  {
    x := StepInput(hash, index, steps[0]);
    var rest := Both(H, layer, H(x), index / 2, steps[1..]);
    CollisionGrows(H, rest, Both(H, layer, hash, index, steps));
    if |steps| == Depth(|layer|) + 1 {
      ClimbReachesSource(H, layer, H(x), index / 2, steps[1..]);
    } else {
      x := LongClimb(H, layer, H(x), index / 2, steps[1..]);
    }
  }

  /** A proof shorter than the tree is deep makes a 64-byte string hash to the leaf's digest. */
  lemma {:induction false} ShortClimb(H: Hash, layer: seq<Digest>, hash: Digest, index: nat, steps: seq<Digest>) returns (x: Bytes)
    requires layer != [] && |steps| < Depth(|layer|)
    requires Climb(H, hash, index, steps) == Root(H, layer)
    ensures CollisionIn(H, Both(H, layer, hash, index, steps)) || (x in ParentInputs(H, layer) && |x| == 64 && H(x) == hash)
    decreases |layer|
  {
    var next := Parents(H, layer);
    CollisionGrows(H, Both(H, next, hash, index, steps), Both(H, layer, hash, index, steps));
    if |steps| == Depth(|next|) {
      ClimbReachesSource(H, next, hash, index, steps);
      var i := Source(|next|, index);
      x := layer[2 * i] + RightChild(layer, i);
    } else {
      x := ShortClimb(H, next, hash, index, steps);
    }
  }

  /** What the verifier accepts, exactly: at any index, in range or not, the block standing there
      with its own path, and nothing else unless the strings hashed by the build and by this
      verification contain a collision. The only thing asked of block lengths is that none is 64,
      the length of a parent's input. */
  lemma AcceptsExactly(H: Hash, blocks: seq<Bytes>, block: Bytes, index: nat, proof: MerkleProof)
    requires blocks != [] && |block| != 64 && forall i :: 0 <= i < |blocks| ==> |blocks[i]| != 64
    ensures var layer, s := Leaves(H, blocks), Source(|blocks|, index);
            && (block == blocks[s] && proof.steps == Path(H, layer, s) ==> Accepts(H, Root(H, layer), block, index, proof))
            && (Accepts(H, Root(H, layer), block, index, proof) ==>
                || (block == blocks[s] && proof.steps == Path(H, layer, s))
                || CollisionIn(H, BuildInputs(H, blocks) + VerifyInputs(H, block, index, proof)))
  {
    PathLeadsToRoot(H, Leaves(H, blocks), index);
    if Accepts(H, Root(H, Leaves(H, blocks)), block, index, proof) {
      if |proof.steps| == Depth(|blocks|) {
        FullProofIsPath(H, blocks, block, index, proof);
      } else {
        WrongLengthCollides(H, blocks, block, index, proof);
      }
    }
  }

  lemma BlocksAreHashed(H: Hash, blocks: seq<Bytes>, block: Bytes, index: nat, proof: MerkleProof)
    requires blocks != []
    ensures var inputs := BuildInputs(H, blocks) + VerifyInputs(H, block, index, proof);
            && block in inputs && (forall i :: 0 <= i < |blocks| ==> blocks[i] in inputs)
            && Both(H, Leaves(H, blocks), LeafHash(H, block), index, proof.steps) <= inputs
  {
  }

  lemma FullProofIsPath(H: Hash, blocks: seq<Bytes>, block: Bytes, index: nat, proof: MerkleProof)
    requires blocks != [] && |proof.steps| == Depth(|blocks|) && Accepts(H, Root(H, Leaves(H, blocks)), block, index, proof)
    ensures var s := Source(|blocks|, index);
            || (block == blocks[s] && proof.steps == Path(H, Leaves(H, blocks), s))
            || CollisionIn(H, BuildInputs(H, blocks) + VerifyInputs(H, block, index, proof))
  {
    var layer, hash, s := Leaves(H, blocks), LeafHash(H, block), Source(|blocks|, index);
    var inputs := BuildInputs(H, blocks) + VerifyInputs(H, block, index, proof);
    BlocksAreHashed(H, blocks, block, index, proof);
    CollisionGrows(H, Both(H, layer, hash, index, proof.steps), inputs);
    ClimbReachesSource(H, layer, hash, index, proof.steps);
    if hash == layer[s] {
      EqualOrCollision(H, block, blocks[s], inputs);
    }
  }

  lemma WrongLengthCollides(H: Hash, blocks: seq<Bytes>, block: Bytes, index: nat, proof: MerkleProof)
    requires blocks != [] && |block| != 64 && forall i :: 0 <= i < |blocks| ==> |blocks[i]| != 64
    requires |proof.steps| != Depth(|blocks|) && Accepts(H, Root(H, Leaves(H, blocks)), block, index, proof)
    ensures CollisionIn(H, BuildInputs(H, blocks) + VerifyInputs(H, block, index, proof))
  {
    var layer, hash := Leaves(H, blocks), LeafHash(H, block);
    var inputs := BuildInputs(H, blocks) + VerifyInputs(H, block, index, proof);
    BlocksAreHashed(H, blocks, block, index, proof);
    CollisionGrows(H, Both(H, layer, hash, index, proof.steps), inputs);
    if |proof.steps| > Depth(|layer|) {
      var x := LongClimb(H, layer, hash, index, proof.steps);
      if H(x) in layer && |x| == 64 && x in inputs {
        var i :| 0 <= i < |layer| && layer[i] == H(x);
        EqualOrCollision(H, x, blocks[i], inputs);
      }
    } else {
      var x := ShortClimb(H, layer, hash, index, proof.steps);
      if H(x) == hash && |x| == 64 && x in inputs {
        EqualOrCollision(H, x, block, inputs);
      }
    }
  }

  /** Soundness against arbitrary proofs: whatever proof of whatever length comes with it, a block
      accepted at an index is the block standing there, below `n` the one at that index, or there
      is a collision. */
  lemma MerkleSoundness(H: Hash, blocks: seq<Bytes>, block: Bytes, index: nat, proof: MerkleProof)
    requires blocks != [] && |block| != 64 && forall i :: 0 <= i < |blocks| ==> |blocks[i]| != 64
    requires Accepts(H, Root(H, Leaves(H, blocks)), block, index, proof)
    ensures || block == blocks[Source(|blocks|, index)]
            || CollisionIn(H, BuildInputs(H, blocks) + VerifyInputs(H, block, index, proof))
    ensures index < |blocks| ==>
              block == blocks[index] || CollisionIn(H, BuildInputs(H, blocks) + VerifyInputs(H, block, index, proof))
  {
    AcceptsExactly(H, blocks, block, index, proof);
    if index < |blocks| {
      SourceInRange(|blocks|, index);
    }
  }

  /** Without the length condition soundness is false for every tree of two or more blocks: the 64
      bytes of any two sibling leaves are accepted as a block, with the path of their parent. */
  lemma ParentLengthBlockIsAccepted(H: Hash, blocks: seq<Bytes>, p: nat)
    requires |blocks| > 1 && p < (|blocks| + 1) / 2
    ensures var layer := Leaves(H, blocks);
            var x := layer[2 * p] + RightChild(layer, p);
            && Accepts(H, Root(H, layer), x, p, MerkleProof(Path(H, Parents(H, layer), p)))
            && |x| == 64 && (|blocks[p]| != 64 ==> x != blocks[p])
  {
    var layer := Leaves(H, blocks);
    var next := Parents(H, layer);
    SourceInRange(|next|, p);
    PathLeadsToRoot(H, next, p);
    assert Root(H, layer) == Root(H, next);
    hide Path, Root, Climb, Source;
    assert next[p] == H(layer[2 * p] + RightChild(layer, p));
  }

  /** Two proofs of one length cannot lead to one root from different places, or by different
      siblings, without a collision, for any root at all, even one that no tree has. */
  lemma {:induction false} ClimbInjective(H: Hash, h1: Digest, s1: seq<Digest>, h2: Digest, s2: seq<Digest>, index: nat)
    requires |s1| == |s2| && Climb(H, h1, index, s1) == Climb(H, h2, index, s2)
    ensures (h1 == h2 && s1 == s2) || CollisionIn(H, ClimbInputs(H, h1, index, s1) + ClimbInputs(H, h2, index, s2))
    decreases |s1|
  {
    if s1 != [] {
      var x1, x2 := StepInput(h1, index, s1[0]), StepInput(h2, index, s2[0]);
      var inputs := ClimbInputs(H, h1, index, s1) + ClimbInputs(H, h2, index, s2);
      ClimbInjective(H, H(x1), s1[1..], H(x2), s2[1..], index / 2);
      CollisionGrows(H, ClimbInputs(H, H(x1), index / 2, s1[1..]) + ClimbInputs(H, H(x2), index / 2, s2[1..]), inputs);
      if H(x1) == H(x2) && s1[1..] == s2[1..] {
        EqualOrCollision(H, x1, x2, inputs);
        if x1 == x2 {
          assert x1[..32] == x2[..32] && x1[32..] == x2[32..];
          assert s1 == [s1[0]] + s1[1..] && s2 == [s2[0]] + s2[1..];
        }
      }
    }
  }

  /** For any root, one index accepts at most one block and one proof of each length. */
  lemma ProofPinsBlock(H: Hash, root: Digest, b1: Bytes, p1: MerkleProof, b2: Bytes, p2: MerkleProof, index: nat)
    requires |p1.steps| == |p2.steps| && Accepts(H, root, b1, index, p1) && Accepts(H, root, b2, index, p2)
    ensures (b1 == b2 && p1 == p2) || CollisionIn(H, VerifyInputs(H, b1, index, p1) + VerifyInputs(H, b2, index, p2))
  {
    var inputs := VerifyInputs(H, b1, index, p1) + VerifyInputs(H, b2, index, p2);
    ClimbInjective(H, H(b1), p1.steps, H(b2), p2.steps, index);
    CollisionGrows(H, ClimbInputs(H, H(b1), index, p1.steps) + ClimbInputs(H, H(b2), index, p2.steps), inputs);
    if H(b1) == H(b2) {
      EqualOrCollision(H, b1, b2, inputs);
    }
  }

  // ------------------------------------------------------------- what the index does not bind

  /** The verifier looks at the index only modulo `2^(number of steps)`. */
  lemma {:induction false} ClimbIndexModulo(H: Hash, hash: Digest, index: nat, steps: seq<Digest>)
    ensures Climb(H, hash, index, steps) == Climb(H, hash, index % Pow2(|steps|), steps)
    decreases |steps|
  {
    if steps != [] {
      var p := Pow2(|steps| - 1);
      HalfModulo(index, p);
      var small := index % (2 * p);
      ClimbIndexModulo(H, H(StepInput(hash, index, steps[0])), index / 2, steps[1..]);
      ClimbIndexModulo(H, H(StepInput(hash, index, steps[0])), small / 2, steps[1..]);
    }
  }

  lemma HalfModulo(index: nat, p: nat)
    requires p > 0
    ensures index % (2 * p) % 2 == index % 2
    ensures index % (2 * p) / 2 == (index / 2) % p
    ensures (index / 2) % p % p == (index / 2) % p
  {
    var half := index / 2;
    var q, r := half / p, half % p;
    assert index == q * (2 * p) + (2 * r + index % 2) by {
      assert half == q * p + r;
      assert 2 * (q * p) == q * (2 * p);
    }
    ModUnique(index, 2 * p, q, 2 * r + index % 2);
    ModUnique(r, p, 0, r);
  }

  // ------------------------------------------------------------- the code

  /** A Rust slice of byte slices cannot be longer than this (isize::MAX / 16). */
  const MAX_SLICES: nat := 0x0800_0000_0000_0000

  /** Work units spent above a layer of `n` nodes. */
  function LayerTicks(n: nat): (t: nat) {
    if n <= 1 then 0 else (n + 1) / 2 + LayerTicks((n + 1) / 2)
  }

  lemma {:induction false} LayerTicksBound(n: nat)
    requires n >= 1
    ensures LayerTicks(n) <= 2 * n - 2
  {
    if n > 1 {
      LayerTicksBound((n + 1) / 2);
    }
  }

  lemma {:induction false} DepthBound(H: Hash, layer: seq<Digest>)
    requires layer != []
    ensures |Layers(H, layer)| == Depth(|layer|) + 1 <= |layer|
    decreases |layer|
  {
    if |layer| > 1 {
      DepthBound(H, Parents(H, layer));
    }
  }

  method HashLeaves(H: Hash, leaves: seq<Bytes>, observer: PatternObserver) returns (r: Result<seq<Digest>>)
    requires observer.count + |leaves| <= observer.maxIterations <= USIZE_MAX
    modifies observer`count
    ensures r == Ok(Leaves(H, leaves))
    ensures observer.count == old(observer.count) + |leaves|
  {
    var current: seq<Digest> := [];
    for i := 0 to |leaves|
      invariant observer.count == old(observer.count) + i
      invariant current == Leaves(H, leaves)[..i]
    {
      var _ :- observer.Tick();
      current := current + [LeafHash(H, leaves[i])];
    }
    assert Leaves(H, leaves)[..|leaves|] == Leaves(H, leaves);
    return Ok(current);
  }

  method HashLayer(H: Hash, current: seq<Digest>, observer: PatternObserver) returns (r: Result<seq<Digest>>)
    requires observer.count + (|current| + 1) / 2 <= observer.maxIterations <= USIZE_MAX
    modifies observer`count
    ensures r == Ok(Parents(H, current))
    ensures observer.count == old(observer.count) + (|current| + 1) / 2
  {
    var next: seq<Digest> := [];
    var i := 0;
    while i < |current|
      invariant 0 <= i <= |current| + 1 && i % 2 == 0
      invariant observer.count == old(observer.count) + i / 2
      invariant next == Parents(H, current)[..i / 2]
    {
      var _ :- observer.Tick();
      var left := current[i];
      var right := if i + 1 < |current| then current[i + 1] else current[i];
      next := next + [ParentHash(H, left, right)];
      i := i + 2;
    }
    assert Parents(H, current)[..i / 2] == Parents(H, current);
    return Ok(next);
  }

  /** `MerkleTree::build`. Empty input is the only error: the cap of `3n` ticks is never met. */
  method Build(H: Hash, leaves: seq<Bytes>) returns (r: Result<MerkleTree>, ghost ticks: nat)
    requires |leaves| <= MAX_SLICES
    ensures leaves == [] ==> r == Err(EmptyInput)
    ensures leaves != [] ==> r == Ok(MerkleTree(Root(H, Leaves(H, leaves)), Layers(H, Leaves(H, leaves))))
    ensures leaves != [] ==> ticks <= 3 * |leaves| - 2
  {
    ticks := 0;
    if leaves == [] {
      return Err(EmptyInput), 0;
    }
    LayerTicksBound(|leaves|);
    var observer :- NewObserver(SaturatingMul(|leaves|, 3));
    var current :- HashLeaves(H, leaves, observer);
    var layers :- BuildLayers(H, current, observer);
    ticks := observer.count;
    RootIsTop(H, current);
    return Ok(MerkleTree(layers[|layers| - 1][0], layers)), ticks;
  }

  lemma {:induction false} RootIsTop(H: Hash, layer: seq<Digest>)
    requires layer != []
    ensures var layers := Layers(H, layer);
            |layers[|layers| - 1]| == 1 && layers[|layers| - 1][0] == Root(H, layer)
    decreases |layer|
  {
    if |layer| > 1 {
      RootIsTop(H, Parents(H, layer));
    }
  }

  method BuildLayers(H: Hash, bottom: seq<Digest>, observer: PatternObserver) returns (r: Result<seq<seq<Digest>>>)
    requires bottom != []
    requires observer.count + LayerTicks(|bottom|) <= observer.maxIterations <= USIZE_MAX
    modifies observer`count
    ensures r == Ok(Layers(H, bottom))
    ensures observer.count == old(observer.count) + LayerTicks(|bottom|)
  {
    var current := bottom;
    var layers := [current];
    ghost var done: seq<seq<Digest>> := [];
    assert done + Layers(H, current) == Layers(H, bottom);
    while |current| > 1
      invariant current != [] && layers == done + [current]
      invariant observer.count + LayerTicks(|current|) == old(observer.count) + LayerTicks(|bottom|)
      invariant done + Layers(H, current) == Layers(H, bottom)
      decreases |current|
    {
      var next :- HashLayer(H, current, observer);
      ConcatAssociative(done, [current], Layers(H, next));
      done := layers;
      layers := layers + [next];
      current := next;
    }
    return Ok(layers);
  }

  lemma PathStep(H: Hash, layers: seq<seq<Digest>>, k: nat, idx: nat)
    requires k + 1 < |layers| && idx < |layers[k]|
    requires layers[k..] == Layers(H, layers[k])
    ensures idx / 2 < |layers[k + 1]|
    ensures layers[k + 1..] == Layers(H, layers[k + 1])
    ensures Path(H, layers[k], idx) == [layers[k][SiblingIndex(|layers[k]|, idx)]] + Path(H, layers[k + 1], idx / 2)
  {
    assert layers[k..][1..] == layers[k + 1..];
    assert layers[k..] == [layers[k]] + Layers(H, Parents(H, layers[k]));
    assert layers[k + 1] == layers[k..][1] == Parents(H, layers[k]);
  }

  lemma PathAppend(steps: seq<Digest>, step: Digest, rest: seq<Digest>)
    ensures steps + ([step] + rest) == (steps + [step]) + rest
  {
  }

  lemma PathEnds(H: Hash, layers: seq<seq<Digest>>, idx: nat)
    requires layers != [] && idx < |layers[|layers| - 1]|
    requires layers[|layers| - 1..] == Layers(H, layers[|layers| - 1])
    ensures Path(H, layers[|layers| - 1], idx) == []
  {
    assert |Layers(H, layers[|layers| - 1])| == 1;
  }

  /** `MerkleTree::prove` on a tree made by `Build`. */
  method Prove(ghost H: Hash, tree: MerkleTree, index: nat) returns (r: Result<MerkleProof>)
    requires IsTree(H, tree) && |tree.layers[0]| <= MAX_SLICES
    ensures index >= |tree.layers[0]| ==> r == Err(InvalidParameter)
    ensures index < |tree.layers[0]| ==> r == Ok(MerkleProof(Path(H, tree.layers[0], index)))
  {
    var leafCount := |tree.layers[0]|;
    if index >= leafCount {
      return Err(InvalidParameter);
    }
    var steps: seq<Digest> := [];
    var idx: nat := index;
    var observer :- NewObserver(Max(leafCount, 1001));
    var layers := tree.layers;
    ghost var whole := Path(H, layers[0], index);
    DepthBound(H, layers[0]);
    assert layers[0..] == layers;
    hide Layers, Path, Root;
    for k := 0 to |layers| - 1
      invariant observer.count == k
      invariant idx < |layers[k]|
      invariant layers[k..] == Layers(H, layers[k])
      invariant steps + Path(H, layers[k], idx) == whole
    {
      var layer := layers[k];
      PathStep(H, layers, k, idx);
      var _ :- observer.Tick();
      var siblingIdx := if idx % 2 == 0 then (if idx + 1 < |layer| then idx + 1 else idx) else idx - 1;
      PathAppend(steps, layer[siblingIdx], Path(H, layers[k + 1], idx / 2));
      steps := steps + [layer[siblingIdx]];
      idx := idx / 2;
    }
    PathEnds(H, layers, idx);
    assert steps + [] == steps;
    return Ok(MerkleProof(steps));
  }

  /** `verify_proof`: never an error, and true exactly when the climb ends at the root. */
  method VerifyProof(H: Hash, root: Digest, leafData: Bytes, leafIndex: nat, proof: MerkleProof) returns (r: Result<bool>)
    requires |proof.steps| <= MAX_SLICES
    ensures r == Ok(Accepts(H, root, leafData, leafIndex, proof))
  {
    var hash: Digest := LeafHash(H, leafData);
    var index: nat := leafIndex;
    var observer :- NewObserver(Max(|proof.steps|, 1001));
    for k := 0 to |proof.steps|
      invariant observer.count == k
      invariant Climb(H, hash, index, proof.steps[k..]) == Climb(H, LeafHash(H, leafData), leafIndex, proof.steps)
    {
      var _ :- observer.Tick();
      var sibling := proof.steps[k];
      hash := if index % 2 == 0 then ParentHash(H, hash, sibling) else ParentHash(H, sibling, hash);
      index := index / 2;
    }
    return Ok(hash == root);
  }
}
