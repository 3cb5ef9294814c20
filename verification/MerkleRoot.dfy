/** What a Merkle root says about the blocks below it, and what it leaves open. */
module MerkleRoot {
  import opened Basics
  import opened Merkle

  /** The blocks as the tree sees them: filled up to the next power of two by the repetition of
      last nodes, layer by layer. */
  function Completed(blocks: seq<Bytes>): (full: seq<Bytes>)
    requires blocks != []
    ensures |full| == Pow2(Depth(|blocks|))
  {
    seq(Pow2(Depth(|blocks|)), j requires 0 <= j < Pow2(Depth(|blocks|)) => blocks[Source(|blocks|, j)])
  }

  /** Everything hashed while building two trees. */
  ghost function BothBuilds(H: Hash, a: seq<Bytes>, b: seq<Bytes>): (inputs: set<Bytes>)
    requires a != [] && b != []
  {
    BuildInputs(H, a) + BuildInputs(H, b)
  }

  ghost function BothParents(H: Hash, a: seq<Digest>, b: seq<Digest>): (inputs: set<Bytes>)
    requires a != [] && b != []
  {
    ParentInputs(H, a) + ParentInputs(H, b)
  }

  /** The two layers hold the same digest at every position. */
  ghost predicate Agree(a: seq<Digest>, b: seq<Digest>)
    requires a != [] && b != []
  {
    forall j: nat :: a[Source(|a|, j)] == b[Source(|b|, j)]
  }

  // ------------------------------------------------------------- layers of equal depth

  lemma ParentAt(H: Hash, layer: seq<Digest>, j: nat)
    requires |layer| > 1
    ensures Parents(H, layer)[Source(|Parents(H, layer)|, j)]
            == ParentHash(H, layer[Source(|layer|, 2 * j)], layer[Source(|layer|, 2 * j + 1)])
  {
    SourceChildren(layer, 2 * j);
    SourceChildren(layer, 2 * j + 1);
    assert (2 * j) / 2 == j && (2 * j + 1) / 2 == j;
    hide Source;
  }

  lemma AgreeingParents(H: Hash, a: seq<Digest>, b: seq<Digest>)
    requires |a| > 1 && |b| > 1 && Agree(a, b)
    ensures Agree(Parents(H, a), Parents(H, b))
  {
    hide Source, Parents, ParentHash;
    forall j: nat
      ensures Parents(H, a)[Source(|Parents(H, a)|, j)] == Parents(H, b)[Source(|Parents(H, b)|, j)]
    {
      ParentAt(H, a, j);
      ParentAt(H, b, j);
      assert a[Source(|a|, 2 * j)] == b[Source(|b|, 2 * j)] && a[Source(|a|, 2 * j + 1)] == b[Source(|b|, 2 * j + 1)];
    }
  }

  lemma {:induction false} AgreeingRoots(H: Hash, a: seq<Digest>, b: seq<Digest>)
    requires a != [] && b != [] && Depth(|a|) == Depth(|b|) && Agree(a, b)
    ensures Root(H, a) == Root(H, b)
    decreases |a|
  {
    if |a| > 1 {
      AgreeingParents(H, a, b);
      AgreeingRoots(H, Parents(H, a), Parents(H, b));
    } else {
      assert a[Source(1, 0)] == b[Source(1, 0)];
    }
  }

  lemma ParentInputAt(H: Hash, layer: seq<Digest>, p: nat)
    requires |layer| > 1 && 2 * p < |layer|
    ensures layer[2 * p] + RightChild(layer, p) in ParentInputs(H, layer)
  {
  }

  lemma ChildrenOfEqualParents(H: Hash, a: seq<Digest>, b: seq<Digest>, j: nat)
    requires |a| > 1 && |b| > 1
    requires Parents(H, a)[Source((|a| + 1) / 2, j / 2)] == Parents(H, b)[Source((|b| + 1) / 2, j / 2)]
    ensures a[Source(|a|, j)] == b[Source(|b|, j)] || CollisionIn(H, BothParents(H, a, b))
  {
    SourceChildren(a, j);
    SourceChildren(b, j);
    var p, q := Source((|a| + 1) / 2, j / 2), Source((|b| + 1) / 2, j / 2);
    ParentInputAt(H, a, p);
    ParentInputAt(H, b, q);
    var x, y := a[2 * p] + RightChild(a, p), b[2 * q] + RightChild(b, q);
    EqualOrCollision(H, x, y, BothParents(H, a, b));
    if x == y {
      assert x[..32] == y[..32] && x[32..] == y[32..];
    }
  }

  lemma {:induction false} EqualRootsAgree(H: Hash, a: seq<Digest>, b: seq<Digest>)
    requires a != [] && b != [] && Depth(|a|) == Depth(|b|) && Root(H, a) == Root(H, b)
    ensures Agree(a, b) || CollisionIn(H, BothParents(H, a, b))
    decreases |a|
  {
    if |a| > 1 {
      var pa, pb := Parents(H, a), Parents(H, b);
      EqualRootsAgree(H, pa, pb);
      CollisionGrows(H, BothParents(H, pa, pb), BothParents(H, a, b));
      if Agree(pa, pb) {
        forall j: nat
          ensures a[Source(|a|, j)] == b[Source(|b|, j)] || CollisionIn(H, BothParents(H, a, b))
        {
          assert pa[Source(|pa|, j / 2)] == pb[Source(|pb|, j / 2)];
          ChildrenOfEqualParents(H, a, b, j);
        }
      }
    }
  }

  // ------------------------------------------------------------- layers of unequal depth

  /** If a shallower tree has the root of a deeper one, a 64-byte string hashes to its first leaf. */
  lemma {:induction false} ShallowRoot(H: Hash, a: seq<Digest>, b: seq<Digest>) returns (x: Bytes)
    requires a != [] && b != [] && Depth(|a|) < Depth(|b|) && Root(H, a) == Root(H, b)
    ensures CollisionIn(H, BothParents(H, a, b)) || (x in ParentInputs(H, b) && |x| == 64 && H(x) == a[0])
    decreases |b|
  {
    var next := Parents(H, b);
    CollisionGrows(H, BothParents(H, a, next), BothParents(H, a, b));
    if Depth(|a|) == Depth(|next|) {
      EqualRootsAgree(H, a, next);
      x := b[0] + RightChild(b, 0);
      ParentInputAt(H, b, 0);
      SourceInRange(|a|, 0);
      SourceInRange(|next|, 0);
      if Agree(a, next) {
        assert a[Source(|a|, 0)] == next[Source(|next|, 0)];
      }
    } else {
      x := ShallowRoot(H, a, next);
    }
  }

  lemma UnequalDepthsCollide(H: Hash, a: seq<Bytes>, b: seq<Bytes>)
    requires a != [] && b != [] && |a[0]| != 64 && Depth(|a|) < Depth(|b|)
    requires Root(H, Leaves(H, a)) == Root(H, Leaves(H, b))
    ensures CollisionIn(H, BothBuilds(H, a, b))
  {
    var x := ShallowRoot(H, Leaves(H, a), Leaves(H, b));
    CollisionGrows(H, BothParents(H, Leaves(H, a), Leaves(H, b)), BothBuilds(H, a, b));
    if H(x) == Leaves(H, a)[0] && |x| == 64 && x in BothBuilds(H, a, b) {
      EqualOrCollision(H, x, a[0], BothBuilds(H, a, b));
    }
  }

  // ------------------------------------------------------------- equal roots, exactly

  /** Positions repeat with the period of the filled-up tree. */
  lemma {:induction false} SourcePeriodic(n: nat, j: nat)
    requires n > 0
    ensures Source(n, j % Pow2(Depth(n))) == Source(n, j)
    decreases n
  {
    if n > 1 {
      var p := Pow2(Depth((n + 1) / 2));
      HalfModulo(j, p);
      SourcePeriodic((n + 1) / 2, j / 2);
    }
  }

  lemma CompletedAgree(H: Hash, a: seq<Bytes>, b: seq<Bytes>)
    requires a != [] && b != [] && Completed(a) == Completed(b)
    ensures Depth(|a|) == Depth(|b|) && Agree(Leaves(H, a), Leaves(H, b))
  {
    Pow2Injective(Depth(|a|), Depth(|b|));
    forall j: nat
      ensures a[Source(|a|, j)] == b[Source(|b|, j)]
    {
      SourcePeriodic(|a|, j);
      SourcePeriodic(|b|, j);
      var k := j % Pow2(Depth(|a|));
      assert Completed(a)[k] == Completed(b)[k];
    }
  }

  lemma {:induction false} Pow2Injective(i: nat, j: nat)
    requires Pow2(i) == Pow2(j)
    ensures i == j
  {
    if i < j {
      Pow2Monotone(i, j - 1);
    } else if j < i {
      Pow2Monotone(j, i - 1);
    }
  }

  lemma AgreeingLeaves(H: Hash, a: seq<Bytes>, b: seq<Bytes>)
    requires a != [] && b != [] && Depth(|a|) == Depth(|b|) && Agree(Leaves(H, a), Leaves(H, b))
    ensures Completed(a) == Completed(b) || CollisionIn(H, BothBuilds(H, a, b))
  {
    var inputs := BothBuilds(H, a, b);
    if !CollisionIn(H, inputs) {
      forall j | 0 <= j < Pow2(Depth(|a|))
        ensures Completed(a)[j] == Completed(b)[j]
      {
        var x, y := a[Source(|a|, j)], b[Source(|b|, j)];
        assert Leaves(H, a)[Source(|a|, j)] == Leaves(H, b)[Source(|b|, j)];
        EqualOrCollision(H, x, y, inputs);
      }
    }
  }

  /** Two lists of blocks, none of them 64 bytes long, have one root exactly when they complete to
      the same list, or the two builds hash two different strings to one digest. */
  lemma SameRootExactly(H: Hash, a: seq<Bytes>, b: seq<Bytes>)
    requires a != [] && b != []
    requires forall i :: 0 <= i < |a| ==> |a[i]| != 64
    requires forall i :: 0 <= i < |b| ==> |b[i]| != 64
    ensures Completed(a) == Completed(b) ==> Root(H, Leaves(H, a)) == Root(H, Leaves(H, b))
    ensures Root(H, Leaves(H, a)) == Root(H, Leaves(H, b)) ==> Completed(a) == Completed(b) || CollisionIn(H, BothBuilds(H, a, b))
  {
    var la, lb := Leaves(H, a), Leaves(H, b);
    if Completed(a) == Completed(b) {
      CompletedAgree(H, a, b);
      AgreeingRoots(H, la, lb);
    }
    if Root(H, la) == Root(H, lb) {
      if Depth(|a|) < Depth(|b|) {
        UnequalDepthsCollide(H, a, b);
      } else if Depth(|b|) < Depth(|a|) {
        UnequalDepthsCollide(H, b, a);
        assert BothBuilds(H, a, b) == BothBuilds(H, b, a);
      } else {
        EqualRootsAgree(H, la, lb);
        CollisionGrows(H, BothParents(H, la, lb), BothBuilds(H, a, b));
        if Agree(la, lb) {
          AgreeingLeaves(H, a, b);
        }
      }
    }
  }

  /** Completing keeps the blocks in front, and changes nothing when their number is a power of two. */
  lemma CompletedPrefix(blocks: seq<Bytes>)
    requires blocks != []
    ensures |blocks| <= |Completed(blocks)| && Completed(blocks)[..|blocks|] == blocks
    ensures (exists k: nat :: |blocks| == Pow2(k)) <==> Completed(blocks) == blocks
  {
    var n := |blocks|;
    DepthIsCeilLog2(n);
    forall j | 0 <= j < n
      ensures Completed(blocks)[j] == blocks[j]
    {
      SourceInRange(n, j);
    }
    if k: nat :| n == Pow2(k) {
      Pow2Monotone(Depth(n), k);
      assert Completed(blocks)[..n] == Completed(blocks);
    }
    if Completed(blocks) == blocks {
      assert n == Pow2(Depth(n));
    }
  }

  /** With the block count fixed from outside, the root fixes the blocks. */
  lemma RootAndCountFixBlocks(H: Hash, a: seq<Bytes>, b: seq<Bytes>)
    requires a != [] && |a| == |b|
    requires forall i :: 0 <= i < |a| ==> |a[i]| != 64
    requires forall i :: 0 <= i < |b| ==> |b[i]| != 64
    requires Root(H, Leaves(H, a)) == Root(H, Leaves(H, b))
    ensures a == b || CollisionIn(H, BothBuilds(H, a, b))
  {
    SameRootExactly(H, a, b);
    CompletedPrefix(a);
    CompletedPrefix(b);
  }

  /** A completed list has the depth, and so the root, of the list it came from. */
  lemma CompletedKeepsRoot(H: Hash, blocks: seq<Bytes>)
    requires blocks != []
    ensures Depth(|Completed(blocks)|) == Depth(|blocks|)
    ensures Completed(Completed(blocks)) == Completed(blocks)
    ensures Root(H, Leaves(H, Completed(blocks))) == Root(H, Leaves(H, blocks))
  {
    var full, d := Completed(blocks), Depth(|blocks|);
    DepthIsCeilLog2(|full|);
    Pow2Monotone(Depth(|full|), d);
    Pow2Injective(Depth(|full|), d);
    CompletedPrefix(full);
    CompletedAgree(H, full, blocks);
    AgreeingRoots(H, Leaves(H, full), Leaves(H, blocks));
  }

  /** The root leaves the count open exactly when it is not a power of two: then, and only then, the
      list can grow at the same depth without a change of root. */
  lemma GrowsUnderItsRootExactly(H: Hash, blocks: seq<Bytes>)
    requires blocks != []
    ensures (exists more: seq<Bytes> :: GrowsBy(H, blocks, more))
            <==> !exists k: nat :: |blocks| == Pow2(k)
  {
    hide Leaves, Root, Depth, Completed;
    CompletedPrefix(blocks);
    if Completed(blocks) != blocks {
      GrowsToCompleted(H, blocks);
    } else {
      FullCannotGrow(blocks);
    }
  }

  ghost predicate GrowsBy(H: Hash, blocks: seq<Bytes>, more: seq<Bytes>)
    requires blocks != []
  {
    more != [] && Depth(|blocks + more|) == Depth(|blocks|) && Root(H, Leaves(H, blocks + more)) == Root(H, Leaves(H, blocks))
  }

  lemma GrowsToCompleted(H: Hash, blocks: seq<Bytes>)
    requires blocks != [] && Completed(blocks) != blocks
    ensures |blocks| <= |Completed(blocks)| && GrowsBy(H, blocks, Completed(blocks)[|blocks|..])
  {
    hide Leaves, Root, Depth, Completed;
    CompletedPrefix(blocks);
    CompletedKeepsRoot(H, blocks);
    var full := Completed(blocks);
    assert blocks + full[|blocks|..] == full;
  }

  lemma FullCannotGrow(blocks: seq<Bytes>)
    requires blocks != [] && Completed(blocks) == blocks
    ensures forall more: seq<Bytes> :: more != [] ==> Depth(|blocks + more|) != Depth(|blocks|)
  {
    assert |blocks| == Pow2(Depth(|blocks|));
    hide Completed, Depth;
    forall more: seq<Bytes> | more != []
      ensures Depth(|blocks + more|) != Depth(|blocks|)
    {
      DepthIsCeilLog2(|blocks + more|);
    }
  }

  // ------------------------------------------------------------- the root from the top

  /** The root of a full tree, defined from the top: the hash of the roots of its two halves. */
  function TopDown(H: Hash, layer: seq<Digest>): (root: Digest)
    requires layer != []
    decreases |layer|
  {
    if |layer| == 1 then layer[0]
    else H(TopDown(H, layer[..|layer| / 2]) + TopDown(H, layer[|layer| / 2..]))
  }

  lemma ParentsOfHalves(H: Hash, layer: seq<Digest>, half: nat)
    requires |layer| == 2 * half && half % 2 == 0
    ensures Parents(H, layer)[..half / 2] == Parents(H, layer[..half])
    ensures Parents(H, layer)[half / 2..] == Parents(H, layer[half..])
  {
    hide ParentHash;
  }

  lemma HalvesMeet(H: Hash, layer: seq<Digest>, half: nat)
    requires |layer| == 2 * half && half % 2 == 0 && half > 0
    requires TopDown(H, layer[..half]) == TopDown(H, Parents(H, layer[..half]))
    requires TopDown(H, layer[half..]) == TopDown(H, Parents(H, layer[half..]))
    ensures TopDown(H, layer) == TopDown(H, Parents(H, layer))
  {
    hide Parents, TopDown;
    ParentsOfHalves(H, layer, half);
    TopDownSplits(H, layer, half);
    TopDownSplits(H, Parents(H, layer), half / 2);
  }

  lemma TopDownSplits(H: Hash, layer: seq<Digest>, half: nat)
    requires |layer| == 2 * half && half > 0
    ensures TopDown(H, layer) == H(TopDown(H, layer[..half]) + TopDown(H, layer[half..]))
  {
  }

  lemma TopDownOfPair(H: Hash, layer: seq<Digest>)
    requires |layer| == 2
    ensures TopDown(H, layer) == TopDown(H, Parents(H, layer))
  {
    assert layer[..1][0] == layer[0] && layer[1..][0] == layer[1];
    assert Parents(H, layer)[0] == ParentHash(H, layer[0], layer[1]);
  }

  lemma {:induction false} TopDownOfParents(H: Hash, layer: seq<Digest>, d: nat)
    requires d > 0 && |layer| == Pow2(d)
    ensures TopDown(H, layer) == TopDown(H, Parents(H, layer))
    decreases d
  {
    hide Parents, TopDown;
    if d > 1 {
      var half := Pow2(d - 1);
      assert half == 2 * Pow2(d - 2);
      TopDownOfParents(H, layer[..half], d - 1);
      TopDownOfParents(H, layer[half..], d - 1);
      HalvesMeet(H, layer, half);
    } else {
      TopDownOfPair(H, layer);
    }
  }

  lemma {:induction false} FullRootIsTopDown(H: Hash, layer: seq<Digest>, d: nat)
    requires |layer| == Pow2(d)
    ensures Root(H, layer) == TopDown(H, layer)
    decreases d
  {
    if d > 0 {
      hide TopDown, Parents;
      TopDownOfParents(H, layer, d);
      FullRootIsTopDown(H, Parents(H, layer), d - 1);
    }
  }

  /** The loops over layers compute the recursive root: leaves are hashed as they are, the left half
      comes before the right, and missing blocks repeat as in the completed list. */
  lemma RootIsTopDown(H: Hash, blocks: seq<Bytes>)
    requires blocks != []
    ensures Root(H, Leaves(H, blocks)) == TopDown(H, Leaves(H, Completed(blocks)))
    ensures forall i :: 0 <= i < |Completed(blocks)| ==> Leaves(H, Completed(blocks))[i] == H(Completed(blocks)[i])
  {
    CompletedKeepsRoot(H, blocks);
    hide Completed, TopDown, Root, Depth;
    FullRootIsTopDown(H, Leaves(H, Completed(blocks)), Depth(|blocks|));
  }

  // ------------------------------------------------------------- what a full set of proofs says

  /** Everything hashed while each node of the layer climbs by its own path. */
  ghost function AllClimbs(H: Hash, layer: seq<Digest>, paths: seq<seq<Digest>>): (inputs: set<Bytes>)
    requires |paths| == |layer|
  {
    set i, x | 0 <= i < |layer| && x in ClimbInputs(H, layer[i], i, paths[i]) :: x
  }

  ghost predicate AllClimbTo(H: Hash, layer: seq<Digest>, paths: seq<seq<Digest>>, root: Digest, d: nat)
    requires |paths| == |layer|
  {
    forall i :: 0 <= i < |layer| ==> |paths[i]| == d && Climb(H, layer[i], i, paths[i]) == root
  }

  lemma ClimbIncluded(H: Hash, layer: seq<Digest>, paths: seq<seq<Digest>>, i: nat)
    requires |paths| == |layer| && i < |layer|
    ensures ClimbInputs(H, layer[i], i, paths[i]) <= AllClimbs(H, layer, paths)
  {
  }

  /** The paths one level up: the left child's, without its first step. */
  function ParentPaths(paths: seq<seq<Digest>>): (up: seq<seq<Digest>>)
    requires |paths| % 2 == 0 && forall i :: 0 <= i < |paths| ==> paths[i] != []
    ensures |up| == |paths| / 2
  {
    seq(|paths| / 2, p requires 0 <= p < |paths| / 2 => paths[2 * p][1..])
  }

  /** Two siblings that climb to one root name each other, so they meet in their own parent. */
  lemma SiblingsMeet(H: Hash, layer: seq<Digest>, paths: seq<seq<Digest>>, root: Digest, d: nat, p: nat)
    requires |paths| == |layer| && |layer| % 2 == 0 && d > 0 && AllClimbTo(H, layer, paths, root, d) && 2 * p < |layer|
    ensures H(StepInput(layer[2 * p], 2 * p, paths[2 * p][0])) == Parents(H, layer)[p] || CollisionIn(H, AllClimbs(H, layer, paths))
  {
    var i, k := 2 * p, 2 * p + 1;
    assert i % 2 == 0 && k % 2 == 1 && i / 2 == p && k / 2 == p;
    var x, y := StepInput(layer[i], i, paths[i][0]), StepInput(layer[k], k, paths[k][0]);
    var inputs := AllClimbs(H, layer, paths);
    ClimbIncluded(H, layer, paths, i);
    ClimbIncluded(H, layer, paths, k);
    ClimbInjective(H, H(x), paths[i][1..], H(y), paths[k][1..], p);
    CollisionGrows(H, ClimbInputs(H, H(x), p, paths[i][1..]) + ClimbInputs(H, H(y), p, paths[k][1..]), inputs);
    if H(x) == H(y) {
      EqualOrCollision(H, x, y, inputs);
      if x == y {
        assert x[32..] == paths[i][0] && y[32..] == layer[k];
      }
    }
  }

  lemma ParentsClimb(H: Hash, layer: seq<Digest>, paths: seq<seq<Digest>>, root: Digest, d: nat)
    requires |paths| == |layer| && |layer| > 1 && |layer| % 2 == 0 && d > 0 && AllClimbTo(H, layer, paths, root, d)
    ensures || CollisionIn(H, AllClimbs(H, layer, paths))
            || (&& AllClimbTo(H, Parents(H, layer), ParentPaths(paths), root, d - 1)
                && AllClimbs(H, Parents(H, layer), ParentPaths(paths)) <= AllClimbs(H, layer, paths))
  {
    var next, up := Parents(H, layer), ParentPaths(paths);
    if !CollisionIn(H, AllClimbs(H, layer, paths)) {
      forall p | 0 <= p < |next|
        ensures |up[p]| == d - 1 && Climb(H, next[p], p, up[p]) == root
        ensures ClimbInputs(H, next[p], p, up[p]) <= AllClimbs(H, layer, paths)
      {
        assert (2 * p) / 2 == p;
        SiblingsMeet(H, layer, paths, root, d, p);
        ClimbIncluded(H, layer, paths, 2 * p);
      }
    }
  }

  /** When the layer is a power of two wide and every node climbs to `root` in as many steps as the
      tree is deep, `root` is the layer's own root, or a collision. */
  lemma {:induction false} FullClimbsBindRoot(H: Hash, layer: seq<Digest>, paths: seq<seq<Digest>>, root: Digest, d: nat)
    requires |layer| == Pow2(d) && |paths| == |layer| && AllClimbTo(H, layer, paths, root, d)
    ensures root == Root(H, layer) || CollisionIn(H, AllClimbs(H, layer, paths))
    decreases d
  {
    hide AllClimbs, ClimbInputs, Climb, AllClimbTo, Parents, ParentPaths;
    if d == 0 {
      LoneClimb(H, layer, paths, root);
    } else if !CollisionIn(H, AllClimbs(H, layer, paths)) {
      WholeClimbs(paths, layer, H, root, d);
      ParentsClimb(H, layer, paths, root, d);
      FullClimbsBindRoot(H, Parents(H, layer), ParentPaths(paths), root, d - 1);
      CollisionGrows(H, AllClimbs(H, Parents(H, layer), ParentPaths(paths)), AllClimbs(H, layer, paths));
    }
  }

  lemma LoneClimb(H: Hash, layer: seq<Digest>, paths: seq<seq<Digest>>, root: Digest)
    requires |layer| == 1 == |paths| && AllClimbTo(H, layer, paths, root, 0)
    ensures root == Root(H, layer)
  {
    assert |paths[0]| == 0 && Climb(H, layer[0], 0, paths[0]) == root;
  }

  lemma WholeClimbs(paths: seq<seq<Digest>>, layer: seq<Digest>, H: Hash, root: Digest, d: nat)
    requires |paths| == |layer| && d > 0 && AllClimbTo(H, layer, paths, root, d)
    ensures forall i :: 0 <= i < |paths| ==> paths[i] != []
  {
  }
}
