/** The Merkle tree of a block body: tagged leaves, odd levels padded with the all-zero node. */
module BlockMerkle {
  import opened Outcomes
  import opened Merkle

  datatype BodyError = EmptyLeaves | IndexOutOfBounds(index: nat, total: nat)

  /** Every leaf hashed under the leaf prefix. */
  function Tagged(leaves: seq<Hash>): (r: seq<Hash>)
    ensures |r| == |leaves|
    ensures forall i :: 0 <= i < |r| ==> r[i] == Leaf(leaves[i])
  {
    seq(|leaves|, i requires 0 <= i < |leaves| => Leaf(leaves[i]))
  }

  function Root(leaves: seq<Hash>): Hash {
    if leaves == [] then Zero else Fold(Tagged(leaves), Zero)
  }

  predicate Accepts(leaf: Hash, index: nat, proof: seq<Hash>, root: Hash) {
    Climb(Leaf(leaf), index, proof) == root
  }

  method TagLeaves(values: seq<Hash>) returns (level: seq<Hash>)
    ensures level == Tagged(values)
  {
    level := values;
    for k := 0 to |values|
      invariant |level| == |values|
      invariant forall i :: 0 <= i < k ==> level[i] == Leaf(values[i])
      invariant forall i :: k <= i < |values| ==> level[i] == values[i]
    {
      level := level[k := Leaf(level[k])];
    }
  }

  method BuildNextLevel(values: seq<Hash>, first: bool) returns (next: seq<Hash>)
    ensures next == NextLevel(if first then Tagged(values) else values, Zero)
  {
    var level := values;
    if first {
      level := TagLeaves(level);
    }
    ghost var tagged := level;
    if |level| % 2 != 0 {
      level := level + [Zero];
    }
    next := [];
    for chunk := 0 to |level| / 2
      invariant next == NextLevel(tagged, Zero)[..chunk]
    {
      next := next + [Node(level[2 * chunk], level[2 * chunk + 1])];
    }
  }

  method CalculateMerkleRoot(leaves: seq<Hash>) returns (root: Hash)
    ensures root == Root(leaves)
  {
    if |leaves| == 0 {
      return Zero;
    }
    var level, first := leaves, true;
    while |level| > 1
      invariant level != [] && (first ==> level == leaves)
      invariant Fold(if first then Tagged(level) else level, Zero) == Root(leaves)
      decreases |level|
    {
      level := BuildNextLevel(level, first);
      first := false;
    }
    if first {
      return Leaf(level[0]);
    }
    return level[0];
  }

  /** One level of proof generation: the sibling is recorded once, although the index that selects
      it is halved while the pairs are still being visited. */
  method ProofLevel(level: seq<Hash>, index: nat, proof: seq<Hash>)
    returns (next: seq<Hash>, newIndex: nat, newProof: seq<Hash>)
    requires index < |level|
    ensures next == NextLevel(level, Zero) && newIndex == index / 2
    ensures newProof == proof + [Sibling(level, Zero, index)]
  {
    var padded := if |level| % 2 == 0 then level else level + [Zero];
    next, newIndex, newProof := [], index, proof;
    for chunk := 0 to |padded| / 2
      invariant next == NextLevel(level, Zero)[..chunk]
      invariant newIndex == if index / 2 < chunk then index / 2 else index
      invariant newProof == if index / 2 < chunk then proof + [Sibling(level, Zero, index)] else proof
    {
      var left, right := 2 * chunk, 2 * chunk + 1;
      if left == newIndex || right == newIndex {
        newProof := newProof + [padded[if left == newIndex then right else left]];
        newIndex := newIndex / 2;
      }
      next := next + [Node(padded[left], padded[right])];
    }
  }

  method GenerateMerkleProof(leaves: seq<Hash>, index: nat) returns (r: Result<seq<Hash>, BodyError>)
    ensures leaves == [] ==> r == Err(EmptyLeaves)
    ensures leaves != [] && index >= |leaves| ==> r == Err(IndexOutOfBounds(index, |leaves|))
    ensures index < |leaves| ==> r == Ok(Path(Tagged(leaves), Zero, index))
    ensures r.Ok? ==> |r.value| == Depth(|leaves|) && Accepts(leaves[index], index, r.value, Root(leaves))
  {
    if |leaves| == 0 {
      return Err(EmptyLeaves);
    }
    if index >= |leaves| {
      return Err(IndexOutOfBounds(index, |leaves|));
    }
    var proof, level, first := [], leaves, true;
    var current: nat := index;
    ghost var tagged := Tagged(leaves);
    while |level| > 1
      invariant current < |level| == |tagged|
      invariant if first then level == leaves && tagged == Tagged(leaves) else level == tagged
      invariant proof + Path(tagged, Zero, current) == Path(Tagged(leaves), Zero, index)
      decreases |level|
    {
      if first {
        level := TagLeaves(level);
        first := false;
      }
      CollectStep(proof, level, Zero, current);
      level, current, proof := ProofLevel(level, current, proof);
      tagged := level;
    }
    ProofOfEachLeaf(leaves, index);
    assert proof == Path(Tagged(leaves), Zero, index) by {
      assert Path(tagged, Zero, current) == [] && proof + [] == proof;
    }
    return Ok(proof);
  }

  method VerifyMerkleProof(leaf: Hash, index: nat, proof: seq<Hash>, root: Hash) returns (accepted: bool)
    ensures accepted <==> Accepts(leaf, index, proof, root)
  {
    var current, idx := Leaf(leaf), index;
    for k := 0 to |proof|
      invariant Climb(current, idx, proof[k..]) == Climb(Leaf(leaf), index, proof)
    {
      assert proof[k..][1..] == proof[k + 1..];
      if idx % 2 == 0 {
        current := Node(current, proof[k]);
      } else {
        current := Node(proof[k], current);
      }
      idx := idx / 2;
    }
    accepted := current == root;
  }

  // ----- what the tree promises ----------------------------------------------------------

  lemma {:induction false} ProofOfEachLeaf(leaves: seq<Hash>, index: nat)
    requires index < |leaves|
    ensures |Path(Tagged(leaves), Zero, index)| == Depth(|leaves|)
    ensures Accepts(leaves[index], index, Path(Tagged(leaves), Zero, index), Root(leaves))
  {
    PositionIsLow(index, |leaves|);
    PathLength(Tagged(leaves), Zero, index);
    PathClimbs(Tagged(leaves), Zero, index, index);
  }

  /** Distinct ordered leaf lists, of any lengths, have distinct roots. */
  lemma {:induction false} RootBinding(a: seq<Hash>, b: seq<Hash>)
    ensures Root(a) == Root(b) <==> a == b
  {
    if Root(a) == Root(b) {
      if a != [] { RootIsTagged(a); }
      if b != [] { RootIsTagged(b); }
      if a != [] && b != [] {
        RootDeterminesList(Tagged(a), Tagged(b), Zero);
        forall i | 0 <= i < |a|
          ensures a[i] == b[i]
        {
          assert Tagged(a)[i] == Tagged(b)[i];
        }
      }
    }
  }

  lemma {:induction false} RootIsTagged(leaves: seq<Hash>)
    requires leaves != []
    ensures Root(leaves).Leaf? || Root(leaves).Node?
  {
    SpineReachesFirst(Tagged(leaves), Zero);
    assert Depth(|leaves|) > 0 ==> LeftSpine(Root(leaves), 0).Node?;
  }

  /** A proof is accepted against the root of a list exactly when it is the one generated for the
      leaf at position `index mod 2^depth`, a position inside the list; nothing is accepted against
      the root of the empty list. */
  lemma {:induction false} AcceptedExactly(leaves: seq<Hash>, leaf: Hash, index: nat, proof: seq<Hash>)
    ensures Accepts(leaf, index, proof, Root(leaves)) <==>
      var i := index % TwoTo(Depth(|leaves|));
      i < |leaves| && leaf == leaves[i] && proof == Path(Tagged(leaves), Zero, i)
    ensures Accepts(leaf, index, proof, Root(leaves)) ==> |proof| == Depth(|leaves|)
  {
    if leaves == [] {
      var end := ClimbSplit(Leaf(leaf), index, proof, |proof|);
      assert proof[|proof|..] == [];
    } else {
      ClimbExactly(Tagged(leaves), Zero, Leaf(leaf), index, proof);
      if Accepts(leaf, index, proof, Root(leaves)) {
        PathLength(Tagged(leaves), Zero, index % TwoTo(Depth(|leaves|)));
      }
    }
  }
}
