/** The general Merkle tree: leaves enter untagged, odd levels are padded with a dedicated node. */
module MerkleTree {
  import opened Outcomes
  import opened Merkle

  datatype ProofError = IndexOutOfBounds

  /** All levels of the tree, the leaves first and the root last. */
  function Layers(leaves: seq<Hash>): (r: seq<seq<Hash>>)
    requires leaves != []
    ensures |r| == Depth(|leaves|) + 1 && r[0] == leaves && r[|r| - 1] == [Fold(leaves, PadNode)]
    decreases |leaves|
  {
    if |leaves| == 1 then [leaves] else [leaves] + Layers(NextLevel(leaves, PadNode))
  }

  /** Each layer is computed from the one before it, and only the last holds a single node. */
  lemma {:induction false} LayerStep(leaves: seq<Hash>, i: nat)
    requires leaves != [] && i < Depth(|leaves|)
    ensures |Layers(leaves)[i]| > 1 && Layers(leaves)[i + 1] == NextLevel(Layers(leaves)[i], PadNode)
    decreases i
  {
    if i > 0 { LayerStep(NextLevel(leaves, PadNode), i - 1); }
  }

  function Root(leaves: seq<Hash>): Hash {
    if leaves == [] then Zero else Fold(leaves, PadNode)
  }

  method BuildNextLayerInto(current: seq<Hash>, pad: Hash) returns (nextLayer: seq<Hash>)
    ensures nextLayer == NextLevel(current, pad)
  {
    var next := new Hash[(|current| + 1) / 2](_ => Zero);
    for slot := 0 to next.Length
      invariant forall i :: 0 <= i < slot ==> next[i] == NextLevel(current, pad)[i]
    {
      next[slot] := Node(current[2 * slot], if 2 * slot + 1 < |current| then current[2 * slot + 1] else pad);
    }
    nextLayer := next[..];
  }

  /** Every slot is filled on its own, in no particular order. */
  method BuildNextLayerParallelInto(current: seq<Hash>, pad: Hash) returns (nextLayer: seq<Hash>)
    ensures nextLayer == NextLevel(current, pad)
  {
    var next := new Hash[(|current| + 1) / 2](_ => Zero);
    forall slot | 0 <= slot < next.Length {
      next[slot] := Node(current[2 * slot], if 2 * slot + 1 < |current| then current[2 * slot + 1] else pad);
    }
    nextLayer := next[..];
  }

  lemma {:induction false} ProofOfEachLeaf(leaves: seq<Hash>, index: nat)
    requires index < |leaves|
    ensures |Path(leaves, PadNode, index)| == Depth(|leaves|)
    ensures Climb(leaves[index], index, Path(leaves, PadNode, index)) == Root(leaves)
  {
    PositionIsLow(index, |leaves|);
    PathLength(leaves, PadNode, index);
    PathClimbs(leaves, PadNode, index, index);
  }

  method SiblingOf(layer: seq<Hash>, current: nat) returns (sibling: Hash)
    requires current < |layer|
    ensures sibling == Sibling(layer, PadNode, current)
  {
    if current % 2 != 0 {
      sibling := layer[current - 1];
    } else if current + 1 < |layer| {
      sibling := layer[current + 1];
    } else {
      sibling := PadNode;
    }
  }

  class Tree {
    var leaves: seq<Hash>
    var layers: seq<seq<Hash>>

    ghost predicate Valid()
      reads this
    {
      layers == if leaves == [] then [] else Layers(leaves)
    }

    constructor (leaves: seq<Hash>)
      ensures Valid() && this.leaves == leaves
    {
      this.leaves := leaves;
      this.layers := [];
      new;
      BuildLayers();
    }

    method BuildLayers()
      modifies `layers
      ensures Valid()
    {
      if |leaves| == 0 {
        layers := [];
        return;
      }
      var built, current := [leaves], leaves;
      while |current| != 1
        invariant current != []
        invariant built + Layers(current)[1..] == Layers(leaves)
        decreases |current|
      {
        assert Layers(current)[1..] == Layers(NextLevel(current, PadNode));
        current := BuildNextLayerInto(current, PadNode);
        built := built + [current];
      }
      assert Layers(current)[1..] == [];
      layers := built;
    }

    method AppendLeaf(hash: Hash)
      modifies this
      ensures Valid() && leaves == old(leaves) + [hash]
    {
      leaves := leaves + [hash];
      BuildLayers();
    }

    method TreeRoot() returns (root: Hash)
      requires Valid()
      ensures root == Root(leaves)
    {
      if |layers| > 0 {
        var last := layers[|layers| - 1];
        return if |last| > 0 then last[0] else Zero;
      }
      return Zero;
    }

    method ParallelRoot() returns (root: Hash)
      ensures root == Root(leaves)
    {
      if |leaves| == 0 {
        return Zero;
      }
      if |leaves| == 1 {
        return leaves[0];
      }
      var current := leaves;
      while |current| > 1
        invariant current != [] && Fold(current, PadNode) == Root(leaves)
        decreases |current|
      {
        current := BuildNextLayerParallelInto(current, PadNode);
      }
      return current[0];
    }

    method GenerateProof(index: nat) returns (r: Result<seq<Hash>, ProofError>)
      requires Valid()
      ensures r.Err? <==> index >= |leaves|
      ensures r.Ok? ==> r.value == Path(leaves, PadNode, index) && |r.value| == Depth(|leaves|)
      ensures r.Ok? ==> Climb(leaves[index], index, r.value) == Root(leaves)
    {
      if index >= |leaves| {
        return Err(IndexOutOfBounds);
      }
      var proof: seq<Hash> := [];
      var current: nat := index;
      ghost var path := Path(leaves, PadNode, index);
      for i := 0 to |layers| - 1
        invariant current < |layers[i]| && proof + Path(layers[i], PadNode, current) == path
      {
        LayerStep(leaves, i);
        CollectStep(proof, layers[i], PadNode, current);
        var sibling := SiblingOf(layers[i], current);
        proof, current := proof + [sibling], current / 2;
      }
      assert proof + [] == proof;
      ProofOfEachLeaf(leaves, index);
      return Ok(proof);
    }
  }

  method VerifyProof(leaf: Hash, proof: seq<Hash>, root: Hash, index: nat) returns (accepted: bool)
    ensures accepted <==> Climb(leaf, index, proof) == root
  {
    var current, idx := leaf, index;
    for k := 0 to |proof|
      invariant Climb(current, idx, proof[k..]) == Climb(leaf, index, proof)
    {
      assert proof[k..][1..] == proof[k + 1..];
      current := if idx % 2 == 1 then Node(proof[k], current) else Node(current, proof[k]);
      idx := idx / 2;
    }
    accepted := current == root;
  }

  // ----- what the tree promises ----------------------------------------------------------

  /** Leaf lists of equal length share a root only when they are equal. */
  lemma {:induction false} EqualLengthBinding(a: seq<Hash>, b: seq<Hash>)
    requires |a| == |b|
    ensures Root(a) == Root(b) <==> a == b
  {
    if a != [] && Root(a) == Root(b) { FoldInjective(a, b, PadNode); }
  }

  /** Over leaves that are neither tree nodes nor the padding node nor zero, the root determines the list. */
  lemma {:induction false} GenuineBinding(a: seq<Hash>, b: seq<Hash>)
    requires Genuine(a, PadNode) && Genuine(b, PadNode) && Zero !in a && Zero !in b
    ensures Root(a) == Root(b) <==> a == b
  {
    if Root(a) == Root(b) {
      if a != [] { RootNotZero(a); }
      if b != [] { RootNotZero(b); }
      if a != [] && b != [] { RootDeterminesList(a, b, PadNode); }
    }
  }

  lemma {:induction false} RootNotZero(leaves: seq<Hash>)
    requires leaves != [] && Zero !in leaves
    ensures Root(leaves) != Zero
  {
    SpineReachesFirst(leaves, PadNode);
    assert Depth(|leaves|) > 0 ==> LeftSpine(Root(leaves), 0).Node?;
  }

  ghost predicate OnlyListWithItsRoot(leaves: seq<Hash>) {
    forall other: seq<Hash> :: Root(other) == Root(leaves) ==> other == leaves
  }

  /** Leaves carry no tag, so in general a root does not determine the list: it does so exactly for
      a single leaf that is neither zero nor itself a tree node. */
  lemma {:induction false} UniqueRootExactly(leaves: seq<Hash>)
    ensures OnlyListWithItsRoot(leaves) <==> |leaves| == 1 && !leaves[0].Zero? && !leaves[0].Node?
  {
    if |leaves| == 1 && !leaves[0].Zero? && !leaves[0].Node? {
      forall other: seq<Hash> | Root(other) == Root(leaves)
        ensures other == leaves
      {
        SingleLeafRoot(leaves[0], other);
      }
    } else {
      var other := if leaves == [] then [Zero]
        else if |leaves| > 1 then [Root(leaves)]
        else if leaves[0].Zero? then []
        else [leaves[0].left, leaves[0].right];
      if |leaves| == 1 && leaves[0].Node? {
        assert NextLevel(other, PadNode) == leaves;
        assert Fold(other, PadNode) == Fold(leaves, PadNode);
      }
      assert Root(other) == Root(leaves) && |other| != |leaves|;
    }
  }

  lemma {:induction false} SingleLeafRoot(leaf: Hash, other: seq<Hash>)
    requires !leaf.Zero? && !leaf.Node? && Root(other) == leaf
    ensures other == [leaf]
  {
    SpineReachesFirst(other, PadNode);
    assert Depth(|other|) > 0 ==> LeftSpine(Root(other), 0).Node?;
    assert |other| == 1;
  }

  /** Between genuine leaves a proof is accepted exactly when it is the one generated for the position
      its index names and that position holds the leaf. */
  lemma {:induction false} AcceptedExactly(leaves: seq<Hash>, leaf: Hash, index: nat, proof: seq<Hash>)
    requires leaves != [] && Genuine(leaves, PadNode) && leaf != PadNode && !leaf.Node?
    ensures Climb(leaf, index, proof) == Root(leaves) <==>
      var i := index % TwoTo(Depth(|leaves|));
      i < |leaves| && leaf == leaves[i] && proof == Path(leaves, PadNode, i)
  {
    ClimbExactly(leaves, PadNode, leaf, index, proof);
  }
}
