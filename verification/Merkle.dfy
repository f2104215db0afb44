/** Binary Merkle trees over a symbolic, collision-free hash, for any padding node. */
module Merkle {
  import opened Basics

  /** A 32-byte value: a hash records what was hashed, everything else is atomic. */
  datatype Hash = Zero | PadNode | Raw(tag: nat) | Leaf(value: Hash) | Node(left: Hash, right: Hash)

  function Half(n: nat, k: nat): nat {
    if k == 0 then n else Half(n / 2, k - 1)
  }

  function TwoTo(k: nat): (r: nat)
    ensures r > 0
  {
    if k == 0 then 1 else 2 * TwoTo(k - 1)
  }

  /** The lowest `k` binary digits of `n`. */
  function Low(n: nat, k: nat): nat
    decreases k
  {
    if k == 0 then 0 else 2 * Low(n / 2, k - 1) + n % 2
  }

  lemma {:induction false} LowIsRemainder(n: nat, k: nat)
    ensures Low(n, k) == n % TwoTo(k)
    decreases k
  {
    if k > 0 {
      LowIsRemainder(n / 2, k - 1);
      SplitIndex(n, TwoTo(k - 1));
    } else {
      assert n % 1 == 0;
    }
  }

  /** The number of levels above a level of `n` nodes. */
  function Depth(n: nat): nat {
    if n <= 1 then 0 else 1 + Depth((n + 1) / 2)
  }

  /** The node at position `i` of a level continued with padding nodes. */
  function At(level: seq<Hash>, pad: Hash, i: nat): Hash {
    if i < |level| then level[i] else pad
  }

  /** The level above: pairs of neighbours, an odd end paired with the padding node. */
  function NextLevel(level: seq<Hash>, pad: Hash): (r: seq<Hash>)
    ensures |r| == (|level| + 1) / 2
    ensures forall i :: 0 <= i < |r| ==> r[i] == Node(At(level, pad, 2 * i), At(level, pad, 2 * i + 1))
  {
    seq((|level| + 1) / 2, i requires 0 <= i => Node(At(level, pad, 2 * i), At(level, pad, 2 * i + 1)))
  }

  /** The root of a non-empty level. */
  function Fold(level: seq<Hash>, pad: Hash): Hash
    requires level != []
    decreases |level|
  {
    if |level| == 1 then level[0] else Fold(NextLevel(level, pad), pad)
  }

  /** The hash reached by combining `current` at position `index` with the siblings of a proof. */
  function Climb(current: Hash, index: nat, proof: seq<Hash>): Hash
    decreases |proof|
  {
    if proof == [] then current
    else Climb(if index % 2 == 0 then Node(current, proof[0]) else Node(proof[0], current), index / 2, proof[1..])
  }

  function Combine(current: Hash, index: nat, sibling: Hash): Hash {
    if index % 2 == 0 then Node(current, sibling) else Node(sibling, current)
  }

  /** Equal levels above come from equal levels, up to padding. */
  lemma {:induction false} NextLevelInjective(a: seq<Hash>, b: seq<Hash>, pad: Hash, i: nat)
    requires NextLevel(a, pad) == NextLevel(b, pad) && i < |a|
    ensures a[i] == At(b, pad, i)
  {
    assert NextLevel(a, pad)[i / 2] == NextLevel(b, pad)[i / 2];
    assert i == 2 * (i / 2) || i == 2 * (i / 2) + 1;
  }

  /** Trees over equally many nodes have equal roots only when the nodes are equal. */
  lemma {:induction false} FoldInjective(a: seq<Hash>, b: seq<Hash>, pad: Hash)
    requires a != [] && |a| == |b| && Fold(a, pad) == Fold(b, pad)
    ensures a == b
    decreases |a|
  {
    if |a| > 1 {
      FoldInjective(NextLevel(a, pad), NextLevel(b, pad), pad);
      forall i | 0 <= i < |a|
        ensures a[i] == b[i]
      {
        NextLevelInjective(a, b, pad, i);
      }
    } else {
      assert a == [Fold(a, pad)] && b == [Fold(b, pad)];
    }
  }

  ghost predicate NoPad(level: seq<Hash>, pad: Hash) {
    forall i :: 0 <= i < |level| ==> level[i] != pad
  }

  /** Levels of equal depth that do not contain the padding node have equal roots only when they are
      equal, whatever their lengths. */
  lemma {:induction false} FoldInjectiveByDepth(a: seq<Hash>, b: seq<Hash>, pad: Hash)
    requires a != [] && b != [] && !pad.Node? && NoPad(a, pad) && NoPad(b, pad)
    requires Depth(|a|) == Depth(|b|) && Fold(a, pad) == Fold(b, pad)
    ensures a == b
    decreases |a|
  {
    if |a| > 1 && |b| > 1 {
      FoldInjectiveByDepth(NextLevel(a, pad), NextLevel(b, pad), pad);
      PrefixUnlessPadded(a, b, pad);
      PrefixUnlessPadded(b, a, pad);
    } else {
      assert a == [Fold(a, pad)] && b == [Fold(b, pad)];
    }
  }

  lemma {:induction false} PrefixUnlessPadded(a: seq<Hash>, b: seq<Hash>, pad: Hash)
    requires NoPad(a, pad) && NextLevel(a, pad) == NextLevel(b, pad)
    ensures |a| <= |b| && a == b[..|a|]
  {
    if a != [] {
      NextLevelInjective(a, b, pad, |a| - 1);
      assert a[|a| - 1] != pad;
    }
    forall i | 0 <= i < |a|
      ensures a[i] == b[i]
    {
      NextLevelInjective(a, b, pad, i);
    }
  }

  /** The node reached from the root by `k` steps to the left. */
  function LeftSpine(h: Hash, k: nat): Hash
    decreases k
  {
    if k == 0 then h else if h.Node? then LeftSpine(h.left, k - 1) else h
  }

  lemma {:induction false} SpineReachesFirst(level: seq<Hash>, pad: Hash)
    requires level != []
    ensures LeftSpine(Fold(level, pad), Depth(|level|)) == level[0]
    ensures forall j :: 0 <= j < Depth(|level|) ==> LeftSpine(Fold(level, pad), j).Node?
    decreases |level|
  {
    if |level| > 1 {
      var next := NextLevel(level, pad);
      SpineReachesFirst(next, pad);
      var d := Depth(|next|);
      assert next[0].left == level[0];
      SpineStep(Fold(level, pad), d);
      forall j | 0 <= j < d + 1
        ensures LeftSpine(Fold(level, pad), j).Node?
      {
      }
    }
  }

  lemma {:induction false} SpineStep(h: Hash, k: nat)
    requires LeftSpine(h, k).Node? && forall j :: 0 <= j < k ==> LeftSpine(h, j).Node?
    ensures LeftSpine(h, k + 1) == LeftSpine(h, k).left
    decreases k
  {
    if k > 0 {
      assert LeftSpine(h, 0).Node?;
      forall j | 0 <= j < k - 1
        ensures LeftSpine(h.left, j).Node?
      {
        assert LeftSpine(h, j + 1).Node?;
      }
      SpineStep(h.left, k - 1);
    }
  }

  /** No node is the padding node or an inner node. */
  ghost predicate Genuine(level: seq<Hash>, pad: Hash) {
    forall i :: 0 <= i < |level| ==> level[i] != pad && !level[i].Node?
  }

  /** Over genuine leaves the root determines the list, whatever the lengths. */
  lemma {:induction false} RootDeterminesList(a: seq<Hash>, b: seq<Hash>, pad: Hash)
    requires a != [] && b != [] && !pad.Node? && Genuine(a, pad) && Genuine(b, pad)
    requires Fold(a, pad) == Fold(b, pad)
    ensures a == b
  {
    SpineReachesFirst(a, pad);
    SpineReachesFirst(b, pad);
    assert !a[0].Node? && !b[0].Node?;
    FoldInjectiveByDepth(a, b, pad);
  }

  // ----- proofs ---------------------------------------------------------------------------

  function Sibling(level: seq<Hash>, pad: Hash, i: nat): Hash
    requires i < |level|
  {
    At(level, pad, if i % 2 == 0 then i + 1 else i - 1)
  }

  /** The siblings met on the way from position `i` of a level to the root. */
  function Path(level: seq<Hash>, pad: Hash, i: nat): seq<Hash>
    requires i < |level|
    decreases |level|
  {
    if |level| == 1 then [] else [Sibling(level, pad, i)] + Path(NextLevel(level, pad), pad, i / 2)
  }

  /** One step of collecting a path from the bottom. */
  lemma {:induction false} CollectStep(done: seq<Hash>, level: seq<Hash>, pad: Hash, i: nat)
    requires i < |level| && |level| > 1
    ensures done + Path(level, pad, i) == done + [Sibling(level, pad, i)] + Path(NextLevel(level, pad), pad, i / 2)
  {
  }

  lemma {:induction false} PathLength(level: seq<Hash>, pad: Hash, i: nat)
    requires i < |level|
    ensures |Path(level, pad, i)| == Depth(|level|)
    decreases |level|
  {
    if |level| > 1 { PathLength(NextLevel(level, pad), pad, i / 2); }
  }

  lemma {:induction false} PositionIsLow(i: nat, n: nat)
    requires i < n
    ensures Low(i, Depth(n)) == i
    decreases n
  {
    if n > 1 { PositionIsLow(i / 2, (n + 1) / 2); }
  }

  /** Climbing the path of a position reaches the root. */
  lemma {:induction false} PathClimbs(level: seq<Hash>, pad: Hash, index: nat, i: nat)
    requires i < |level| && Low(index, Depth(|level|)) == i
    ensures Climb(level[i], index, Path(level, pad, i)) == Fold(level, pad)
    decreases |level|
  {
    if |level| > 1 {
      var next := NextLevel(level, pad);
      PathClimbs(next, pad, index / 2, i / 2);
      assert Path(level, pad, i)[1..] == Path(next, pad, i / 2);
      ParentOf(level, pad, i, index);
    }
  }

  lemma {:induction false} ParentOf(level: seq<Hash>, pad: Hash, i: nat, index: nat)
    requires i < |level| && i % 2 == index % 2
    ensures NextLevel(level, pad)[i / 2] == Combine(level[i], index, Sibling(level, pad, i))
  {
  }

  /** A climb of full height to the root of a level starts at a node of that level and follows its path. */
  lemma {:induction false} ClimbFromLevel(level: seq<Hash>, pad: Hash, current: Hash, index: nat,
        proof: seq<Hash>, i: nat)
    requires level != [] && !pad.Node? && current != pad && i == Low(index, |proof|)
    requires |proof| == Depth(|level|) && Climb(current, index, proof) == Fold(level, pad)
    ensures i < |level| && current == level[i] && proof == Path(level, pad, i)
    decreases |proof|
  {
    if |level| > 1 {
      var j := Low(index / 2, |proof| - 1);
      ClimbFromLevel(NextLevel(level, pad), pad, Combine(current, index, proof[0]), index / 2, proof[1..], j);
      PathStep(level, pad, current, index, proof, i, j);
    }
  }

  /** The parent found at `j` of the level above pins down the child and the sibling it combines. */
  lemma {:induction false} ChildOfNode(level: seq<Hash>, pad: Hash, current: Hash, index: nat, sibling: Hash, j: nat)
    requires j < |NextLevel(level, pad)| && current != pad
    requires Combine(current, index, sibling) == NextLevel(level, pad)[j]
    ensures 2 * j + index % 2 < |level| && current == level[2 * j + index % 2]
    ensures sibling == Sibling(level, pad, 2 * j + index % 2)
  {
    assert current == At(level, pad, 2 * j + index % 2);
  }

  lemma {:induction false} PathStep(level: seq<Hash>, pad: Hash, current: Hash, index: nat, proof: seq<Hash>,
        i: nat, j: nat)
    requires |level| > 1 && proof != [] && j < |NextLevel(level, pad)| && current != pad && i == 2 * j + index % 2
    requires Combine(current, index, proof[0]) == NextLevel(level, pad)[j]
    requires proof[1..] == Path(NextLevel(level, pad), pad, j)
    ensures i < |level| && current == level[i] && proof == Path(level, pad, i)
  {
    ChildOfNode(level, pad, current, index, proof[0], j);
    assert i / 2 == j;
    assert proof == [proof[0]] + proof[1..];
  }

  /** A level reached after `k` steps up: it keeps the root and holds inner nodes only. */
  lemma {:induction false} LevelAbove(level: seq<Hash>, pad: Hash, k: nat) returns (above: seq<Hash>)
    requires level != [] && k <= Depth(|level|)
    ensures above != [] && Fold(above, pad) == Fold(level, pad) && Depth(|above|) == Depth(|level|) - k
    ensures k > 0 ==> forall i :: 0 <= i < |above| ==> above[i].Node?
    ensures k == 0 ==> above == level
    decreases |level|
  {
    if k == 0 {
      above := level;
    } else {
      above := LevelAbove(NextLevel(level, pad), pad, k - 1);
    }
  }

  /** A climb may be cut after `k` siblings; a climb of at least one step ends in an inner node. */
  lemma {:induction false} ClimbSplit(current: Hash, index: nat, proof: seq<Hash>, k: nat) returns (middle: Hash)
    requires k <= |proof|
    ensures Climb(current, index, proof) == Climb(middle, Half(index, k), proof[k..])
    ensures if k == 0 then middle == current else middle.Node?
    decreases k
  {
    if k == 0 {
      middle := current;
      assert proof[0..] == proof;
    } else {
      middle := ClimbSplit(Combine(current, index, proof[0]), index / 2, proof[1..], k - 1);
      assert proof[1..][k - 1..] == proof[k..];
    }
  }

  /** A climb from a genuine leaf to the root of genuine leaves has the height of the tree. */
  lemma {:induction false} ClimbHasDepth(level: seq<Hash>, pad: Hash, current: Hash, index: nat, proof: seq<Hash>)
    requires level != [] && !pad.Node? && Genuine(level, pad) && current != pad && !current.Node?
    requires Climb(current, index, proof) == Fold(level, pad)
    ensures |proof| == Depth(|level|)
  {
    var d := Depth(|level|);
    if |proof| < d {
      var above := LevelAbove(level, pad, d - |proof|);
      ClimbFromLevel(above, pad, current, index, proof, Low(index, |proof|));
    } else if |proof| > d {
      var middle := ClimbSplit(current, index, proof, |proof| - d);
      var rest := Half(index, |proof| - d);
      ClimbFromLevel(level, pad, middle, rest, proof[|proof| - d..], Low(rest, d));
    }
  }

  /** A proof of a genuine leaf reaches the root of a non-empty list of genuine leaves exactly when
      it is the path of the position the index names, and that position holds the leaf. */
  lemma {:induction false} ClimbExactly(level: seq<Hash>, pad: Hash, current: Hash, index: nat, proof: seq<Hash>)
    requires level != [] && !pad.Node? && Genuine(level, pad) && current != pad && !current.Node?
    ensures Climb(current, index, proof) == Fold(level, pad) <==>
      var i := index % TwoTo(Depth(|level|));
      i < |level| && current == level[i] && proof == Path(level, pad, i)
  {
    var i := Low(index, Depth(|level|));
    LowIsRemainder(index, Depth(|level|));
    if Climb(current, index, proof) == Fold(level, pad) {
      ClimbHasDepth(level, pad, current, index, proof);
      ClimbFromLevel(level, pad, current, index, proof, i);
    }
    if i < |level| {
      PathClimbs(level, pad, index, i);
    }
  }

  lemma {:induction false} SplitIndex(index: nat, m: nat)
    requires m > 0
    ensures index % (2 * m) == 2 * (index / 2 % m) + index % 2
  {
    var h, b := index / 2, index % 2;
    var q, r := h / m, h % m;
    assert index == (2 * m) * q + (2 * r + b) by {
      assert h == m * q + r;
      assert (2 * m) * q == 2 * (m * q);
    }
    UniqueRemainder(2 * m, index, q, 2 * r + b);
  }
}
