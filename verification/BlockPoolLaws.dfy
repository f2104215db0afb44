/** Exactly which proposals enter the pool, and exactly which blocks are finalized. */
module BlockPoolLaws {
  import opened Basics
  import opened Outcomes
  import opened BlockPool

  // ----- entering the pool ----------------------------------------------------------------

  ghost predicate KnownParent(p: Pool, c: Block)
    requires c.parent.OfBlock? && c.height > 0
  {
    || c.parent in p.pending || c.parent in p.committed || p.finalized == Some(c.parent.block)
    || (c.height - 1 in p.storage && p.storage[c.height - 1] == c.parent.block)
  }

  /** One height up, held at the largest 64-bit number. */
  ghost predicate NextHeight(low: Height, high: Height) {
    high == low + 1 || (low == MAX_U64 && high == MAX_U64)
  }

  /** The block directly extends a known, older parent above the finalized height. */
  ghost predicate Extension(p: Pool, c: Block) {
    && c.height > p.finalizedHeight && c.parent.OfBlock? && KnownParent(p, c)
    && NextHeight(c.parent.block.height, c.height) && c.timestamp > c.parent.block.timestamp
  }

  ghost predicate RespectsLock(p: Pool, c: Block) {
    p.lockedHeight.Some? ==>
      && c.height >= p.lockedHeight.value
      && (c.height == p.lockedHeight.value && p.lockedHash.Some? ==> p.lockedHash.value == OfBlock(c))
  }

  /** Nothing the node holds is higher than the block. */
  ghost predicate Highest(p: Pool, c: Block) {
    && (forall h :: h in p.pending ==> p.pending[h].height <= c.height)
    && (forall h :: h in p.committed ==> p.committed[h].height <= c.height)
    && (p.finalized.Some? ==> p.finalized.value.height <= c.height)
  }

  ghost predicate Sibling(c: Block, d: Block) {
    d.parent == c.parent && d != c
  }

  /** A competing child of the same parent gives way only to a block as high as any, and not when it
      carries the highest certificate. */
  ghost predicate Displaces(p: Pool, c: Block) {
    forall h :: h in p.pending && Sibling(c, p.pending[h]) ==> Highest(p, c) && p.highestQc != Some(h)
  }

  ghost predicate OnlyProposal(p: Pool, c: Block) {
    forall h :: h in p.pending && SameSlot(p.pending[h], c) ==> p.pending[h] == c
  }

  ghost predicate Enters(p: Pool, c: Block) {
    Extension(p, c) && |p.pending| < 256 && RespectsLock(p, c) && OnlyProposal(p, c) && Displaces(p, c)
  }

  lemma {:induction false} ParentExactly(p: Pool, c: Block)
    requires Sound(p)
    ensures ParentError(p, c).None? <==> Extension(p, c)
  {
    if Extension(p, c) {
      assert c.parent in p.pending ==> p.pending[c.parent] == c.parent.block;
      assert c.parent in p.committed ==> p.committed[c.parent] == c.parent.block;
    }
  }

  lemma {:induction false} LockExactly(p: Pool, c: Block)
    ensures LockError(p, c).None? <==> RespectsLock(p, c)
  {
  }

  lemma {:induction false} SlotExactly(p: Pool, c: Block)
    requires Sound(p)
    ensures !ProposedTwice(p, c) <==> OnlyProposal(p, c)
  {
  }

  /** Siblings have the height of the candidate, so only the highest certificate decides between them. */
  lemma {:induction false} SiblingPreferred(p: Pool, c: Block, h: Hash)
    requires Sound(p) && Extension(p, c) && h in p.pending && Sibling(c, p.pending[h])
    ensures Preferred(p, c, p.pending[h]) <==> p.highestQc != Some(h)
  {
    assert LinkedBlock(p.pending[h]);
  }

  lemma {:induction false} ForkExactly(p: Pool, c: Block)
    requires Sound(p) && Extension(p, c)
    ensures (Siblings(p.pending, c) == {} || Resolved(p, c).1.None?) <==> Displaces(p, c)
  {
    forall h | h in p.pending && Sibling(c, p.pending[h])
      ensures Preferred(p, c, p.pending[h]) <==> p.highestQc != Some(h)
    {
      SiblingPreferred(p, c, h);
    }
    assert LongestChain(p, c) <==> Highest(p, c);
    assert forall h :: h in Siblings(p.pending, c) <==> h in p.pending && Sibling(c, p.pending[h]);
  }

  /** Resolving a fork drops exactly the siblings, or nothing. */
  lemma {:induction false} ResolvedExactly(p: Pool, c: Block)
    ensures var (after, e) := Resolved(p, c);
      && (e.Some? ==> after == p.pending)
      && (e.None? ==> forall h :: h in after <==> h in p.pending && !Sibling(c, p.pending[h]))
      && (e.None? ==> forall h :: h in after ==> after[h] == p.pending[h])
  {
    assert forall h :: h in Siblings(p.pending, c) <==> h in p.pending && Sibling(c, p.pending[h]);
  }

  ghost predicate Replaces(pending: Blocks, c: Block, after: Blocks) {
    && Keyed(after)
    && forall h :: h in after <==> h == OfBlock(c) || (h in pending && !Sibling(c, pending[h]))
  }

  /** A well-formed, authorised proposal enters exactly when it extends a known parent, finds room,
      respects the lock, is its proposer's only one at that height and displaces its siblings; it then
      replaces them and nothing else.  Any other proposal leaves the pool as it was. */
  lemma {:induction false} EntersExactly(p: Pool, c: Block, wellFormed: bool, authorised: bool)
    requires Sound(p)
    ensures var (q, e) := Proposed(p, c, wellFormed, authorised);
      && (e.None? <==> wellFormed && authorised && Enters(p, c))
      && (e.Some? ==> q == p)
      && (e.None? ==> q == p.(pending := q.pending) && Replaces(p.pending, c, q.pending))
  {
    ParentExactly(p, c);
    LockExactly(p, c);
    SlotExactly(p, c);
    if Extension(p, c) {
      ForkExactly(p, c);
      assert !OnFinalizedHeight(p, c);
    }
  }

  // ----- refusing -------------------------------------------------------------------------

  const STAGES: nat := 14

  ghost predicate IsFinalized(p: Pool, hash: Hash) {
    p.finalized.Some? && OfBlock(p.finalized.value) == hash
  }

  ghost predicate Held(p: Pool, hash: Hash) {
    hash in p.pending || hash in p.committed || IsFinalized(p, hash)
  }

  ghost predicate Contested(p: Pool, c: Block) {
    exists h :: h in p.pending && Sibling(c, p.pending[h])
  }

  /** What can be wrong with a proposal, in the order in which it is noticed. */
  ghost predicate Fault(p: Pool, c: Block, wellFormed: bool, authorised: bool, stage: nat)
    requires stage < STAGES
  {
    match stage
    case 0 => !wellFormed
    case 1 => c.height == 0
    case 2 => c.height > 0 && !Held(p, c.parent) && c.height - 1 !in p.storage
    case 3 => c.height > 0 && c.height - 1 in p.storage && !Held(p, c.parent)
              && OfBlock(p.storage[c.height - 1]) != c.parent
    case 4 => c.parent.OfBlock? && !NextHeight(c.parent.block.height, c.height)
    case 5 => c.parent.OfBlock? && c.timestamp <= c.parent.block.timestamp
    case 6 => c.height <= p.finalizedHeight
    case 7 => |p.pending| >= 256
    case 8 => p.lockedHeight.Some? && c.height < p.lockedHeight.value
    case 9 => !RespectsLock(p, c)
    case 10 => !authorised
    case 11 => !OnlyProposal(p, c)
    case 12 => Contested(p, c) && !Highest(p, c)
    case _ => !Displaces(p, c)
  }

  ghost function ErrorOf(stage: nat): PoolError
    requires stage < STAGES
  {
    [Malformed, Genesis, UnknownParent, ParentMismatch, WrongHeight, StaleTimestamp, BelowFinalized, TooManyPending,
     BelowLock, ConflictsWithLock, Unauthorised, ConflictingProposal, ShorterBranch, KeptIncumbent][stage]
  }

  ghost predicate Passes(p: Pool, c: Block, wellFormed: bool, authorised: bool, k: nat)
    requires k <= STAGES
  {
    forall j :: 0 <= j < k ==> !Fault(p, c, wellFormed, authorised, j)
  }

  lemma {:induction false} PassedParent(p: Pool, c: Block, wellFormed: bool, authorised: bool)
    requires Sound(p) && Passes(p, c, wellFormed, authorised, 4)
    ensures wellFormed && c.parent.OfBlock? && ResolveParent(p, c) == Ok(c.parent.block)
  {
    assert !Fault(p, c, wellFormed, authorised, 0) && !Fault(p, c, wellFormed, authorised, 1);
    assert !Fault(p, c, wellFormed, authorised, 2) && !Fault(p, c, wellFormed, authorised, 3);
    assert c.parent in p.pending ==> c.parent == OfBlock(p.pending[c.parent]);
    assert c.parent in p.committed ==> c.parent == OfBlock(p.committed[c.parent]);
  }

  lemma {:induction false} PassedExtension(p: Pool, c: Block, wellFormed: bool, authorised: bool)
    requires Sound(p) && Passes(p, c, wellFormed, authorised, 7)
    ensures wellFormed && Extension(p, c) && ParentError(p, c).None?
  {
    assert Passes(p, c, wellFormed, authorised, 4);
    PassedParent(p, c, wellFormed, authorised);
    assert !Fault(p, c, wellFormed, authorised, 4) && !Fault(p, c, wellFormed, authorised, 5);
    assert !Fault(p, c, wellFormed, authorised, 6);
    ParentExactly(p, c);
  }

  lemma {:induction false} EarlyFault(p: Pool, c: Block, wellFormed: bool, authorised: bool, k: nat)
    requires Sound(p) && k < 7 && Passes(p, c, wellFormed, authorised, k) && Fault(p, c, wellFormed, authorised, k)
    ensures ProposalError(p, c, wellFormed, authorised) == Some(ErrorOf(k))
  {
    assert k > 0 ==> !Fault(p, c, wellFormed, authorised, 0);
    assert k > 1 ==> !Fault(p, c, wellFormed, authorised, 1);
    if k >= 4 {
      assert Passes(p, c, wellFormed, authorised, 4);
      PassedParent(p, c, wellFormed, authorised);
      assert k > 4 ==> !Fault(p, c, wellFormed, authorised, 4);
      assert k > 5 ==> !Fault(p, c, wellFormed, authorised, 5);
    }
  }

  ghost function ForkError(p: Pool, c: Block): Option<PoolError> {
    if Siblings(p.pending, c) == {} then None else Resolved(p, c).1
  }

  /** Between siblings, a higher block elsewhere counts before a certificate on one of them. */
  lemma {:induction false} ForkFault(p: Pool, c: Block, shorter: bool)
    requires Sound(p) && Extension(p, c) && Loses(p, c, shorter)
    ensures ForkError(p, c) == Some(if shorter then ShorterBranch else KeptIncumbent)
  {
    ForkExactly(p, c);
    if h :| h in p.pending && Sibling(c, p.pending[h]) {
      assert h in Siblings(p.pending, c);
    }
  }

  /** What is left to check of a block that directly extends a known parent. */
  ghost function LateError(p: Pool, c: Block, authorised: bool): Option<PoolError> {
    if |p.pending| >= 256 then Some(TooManyPending)
    else if !RespectsLock(p, c) then LockError(p, c)
    else if !authorised then Some(Unauthorised)
    else if !OnlyProposal(p, c) then Some(ConflictingProposal)
    else ForkError(p, c)
  }

  lemma {:induction false} LateChecks(p: Pool, c: Block, authorised: bool)
    requires Sound(p) && Extension(p, c)
    ensures ProposalError(p, c, true, authorised) == LateError(p, c, authorised)
  {
    ParentExactly(p, c);
    LockExactly(p, c);
    SlotExactly(p, c);
    assert !OnFinalizedHeight(p, c);
  }

  lemma {:induction false} GateFault(p: Pool, c: Block, authorised: bool, k: nat)
    requires 7 <= k < 12 && Passes(p, c, true, authorised, k) && Fault(p, c, true, authorised, k)
    ensures LateError(p, c, authorised) == Some(ErrorOf(k))
  {
    assert k > 7 ==> !Fault(p, c, true, authorised, 7);
    assert k > 8 ==> !Fault(p, c, true, authorised, 8);
    assert k > 9 ==> !Fault(p, c, true, authorised, 9);
    assert k > 10 ==> !Fault(p, c, true, authorised, 10);
  }

  lemma {:induction false} PassedGates(p: Pool, c: Block, authorised: bool)
    requires Passes(p, c, true, authorised, 12)
    ensures LateError(p, c, authorised) == ForkError(p, c)
  {
    assert !Fault(p, c, true, authorised, 7) && !Fault(p, c, true, authorised, 9);
    assert !Fault(p, c, true, authorised, 10) && !Fault(p, c, true, authorised, 11);
  }

  /** The two ways in which a fork goes against the candidate. */
  ghost predicate Loses(p: Pool, c: Block, shorter: bool) {
    if shorter then Contested(p, c) && !Highest(p, c) else !(Contested(p, c) && !Highest(p, c)) && !Displaces(p, c)
  }

  lemma {:induction false} BranchStage(p: Pool, c: Block, authorised: bool, k: nat)
    requires 12 <= k < STAGES && Passes(p, c, true, authorised, k) && Fault(p, c, true, authorised, k)
    ensures Loses(p, c, k == 12)
  {
    assert k > 12 ==> !Fault(p, c, true, authorised, 12);
  }

  /** A proposal is refused with the error of the first thing wrong with it, and leaves the pool
      alone. */
  lemma {:induction false} RefusedWith(p: Pool, c: Block, wellFormed: bool, authorised: bool, k: nat)
    requires Sound(p) && k < STAGES
    requires Passes(p, c, wellFormed, authorised, k) && Fault(p, c, wellFormed, authorised, k)
    ensures Proposed(p, c, wellFormed, authorised) == (p, Some(ErrorOf(k)))
  {
    if k < 7 {
      EarlyFault(p, c, wellFormed, authorised, k);
    } else {
      assert Passes(p, c, wellFormed, authorised, 7);
      PassedExtension(p, c, wellFormed, authorised);
      LateChecks(p, c, authorised);
      if k < 12 {
        GateFault(p, c, authorised, k);
      } else {
        assert Passes(p, c, true, authorised, 12);
        PassedGates(p, c, authorised);
        BranchStage(p, c, authorised, k);
        ForkFault(p, c, k == 12);
      }
    }
  }

  // ----- finalizing -----------------------------------------------------------------------

  /** The block is the finalized one and the canonical chain holds it; nothing else of the chain moves. */
  ghost predicate MakesFinal(p: Pool, q: Pool, b: Block) {
    q.finalized == Some(b) && q.finalizedHeight == b.height && q.storage == p.storage[b.height := b]
  }

  ghost predicate Higher(p: Pool, b: Block) {
    p.finalized.Some? ==> b.height > p.finalized.value.height
  }

  /** Finalizing succeeds exactly for the finalized block itself and for a committed block higher than it
      that has a valid certificate.  It then makes that very block final and takes only it out of the
      committed ones; it changes nothing when it fails or the block was final already. */
  lemma {:induction false} FinalizesExactly(p: Pool, hash: Hash, certified: bool)
    requires Keyed(p.committed)
    ensures var (q, e) := Finalized(p, hash, certified);
      && (e.None? <==> IsFinalized(p, hash) || (certified && hash in p.committed && Higher(p, p.committed[hash])))
      && (if e.None? && !IsFinalized(p, hash)
          then MakesFinal(p, q, p.committed[hash]) && IsFinalized(q, hash) && q.pending == p.pending
            && q.committed == p.committed - {hash}
          else q == p)
  {
  }

  /** Committing fails exactly for a block the node does not hold; only a block that is pending, and
      neither committed nor final, moves. */
  lemma {:induction false} CommitsExactly(p: Pool, hash: Hash)
    ensures var (q, e) := Committed(p, hash);
      && (e == if Held(p, hash) then None else Some(UnknownBlock))
      && (if hash in p.pending && hash !in p.committed && !IsFinalized(p, hash)
          then q == p.(pending := p.pending - {hash}, committed := p.committed[hash := p.pending[hash]])
          else q == p)
  {
  }

  /** A certificate for a block the node does not hold is refused as such and changes nothing. */
  lemma {:induction false} UnknownRefused(p: Pool, hash: Hash, certified: bool)
    requires !Held(p, hash)
    ensures Certified(p, hash, certified) == (p, Some(UnknownBlock))
  {
    CommitsExactly(p, hash);
  }

  lemma {:induction false} AboveSkips(blocks: Blocks, hash: Hash, height: Height)
    requires hash in blocks ==> blocks[hash].height <= height
    ensures Above(blocks - {hash}, height) == Above(blocks, height)
  {
  }

  lemma {:induction false} AboveKeeps(blocks: Blocks, height: Height)
    requires AllAbove(blocks, height)
    ensures Above(blocks, height) == blocks
  {
  }

  /** Committing a pending block moves it, unless it was committed before. */
  lemma {:induction false} CommitMoves(p: Pool, hash: Hash) returns (q: Pool)
    requires Sound(p) && hash in p.pending
    ensures Sound(q) && hash in q.committed && q.committed[hash] == p.pending[hash] && !IsFinalized(q, hash)
    ensures q == p.(pending := q.pending, committed := p.committed[hash := p.pending[hash]])
    ensures q.pending == if hash in p.committed then p.pending else p.pending - {hash}
    ensures forall certified :: Step(p, Commit(hash, certified)) == Pruned(Finalized(q, hash, certified).0)
  {
    assert hash == OfBlock(p.pending[hash]) && p.pending[hash].height > p.finalizedHeight;
    if hash in p.committed {
      assert hash == OfBlock(p.committed[hash]);
      q := p;
      assert p.committed[hash := p.pending[hash]] == p.committed;
    } else {
      q := Committed(p, hash).0;
      CommittedSound(p, hash);
    }
  }

  /** A valid certificate for a pending block makes it the finalized block, stored at its height, and
      drops whatever is not above it. */
  lemma {:induction false} CommitFinalizes(p: Pool, hash: Hash)
    requires Sound(p) && hash in p.pending
    ensures var b, q := p.pending[hash], Step(p, Commit(hash, true));
      && OfBlock(b) == hash && MakesFinal(p, q, b)
      && q.pending == Above(p.pending, b.height) && q.committed == Above(p.committed, b.height)
  {
    var b := p.pending[hash];
    var q := CommitMoves(p, hash);
    FinalizesExactly(q, hash, true);
    AboveSkips(p.pending, hash, b.height);
    AboveSkips(p.committed, hash, b.height);
    assert q.committed - {hash} == p.committed - {hash};
  }

  /** Without a valid certificate the block is kept among the committed ones, and nothing is finalized. */
  lemma {:induction false} UncertifiedWaits(p: Pool, hash: Hash)
    requires Sound(p) && hash in p.pending
    ensures var q := Step(p, Commit(hash, false));
      && q.finalized == p.finalized && q.finalizedHeight == p.finalizedHeight && q.storage == p.storage
      && q.committed == p.committed[hash := p.pending[hash]]
      && q.pending == if hash in p.committed then p.pending else p.pending - {hash}
  {
    var q := CommitMoves(p, hash);
    FinalizesExactly(q, hash, false);
    AboveKeeps(q.pending, q.finalizedHeight);
    AboveKeeps(q.committed, q.finalizedHeight);
  }

  lemma {:induction false} OnlyCommitFinalizes(p: Pool, e: Event)
    requires Sound(p) && Step(p, e).finalized != p.finalized
    ensures e.Commit? && e.certified && e.hash in p.pending && Step(p, e).finalized == Some(p.pending[e.hash])
  {
    if e.Commit? && e.hash in p.pending {
      if e.certified { CommitFinalizes(p, e.hash); } else { UncertifiedWaits(p, e.hash); }
    }
  }

  /** The blocks finalized by a run, in order. */
  function FinalizedBlocks(p: Pool, events: seq<Event>): seq<Block>
    decreases |events|
  {
    if events == [] then []
    else
      var q := Step(p, events[0]);
      (if q.finalized != p.finalized && q.finalized.Some? then [q.finalized.value] else [])
      + FinalizedBlocks(q, events[1..])
  }

  ghost predicate FinalizedBy(events: seq<Event>, end: Pool, b: Block) {
    Commit(OfBlock(b), true) in events && b.height in end.storage && end.storage[b.height] == b
  }

  ghost predicate Explained(p: Pool, events: seq<Event>, end: Pool, blocks: seq<Block>, heights: seq<Height>) {
    && |blocks| == |heights|
    && (forall i :: 0 <= i < |blocks| ==> heights[i] == blocks[i].height)
    && (forall i :: 0 <= i < |blocks| ==> FinalizedBy(events, end, blocks[i]))
    && end.finalized == if blocks == [] then p.finalized else Some(blocks[|blocks| - 1])
  }

  /** Over every run, the finalized heights are those of the finalized blocks; each of these blocks had a
      valid certificate and stays in the canonical chain at its height; and the last one is the
      finalized block at the end. */
  lemma {:induction false} RunFinalizes(p: Pool, events: seq<Event>)
    requires Sound(p)
    ensures Explained(p, events, Run(p, events), FinalizedBlocks(p, events), FinalizedHeights(p, events))
    decreases |events|
  {
    if events != [] {
      var e, q, rest := events[0], Step(p, events[0]), events[1..];
      var end := Run(q, rest);
      StepSound(p, e);
      RunSound(q, rest);
      RunFinalizes(q, rest);
      var later, heights := FinalizedBlocks(q, rest), FinalizedHeights(q, rest);
      ExplainedLonger(q, events, end, later, heights);
      if q.finalized != p.finalized {
        OnlyCommitFinalizes(p, e);
        CommitFinalizes(p, e.hash);
        ExplainedFirst(p, q, events, end, q.finalized.value, later, heights);
      } else {
        assert FinalizedBlocks(p, events) == later && FinalizedHeights(p, events) == heights;
      }
    }
  }

  lemma {:induction false} ExplainedLonger(q: Pool, events: seq<Event>, end: Pool, blocks: seq<Block>,
        heights: seq<Height>)
    requires events != [] && Explained(q, events[1..], end, blocks, heights)
    ensures Explained(q, events, end, blocks, heights)
  {
    forall i | 0 <= i < |blocks|
      ensures FinalizedBy(events, end, blocks[i])
    {
      assert FinalizedBy(events[1..], end, blocks[i]);
    }
  }

  lemma {:induction false} ExplainedFirst(p: Pool, q: Pool, events: seq<Event>, end: Pool, b: Block,
        blocks: seq<Block>, heights: seq<Height>)
    requires Explained(q, events, end, blocks, heights) && FinalizedBy(events, end, b) && q.finalized == Some(b)
    ensures Explained(p, events, end, [b] + blocks, [b.height] + heights)
  {
  }

  /** Event `k` of the run is a valid commit certificate for a block pending at that point. */
  ghost predicate CertifiedAt(p: Pool, events: seq<Event>, k: nat, b: Block) {
    k < |events| && events[k] == Commit(OfBlock(b), true) && OfBlock(b) in Run(p, events[..k]).pending
  }

  lemma {:induction false} CertifiedLater(p: Pool, events: seq<Event>, k: nat, b: Block)
    requires events != []
    ensures CertifiedAt(p, events, k + 1, b) <==> CertifiedAt(Step(p, events[0]), events[1..], k, b)
  {
    if k < |events| - 1 {
      assert events[..k + 1][1..] == events[1..][..k];
    }
  }

  lemma {:induction false} FinalizedFirstOrLater(p: Pool, events: seq<Event>, q: Pool, b: Block)
    requires events != [] && q == Step(p, events[0])
    ensures b in FinalizedBlocks(p, events)
      <==> (q.finalized != p.finalized && q.finalized == Some(b)) || b in FinalizedBlocks(q, events[1..])
  {
  }

  lemma {:induction false} CertifiedFirst(p: Pool, events: seq<Event>, b: Block)
    requires Sound(p) && CertifiedAt(p, events, 0, b)
    ensures b in FinalizedBlocks(p, events)
  {
    assert events[..0] == [];
    CommitFinalizes(p, OfBlock(b));
    assert p.pending[OfBlock(b)].height > p.finalizedHeight;
    FinalizedFirstOrLater(p, events, Step(p, events[0]), b);
  }

  lemma {:induction false} NextPool(p: Pool, events: seq<Event>, k: nat, b: Block) returns (q: Pool)
    requires Sound(p) && k > 0 && CertifiedAt(p, events, k, b)
    ensures Sound(q) && CertifiedAt(q, events[1..], k - 1, b)
    ensures b in FinalizedBlocks(q, events[1..]) ==> b in FinalizedBlocks(p, events)
  {
    q := Step(p, events[0]);
    StepSound(p, events[0]);
    CertifiedLater(p, events, k - 1, b);
    FinalizedFirstOrLater(p, events, q, b);
  }

  lemma {:induction false} CertifiedIsFinal(p: Pool, events: seq<Event>, k: nat, b: Block)
    requires Sound(p) && CertifiedAt(p, events, k, b)
    ensures b in FinalizedBlocks(p, events)
    decreases |events|
  {
    if k == 0 {
      CertifiedFirst(p, events, b);
    } else {
      var q := NextPool(p, events, k, b);
      CertifiedIsFinal(q, events[1..], k - 1, b);
    }
  }

  lemma {:induction false} FinalIsCertified(p: Pool, events: seq<Event>, b: Block) returns (k: nat)
    requires Sound(p) && b in FinalizedBlocks(p, events)
    ensures CertifiedAt(p, events, k, b)
    decreases |events|
  {
    var q := Step(p, events[0]);
    FinalizedFirstOrLater(p, events, q, b);
    if q.finalized != p.finalized && q.finalized == Some(b) {
      OnlyCommitFinalizes(p, events[0]);
      assert events[..0] == [];
      k := 0;
    } else {
      StepSound(p, events[0]);
      k := FinalIsCertified(q, events[1..], b);
      CertifiedLater(p, events, k, b);
      k := k + 1;
    }
  }

  /** The blocks finalized by a run are exactly those that got a valid commit certificate while pending. */
  lemma {:induction false} FinalizedExactly(p: Pool, events: seq<Event>, b: Block)
    requires Sound(p)
    ensures b in FinalizedBlocks(p, events) <==> exists k: nat :: CertifiedAt(p, events, k, b)
  {
    if b in FinalizedBlocks(p, events) {
      var k := FinalIsCertified(p, events, b);
    }
    forall k: nat | CertifiedAt(p, events, k, b)
      ensures b in FinalizedBlocks(p, events)
    {
      CertifiedIsFinal(p, events, k, b);
    }
  }
}
