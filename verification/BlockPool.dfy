/** The blocks a consensus node holds: pending proposals, committed blocks, the last finalized block
    and the canonical chain in storage. */
module BlockPool {
  import opened Basics
  import opened Outcomes

  const MAX_PENDING_BLOCKS: nat := 256

  type Height = h: nat | h <= MAX_U64

  /** A 32-byte hash: that of a block, which it determines, or any other value. */
  datatype Hash = Raw(tag: nat) | OfBlock(block: Block)

  /** `content` stands for the rest of the header, the body's roots included. */
  datatype Block = Block(height: Height, parent: Hash, proposer: nat, timestamp: nat, content: nat)

  type Blocks = map<Hash, Block>

  datatype Pool = Pool(pending: Blocks, committed: Blocks, finalized: Option<Block>, finalizedHeight: Height,
                       storage: map<Height, Block>, highestQc: Option<Hash>, lockedHash: Option<Hash>,
                       lockedHeight: Option<Height>)

  datatype PoolError =
    | Malformed | Genesis | UnknownParent | ParentMismatch | WrongHeight | StaleTimestamp | BelowFinalized
    | Unauthorised | TooManyPending | BelowLock | ConflictsWithLock | ConflictingProposal | ConflictingBranch
    | ShorterBranch | KeptIncumbent | UnknownBlock | InvalidCertificate | DoesNotAdvance

  // ----- reading the pool -----------------------------------------------------------------

  function FindBlock(p: Pool, hash: Hash): Option<Block> {
    if hash in p.pending then Some(p.pending[hash])
    else if hash in p.committed then Some(p.committed[hash])
    else if p.finalized.Some? && OfBlock(p.finalized.value) == hash then p.finalized
    else None
  }

  function ResolveParent(p: Pool, child: Block): Result<Block, PoolError> {
    if child.height == 0 then Err(Genesis)
    else
      match FindBlock(p, child.parent)
      case Some(parent) => Ok(parent)
      case None =>
        if child.height - 1 !in p.storage then Err(UnknownParent)
        else if OfBlock(p.storage[child.height - 1]) != child.parent then Err(ParentMismatch)
        else Ok(p.storage[child.height - 1])
  }

  function Successor(height: Height): Height {
    if height == MAX_U64 then MAX_U64 else height + 1
  }

  function ParentError(p: Pool, block: Block): Option<PoolError> {
    match ResolveParent(p, block)
    case Err(e) => Some(e)
    case Ok(parent) =>
      if block.height != Successor(parent.height) then Some(WrongHeight)
      else if block.parent != OfBlock(parent) then Some(ParentMismatch)
      else if block.timestamp <= parent.timestamp then Some(StaleTimestamp)
      else if block.height <= p.finalizedHeight then Some(BelowFinalized)
      else None
  }

  function LockError(p: Pool, block: Block): Option<PoolError> {
    if p.lockedHeight.None? then None
    else if block.height < p.lockedHeight.value then Some(BelowLock)
    else if p.lockedHash.Some? && block.height == p.lockedHeight.value && OfBlock(block) != p.lockedHash.value then
      Some(ConflictsWithLock)
    else None
  }

  predicate ProposedTwice(p: Pool, c: Block) {
    exists h :: h in p.pending && SameSlot(p.pending[h], c) && OfBlock(p.pending[h]) != OfBlock(c)
  }

  predicate OnFinalizedHeight(p: Pool, c: Block) {
    p.finalized.Some? && p.finalized.value.height == c.height && OfBlock(p.finalized.value) != OfBlock(c)
  }

  function Siblings(pending: Blocks, c: Block): set<Hash> {
    set h | h in pending && pending[h].parent == c.parent && OfBlock(pending[h]) != OfBlock(c)
  }

  predicate AtLeastAsHigh(c: Block, blocks: Blocks) {
    forall h :: h in blocks ==> c.height >= blocks[h].height
  }

  predicate LongestChain(p: Pool, c: Block) {
    AtLeastAsHigh(c, p.pending) && AtLeastAsHigh(c, p.committed)
    && (p.finalized.Some? ==> c.height >= p.finalized.value.height)
  }

  predicate Preferred(p: Pool, c: Block, incumbent: Block) {
    if c.height != incumbent.height then c.height > incumbent.height
    else p.highestQc == Some(OfBlock(c)) || p.highestQc != Some(OfBlock(incumbent))
  }

  // ----- what the operations do -----------------------------------------------------------

  function Resolved(p: Pool, c: Block): (Blocks, Option<PoolError>) {
    if !LongestChain(p, c) then (p.pending, Some(ShorterBranch))
    else if exists h :: h in Siblings(p.pending, c) && !Preferred(p, c, p.pending[h]) then
      (p.pending, Some(KeptIncumbent))
    else (p.pending - Siblings(p.pending, c), None)
  }

  /** `wellFormed` stands for the stateless block checks, `authorised` for chain id, version,
      signature and leadership. */
  function ProposalError(p: Pool, c: Block, wellFormed: bool, authorised: bool): Option<PoolError> {
    if !wellFormed then Some(Malformed)
    else if ParentError(p, c).Some? then ParentError(p, c)
    else if |p.pending| >= MAX_PENDING_BLOCKS then Some(TooManyPending)
    else if LockError(p, c).Some? then LockError(p, c)
    else if !authorised then Some(Unauthorised)
    else if ProposedTwice(p, c) then Some(ConflictingProposal)
    else if OnFinalizedHeight(p, c) then Some(ConflictingBranch)
    else if Siblings(p.pending, c) != {} then Resolved(p, c).1
    else None
  }

  function Proposed(p: Pool, c: Block, wellFormed: bool, authorised: bool): (Pool, Option<PoolError>) {
    match ProposalError(p, c, wellFormed, authorised)
    case Some(e) => (p, Some(e))
    case None => (p.(pending := (p.pending - Siblings(p.pending, c))[OfBlock(c) := c]), None)
  }

  function Committed(p: Pool, hash: Hash): (Pool, Option<PoolError>) {
    if hash in p.committed || (p.finalized.Some? && OfBlock(p.finalized.value) == hash) then (p, None)
    else if hash !in p.pending then (p, Some(UnknownBlock))
    else (p.(pending := p.pending - {hash}, committed := p.committed[hash := p.pending[hash]]), None)
  }

  /** `certified` says that a valid quorum certificate for the block is at hand. */
  function Finalized(p: Pool, hash: Hash, certified: bool): (Pool, Option<PoolError>) {
    if p.finalized.Some? && OfBlock(p.finalized.value) == hash then (p, None)
    else if !certified then (p, Some(InvalidCertificate))
    else if hash !in p.committed then (p, Some(UnknownBlock))
    else
      var block := p.committed[hash];
      if p.finalized.Some? && block.height <= p.finalized.value.height then (p, Some(DoesNotAdvance))
      else (p.(committed := p.committed - {hash}, finalized := Some(block), finalizedHeight := block.height,
               storage := p.storage[block.height := block]), None)
  }

  function Above(blocks: Blocks, height: Height): Blocks {
    map h | h in blocks && blocks[h].height > height :: blocks[h]
  }

  function Pruned(p: Pool): Pool {
    p.(pending := Above(p.pending, p.finalizedHeight), committed := Above(p.committed, p.finalizedHeight))
  }

  function Certified(p: Pool, hash: Hash, certified: bool): (Pool, Option<PoolError>) {
    var (q, e) := if hash in p.committed then (p, None) else Committed(p, hash);
    if e.Some? then (q, e)
    else
      var (r, f) := Finalized(q, hash, certified);
      (Pruned(r), f)
  }

  class Consensus {
    var pending: Blocks
    var committed: Blocks
    var finalized: Option<Block>
    var finalizedHeight: Height
    var storage: map<Height, Block>
    var highestQc: Option<Hash>
    var lockedHash: Option<Hash>
    var lockedHeight: Option<Height>

    /** A node that starts, or starts again, on a stored chain. */
    constructor (chain: map<Height, Block>, height: Height)
      ensures View() == Fresh(chain, height)
    {
      pending, committed, finalized, finalizedHeight, storage := map[], map[], None, height, chain;
      highestQc, lockedHash, lockedHeight := None, None, None;
    }

    function View(): Pool
      reads this
    {
      Pool(pending, committed, finalized, finalizedHeight, storage, highestQc, lockedHash, lockedHeight)
    }

    method ResolveFork(c: Block) returns (e: Option<PoolError>)
      requires DistinctParents(pending)
      modifies `pending
      ensures (pending, e) == Resolved(old(View()), c)
    {
      if !LongestChain(View(), c) {
        return Some(ShorterBranch);
      }
      ghost var before := View();
      var conflicting := Siblings(pending, c);
      while conflicting != {}
        invariant conflicting <= Siblings(before.pending, c)
        invariant View() == before.(pending := before.pending - (Siblings(before.pending, c) - conflicting))
        invariant forall h :: h in Siblings(before.pending, c) - conflicting ==> Preferred(before, c, before.pending[h])
        decreases |conflicting|
      {
        var hash :| hash in conflicting;
        if !Preferred(View(), c, pending[hash]) {
          OneSibling(before.pending, c, hash);
          assert Siblings(before.pending, c) - conflicting == {};
          assert pending == before.pending;
          return Some(KeptIncumbent);
        }
        pending := pending - {hash};
        conflicting := conflicting - {hash};
      }
      assert Siblings(before.pending, c) - conflicting == Siblings(before.pending, c);
      return None;
    }

    method ProcessBlockProposal(c: Block, wellFormed: bool, authorised: bool) returns (e: Option<PoolError>)
      requires DistinctParents(pending)
      modifies `pending
      ensures (View(), e) == Proposed(old(View()), c, wellFormed, authorised)
    {
      if !wellFormed {
        return Some(Malformed);
      }
      var parentError := ParentError(View(), c);
      if parentError.Some? {
        return parentError;
      }
      if |pending| >= MAX_PENDING_BLOCKS {
        return Some(TooManyPending);
      }
      var lockError := LockError(View(), c);
      if lockError.Some? {
        return lockError;
      }
      if !authorised {
        return Some(Unauthorised);
      }
      if ProposedTwice(View(), c) {
        return Some(ConflictingProposal);
      }
      if OnFinalizedHeight(View(), c) {
        return Some(ConflictingBranch);
      }
      if Siblings(pending, c) != {} {
        var forkError := ResolveFork(c);
        if forkError.Some? {
          return forkError;
        }
      } else {
        assert pending - Siblings(pending, c) == pending;
      }
      pending := pending[OfBlock(c) := c];
      return None;
    }

    method CommitBlock(hash: Hash) returns (e: Option<PoolError>)
      modifies `pending, `committed
      ensures (View(), e) == Committed(old(View()), hash)
    {
      if hash in committed || (finalized.Some? && OfBlock(finalized.value) == hash) {
        return None;
      }
      if hash !in pending {
        return Some(UnknownBlock);
      }
      var block := pending[hash];
      pending := pending - {hash};
      committed := committed[hash := block];
      return None;
    }

    method FinalizeBlock(hash: Hash, certified: bool) returns (e: Option<PoolError>)
      modifies `committed, `finalized, `finalizedHeight, `storage
      ensures (View(), e) == Finalized(old(View()), hash, certified)
    {
      if finalized.Some? && OfBlock(finalized.value) == hash {
        return None;
      }
      if !certified {
        return Some(InvalidCertificate);
      }
      if hash !in committed {
        return Some(UnknownBlock);
      }
      if finalized.Some? && committed[hash].height <= finalized.value.height {
        return Some(DoesNotAdvance);
      }
      var block := committed[hash];
      committed := committed - {hash};
      finalizedHeight := block.height;
      storage := storage[block.height := block];
      finalized := Some(block);
      return None;
    }

    method FinalizeBlockOnceQuorumReached(hash: Hash, certified: bool) returns (e: Option<PoolError>)
      modifies `pending, `committed, `finalized, `finalizedHeight, `storage
      ensures (View(), e) == Certified(old(View()), hash, certified)
    {
      if hash !in committed {
        e := CommitBlock(hash);
        if e.Some? {
          return;
        }
      }
      e := FinalizeBlock(hash, certified);
      pending := Above(pending, finalizedHeight);
      committed := Above(committed, finalizedHeight);
    }
  }

  function Fresh(chain: map<Height, Block>, height: Height): Pool {
    Pool(map[], map[], None, height, chain, None, None, None)
  }

  // ----- invariants -----------------------------------------------------------------------

  ghost predicate Keyed(blocks: Blocks) {
    forall h :: h in blocks ==> h == OfBlock(blocks[h])
  }

  predicate DistinctParents(blocks: Blocks) {
    forall g, h :: g in blocks && h in blocks && blocks[g].parent == blocks[h].parent ==> g == h
  }

  predicate SameSlot(a: Block, b: Block) {
    a.height == b.height && a.proposer == b.proposer
  }

  ghost predicate OneProposalEach(blocks: Blocks) {
    forall g, h :: g in blocks && h in blocks && SameSlot(blocks[g], blocks[h]) ==> g == h
  }

  ghost predicate AllAbove(blocks: Blocks, height: Height) {
    forall h :: h in blocks ==> blocks[h].height > height
  }

  /** Each block names a parent one height below it that is older than it. */
  ghost predicate Linked(blocks: Blocks) {
    forall h :: h in blocks ==> LinkedBlock(blocks[h])
  }

  ghost predicate LinkedBlock(b: Block) {
    b.parent.OfBlock? && b.height == Successor(b.parent.block.height) && b.timestamp > b.parent.block.timestamp
  }

  ghost predicate ForkFree(pending: Blocks) {
    && |pending| <= MAX_PENDING_BLOCKS && Keyed(pending)
    && DistinctParents(pending) && OneProposalEach(pending) && Linked(pending)
  }

  ghost predicate Anchored(p: Pool) {
    && (p.finalized.Some? ==> p.finalized.value.height == p.finalizedHeight)
    && (forall k :: k in p.storage ==> k <= p.finalizedHeight)
  }

  ghost predicate Sound(p: Pool) {
    && ForkFree(p.pending) && Keyed(p.committed) && Anchored(p)
    && AllAbove(p.pending, p.finalizedHeight) && AllAbove(p.committed, p.finalizedHeight)
  }

  lemma {:induction false} OneSibling(pending: Blocks, c: Block, hash: Hash)
    requires DistinctParents(pending) && hash in Siblings(pending, c)
    ensures Siblings(pending, c) == {hash}
  {
  }

  lemma {:induction false} ForkFreePart(part: Blocks, whole: Blocks)
    requires ForkFree(whole) && part.Keys <= whole.Keys && forall h :: h in part ==> part[h] == whole[h]
    ensures ForkFree(part)
  {
    SubsetSize(part.Keys, whole.Keys);
  }

  lemma {:induction false} Insertion(rest: Blocks, c: Block)
    requires ForkFree(rest) && |rest| < MAX_PENDING_BLOCKS && LinkedBlock(c)
    requires forall h :: h in rest ==> (rest[h].parent == c.parent || SameSlot(rest[h], c) ==> h == OfBlock(c))
    ensures ForkFree(rest[OfBlock(c) := c])
  {
  }

  /** What an accepted proposal has been checked for. */
  lemma {:induction false} AcceptedProposal(p: Pool, c: Block, wellFormed: bool, authorised: bool)
    requires Sound(p) && ProposalError(p, c, wellFormed, authorised).None?
    ensures LinkedBlock(c) && c.height > p.finalizedHeight && |p.pending| < MAX_PENDING_BLOCKS && !ProposedTwice(p, c)
    ensures LockError(p, c).None?
  {
  }

  lemma {:induction false} RemainingAreOthers(p: Pool, c: Block)
    requires Keyed(p.pending) && !ProposedTwice(p, c)
    ensures var rest := p.pending - Siblings(p.pending, c);
      forall h :: h in rest ==> (rest[h].parent == c.parent || SameSlot(rest[h], c) ==> h == OfBlock(c))
  {
  }

  lemma {:induction false} ProposalSound(p: Pool, c: Block, wellFormed: bool, authorised: bool)
    requires Sound(p)
    ensures Sound(Proposed(p, c, wellFormed, authorised).0)
  {
    if ProposalError(p, c, wellFormed, authorised).None? {
      AcceptedProposal(p, c, wellFormed, authorised);
      RemainingAreOthers(p, c);
      var rest := p.pending - Siblings(p.pending, c);
      ForkFreePart(rest, p.pending);
      SubsetSize(rest.Keys, p.pending.Keys);
      Insertion(rest, c);
    }
  }

  lemma {:induction false} CommittedSound(p: Pool, hash: Hash)
    requires Sound(p)
    ensures Sound(Committed(p, hash).0)
  {
  }

  /** Pruning drops whatever finalizing left at or below the finalized height. */
  lemma {:induction false} FinalizedSound(p: Pool, hash: Hash, certified: bool)
    requires Sound(p)
    ensures Sound(Pruned(Finalized(p, hash, certified).0))
  {
    ForkFreePart(Pruned(Finalized(p, hash, certified).0).pending, p.pending);
  }

  lemma {:induction false} FinalizedAdvances(p: Pool, hash: Hash, certified: bool)
    requires Sound(p)
    ensures Advances(p, Finalized(p, hash, certified).0)
  {
  }

  lemma {:induction false} CertifiedIsFinalized(p: Pool, hash: Hash, certified: bool) returns (q: Pool)
    requires Sound(p)
    ensures Sound(q) && q.finalized == p.finalized && q.finalizedHeight == p.finalizedHeight && q.storage == p.storage
    ensures var r := Certified(p, hash, certified).0;
      r == q || r == Pruned(Finalized(q, hash, certified).0)
  {
    if hash in p.committed {
      q := p;
    } else {
      q := Committed(p, hash).0;
      CommittedSound(p, hash);
    }
  }

  lemma {:induction false} CertifiedSound(p: Pool, hash: Hash, certified: bool)
    requires Sound(p)
    ensures Sound(Certified(p, hash, certified).0)
    ensures Advances(p, Certified(p, hash, certified).0)
  {
    var q := CertifiedIsFinalized(p, hash, certified);
    FinalizedSound(q, hash, certified);
    FinalizedAdvances(q, hash, certified);
  }

  /** The finalized height rises exactly when the finalized block changes, and the canonical chain
      keeps what it holds. */
  ghost predicate Advances(p: Pool, q: Pool) {
    && (if q.finalized == p.finalized then q.finalizedHeight == p.finalizedHeight
        else q.finalizedHeight > p.finalizedHeight)
    && Extends(p.storage, q.storage)
  }

  ghost predicate Extends(chain: map<Height, Block>, longer: map<Height, Block>) {
    forall k :: k in chain ==> k in longer && longer[k] == chain[k]
  }

  // ----- runs -----------------------------------------------------------------------------

  /** What reaches the node: a proposal, a commit certificate, or votes and certificates of the
      earlier phases, which leave the blocks alone and may move the highest certificate and the lock. */
  datatype Event =
    | Proposal(block: Block, wellFormed: bool, authorised: bool)
    | Commit(hash: Hash, certified: bool)
    | Guide(highestQc: Option<Hash>, lockedHash: Option<Hash>, lockedHeight: Option<Height>)

  function Step(p: Pool, e: Event): Pool {
    match e
    case Proposal(block, wellFormed, authorised) => Proposed(p, block, wellFormed, authorised).0
    case Commit(hash, certified) => if hash in p.pending then Certified(p, hash, certified).0 else p
    case Guide(qc, hash, height) => p.(highestQc := qc, lockedHash := hash, lockedHeight := height)
  }

  function Run(p: Pool, events: seq<Event>): Pool
    decreases |events|
  {
    if events == [] then p else Run(Step(p, events[0]), events[1..])
  }

  /** The heights finalized by a run, in order. */
  function FinalizedHeights(p: Pool, events: seq<Event>): seq<Height>
    decreases |events|
  {
    if events == [] then []
    else
      var q := Step(p, events[0]);
      (if q.finalized != p.finalized then [q.finalizedHeight] else []) + FinalizedHeights(q, events[1..])
  }

  lemma {:induction false} StepSound(p: Pool, e: Event)
    requires Sound(p)
    ensures Sound(Step(p, e)) && Advances(p, Step(p, e))
  {
    match e
    case Proposal(block, wellFormed, authorised) => ProposalSound(p, block, wellFormed, authorised);
    case Commit(hash, certified) => CertifiedSound(p, hash, certified);
    case Guide(_, _, _) =>
  }

  ghost predicate IncreasingAbove(heights: seq<Height>, floor: Height)
    decreases |heights|
  {
    heights == [] || (heights[0] > floor && IncreasingAbove(heights[1..], heights[0]))
  }

  /** Over every run from a sound pool: pending blocks have pairwise distinct parents and pairwise
      distinct height and proposer, number at most 256 and lie above the finalized height; finalized
      heights strictly increase; and a block once in the canonical chain is never replaced. */
  lemma {:induction false} RunSound(p: Pool, events: seq<Event>)
    requires Sound(p)
    ensures Sound(Run(p, events))
    ensures IncreasingAbove(FinalizedHeights(p, events), p.finalizedHeight)
    ensures Extends(p.storage, Run(p, events).storage)
    decreases |events|
  {
    if events != [] {
      var q := Step(p, events[0]);
      StepSound(p, events[0]);
      RunSound(q, events[1..]);
      var later := FinalizedHeights(q, events[1..]);
      if q.finalized != p.finalized {
        assert ([q.finalizedHeight] + later)[1..] == later;
      } else {
        assert [] + later == later;
      }
    }
  }

  lemma {:induction false} FreshSound(chain: map<Height, Block>, height: Height)
    ensures Sound(Fresh(chain, height)) <==> forall k :: k in chain ==> k <= height
  {
  }

  /** A pending block that carries the highest certificate is never displaced by a proposal. */
  lemma {:induction false} CertifiedBlockStays(p: Pool, c: Block, wellFormed: bool, authorised: bool, incumbent: Block)
    requires Sound(p) && OfBlock(incumbent) in p.pending && p.highestQc == Some(OfBlock(incumbent))
    ensures OfBlock(incumbent) in Proposed(p, c, wellFormed, authorised).0.pending
  {
  }

  /** A proposal enters the pool only if it respects the lock: not below the locked height, and at
      that height only the locked block itself. */
  lemma {:induction false} EntrantRespectsLock(p: Pool, c: Block, wellFormed: bool, authorised: bool, h: Hash)
    requires Sound(p) && h in Proposed(p, c, wellFormed, authorised).0.pending && h !in p.pending
    requires p.lockedHeight.Some?
    ensures h == OfBlock(c) && c.height >= p.lockedHeight.value
    ensures c.height == p.lockedHeight.value && p.lockedHash.Some? ==> h == p.lockedHash.value
  {
  }
}
