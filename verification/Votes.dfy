/** Vote admission and counting at one node, and when two blocks can both gather a quorum. */
module Votes {
  import opened Basics
  import opened Outcomes
  import opened Validators

  const MAX_UNAUTHENTICATED_VIEW_JUMP: nat := 32
  const PRUNE_BUFFER: nat := 10

  datatype Phase = Prepare | PreCommit | Commit

  datatype BlockHash = BlockHash(id: nat)

  datatype Vote = Vote(validator: Address, hash: BlockHash, view: nat, phase: Phase)

  /** What votes are counted for. */
  datatype Ballot = Ballot(view: nat, hash: BlockHash, phase: Phase)

  /** What a validator votes in, at most once. */
  datatype Slot = Slot(view: nat, phase: Phase, validator: Address)

  datatype VoteError = WrongView | UnknownBlock | ConflictsWithLock | DoubleVote | NotEligible | BadReveal

  /** The voters counted per ballot, the block each validator last voted for per slot, and the view. */
  datatype Book = Book(votes: map<Ballot, seq<Address>>, cast: map<Slot, BlockHash>, view: nat)

  function BallotOf(v: Vote): Ballot { Ballot(v.view, v.hash, v.phase) }

  function SlotOf(v: Vote): Slot { Slot(v.view, v.phase, v.validator) }

  function VotersOf(b: Book, ballot: Ballot): seq<Address> {
    if ballot in b.votes then b.votes[ballot] else []
  }

  function Added(b: Book, v: Vote, revealed: bool): (Book, Option<VoteError>) {
    if SlotOf(v) in b.cast && b.cast[SlotOf(v)] != v.hash then (b, Some(DoubleVote))
    else if !revealed then (b, Some(BadReveal))
    else
      var voters := VotersOf(b, BallotOf(v));
      (b.(votes := b.votes[BallotOf(v) := if v.validator in voters then voters else voters + [v.validator]],
          cast := b.cast[SlotOf(v) := v.hash]), None)
  }

  function Synced(view: nat, claimed: nat): nat {
    if claimed <= view || claimed > Saturated(view + MAX_UNAUTHENTICATED_VIEW_JUMP, MAX_U64) then view else claimed
  }

  /** What a node checks a vote for outside its vote books: the block is pending, the vote respects
      the lock, it carries a valid signature, and its entropy reveal agrees with the commitment. */
  datatype Checks = Checks(known: bool, unlocked: bool, signed: bool, revealed: bool)

  function Processed(vs: ValidatorSet, b: Book, v: Vote, k: Checks): (Book, Option<VoteError>) {
    if v.view < b.view || (v.view > b.view && !k.known) then (b, Some(WrongView))
    else
      var c := b.(view := Synced(b.view, v.view));
      if !k.known then (c, Some(UnknownBlock))
      else if !k.unlocked then (c, Some(ConflictsWithLock))
      else if SlotOf(v) in c.cast && c.cast[SlotOf(v)] != v.hash then (c, Some(DoubleVote))
      else if v.validator !in Eligible(vs) || !k.signed then (c, Some(NotEligible))
      else Added(c, v, k.revealed)
  }

  function PrunedBelow(b: Book, minView: nat): Book {
    b.(votes := map k | k in b.votes && k.view >= minView :: b.votes[k],
       cast := map k | k in b.cast && k.view >= minView :: b.cast[k])
  }

  function PruneThreshold(view: nat): nat {
    if view < PRUNE_BUFFER then 0 else view - PRUNE_BUFFER
  }

  class Replica {
    const validatorSet: ValidatorSet
    var votes: map<Ballot, seq<Address>>
    var validatorVotes: map<Slot, BlockHash>
    var currentView: nat

    constructor (vs: ValidatorSet)
      ensures View() == EMPTY_BOOK && validatorSet == vs
    {
      validatorSet, votes, validatorVotes, currentView := vs, map[], map[], 0;
    }

    function View(): Book
      reads this
    {
      Book(votes, validatorVotes, currentView)
    }

    method AddVote(v: Vote, revealed: bool) returns (e: Option<VoteError>)
      modifies `votes, `validatorVotes
      ensures (View(), e) == Added(old(View()), v, revealed)
    {
      if SlotOf(v) in validatorVotes {
        if validatorVotes[SlotOf(v)] != v.hash {
          return Some(DoubleVote);
        }
      }
      if !revealed {
        return Some(BadReveal);
      }
      var entry := if BallotOf(v) in votes then votes[BallotOf(v)] else [];
      if v.validator !in entry {
        entry := entry + [v.validator];
      }
      votes := votes[BallotOf(v) := entry];
      validatorVotes := validatorVotes[SlotOf(v) := v.hash];
      return None;
    }

    method ProcessVote(v: Vote, k: Checks) returns (e: Option<VoteError>, quorum: bool)
      modifies `votes, `validatorVotes, `currentView
      ensures (View(), e) == Processed(validatorSet, old(View()), v, k)
      ensures quorum <==> e.None? && Reached(validatorSet, View(), BallotOf(v))
    {
      if v.view > currentView {
        if k.known {
          currentView := Synced(currentView, v.view);
        } else {
          return Some(WrongView), false;
        }
      } else if v.view < currentView {
        return Some(WrongView), false;
      }
      if !k.known {
        return Some(UnknownBlock), false;
      }
      if !k.unlocked {
        return Some(ConflictsWithLock), false;
      }
      if SlotOf(v) in validatorVotes && validatorVotes[SlotOf(v)] != v.hash {
        return Some(DoubleVote), false;
      }
      if v.validator !in validatorSet || !k.signed || validatorSet[v.validator].power == 0 {
        return Some(NotEligible), false;
      }
      e := AddVote(v, k.revealed);
      quorum := e.None? && |votes[BallotOf(v)]| >= QuorumThreshold(validatorSet);
    }

    method PruneVotes()
      modifies `votes, `validatorVotes
      ensures View() == PrunedBelow(old(View()), PruneThreshold(currentView))
    {
      var minView := PruneThreshold(currentView);
      votes := map k | k in votes && k.view >= minView :: votes[k];
      validatorVotes := map k | k in validatorVotes && k.view >= minView :: validatorVotes[k];
    }
  }

  const EMPTY_BOOK := Book(map[], map[], 0)

  /** A certificate is formed for a ballot that holds a vote and meets the threshold. */
  predicate Reached(vs: ValidatorSet, b: Book, ballot: Ballot) {
    ballot in b.votes && |b.votes[ballot]| >= QuorumThreshold(vs)
  }

  /** The votes a certificate takes: the threshold, and never none, although the threshold is zero
      while no validator is active. */
  function VotesNeeded(vs: ValidatorSet): nat {
    if QuorumThreshold(vs) == 0 then 1 else QuorumThreshold(vs)
  }

  // ----- runs -----------------------------------------------------------------------------

  datatype Op = Cast(vote: Vote, checks: Checks) | Advance(view: nat) | Prune

  /** A node with a record, never pruned, of every vote it has counted. */
  datatype State = State(book: Book, history: map<Slot, BlockHash>)

  const INITIAL := State(EMPTY_BOOK, map[])

  function Step(vs: ValidatorSet, s: State, op: Op): State {
    match op
    case Cast(v, k) =>
      var (b, e) := Processed(vs, s.book, v, k);
      State(b, if e.None? then s.history[SlotOf(v) := v.hash] else s.history)
    case Advance(view) => if view > s.book.view then s.(book := s.book.(view := view)) else s
    case Prune => s.(book := PrunedBelow(s.book, PruneThreshold(s.book.view)))
  }

  function Run(vs: ValidatorSet, s: State, ops: seq<Op>): State
    decreases |ops|
  {
    if ops == [] then s else Run(vs, Step(vs, s, ops[0]), ops[1..])
  }

  /** A certificate can be formed for the ballot at some moment of the run. */
  predicate EverReached(vs: ValidatorSet, s: State, ops: seq<Op>, ballot: Ballot)
    decreases |ops|
  {
    Reached(vs, s.book, ballot) || (ops != [] && EverReached(vs, Step(vs, s, ops[0]), ops[1..], ballot))
  }

  predicate BothReached(vs: ValidatorSet, ops: seq<Op>, view: nat, phase: Phase, g: BlockHash, h: BlockHash) {
    EverReached(vs, INITIAL, ops, Ballot(view, g, phase)) && EverReached(vs, INITIAL, ops, Ballot(view, h, phase))
  }

  ghost predicate UniqueQuorums(vs: ValidatorSet) {
    forall ops: seq<Op>, view: nat, phase: Phase, g: BlockHash, h: BlockHash ::
      BothReached(vs, ops, view, phase, g, h) ==> g == h
  }

  // ----- what every run keeps -------------------------------------------------------------

  ghost predicate ListBacked(s: State, ballot: Ballot) {
    var voters := VotersOf(s.book, ballot);
    && (ballot in s.book.votes ==> voters != [])
    && Distinct(voters)
    && forall i :: 0 <= i < |voters| ==> Voted(s.history, ballot, voters[i])
  }

  predicate Voted(history: map<Slot, BlockHash>, ballot: Ballot, a: Address) {
    var slot := Slot(ballot.view, ballot.phase, a);
    slot in history && history[slot] == ballot.hash
  }

  ghost predicate SlotKept(s: State, slot: Slot) {
    (slot in s.history && slot.view >= PruneThreshold(s.book.view)) ==>
      slot in s.book.cast && s.book.cast[slot] == s.history[slot]
  }

  ghost predicate Faithful(vs: ValidatorSet, s: State) {
    && (forall ballot: Ballot :: ListBacked(s, ballot))
    && (forall slot: Slot :: SlotKept(s, slot))
    && (forall slot :: slot in s.history ==> slot.validator in Eligible(vs))
  }

  ghost predicate Extends(history: map<Slot, BlockHash>, longer: map<Slot, BlockHash>) {
    forall slot :: slot in history ==> slot in longer && longer[slot] == history[slot]
  }

  /** A counted vote never overwrites another one: while its slot can still receive votes, the node
      remembers what was cast in it. */
  lemma {:induction false} CastExtends(vs: ValidatorSet, s: State, v: Vote, k: Checks)
    requires Faithful(vs, s)
    ensures Extends(s.history, Step(vs, s, Cast(v, k)).history)
  {
    assert SlotKept(s, SlotOf(v));
  }

  lemma {:induction false} CastListBacked(vs: ValidatorSet, s: State, v: Vote, k: Checks, ballot: Ballot)
    requires Faithful(vs, s)
    ensures ListBacked(Step(vs, s, Cast(v, k)), ballot)
  {
    var t := Step(vs, s, Cast(v, k));
    CastExtends(vs, s, v, k);
    assert ListBacked(s, ballot);
    var before, after := VotersOf(s.book, ballot), VotersOf(t.book, ballot);
    forall i | 0 <= i < |before|
      ensures Voted(t.history, ballot, before[i])
    {
      assert Voted(s.history, ballot, before[i]);
    }
  }

  lemma {:induction false} StepFaithful(vs: ValidatorSet, s: State, op: Op)
    requires Faithful(vs, s)
    ensures Faithful(vs, Step(vs, s, op)) && Extends(s.history, Step(vs, s, op).history)
  {
    var t := Step(vs, s, op);
    if op.Cast? {
      CastExtends(vs, s, op.vote, op.checks);
    }
    forall ballot: Ballot
      ensures ListBacked(t, ballot)
    {
      assert ListBacked(s, ballot);
      if op.Cast? {
        CastListBacked(vs, s, op.vote, op.checks, ballot);
      }
    }
    forall slot: Slot
      ensures SlotKept(t, slot)
    {
      assert SlotKept(s, slot);
    }
  }

  // ----- two quorums ----------------------------------------------------------------------

  ghost function Supporters(vs: ValidatorSet, history: map<Slot, BlockHash>, ballot: Ballot): set<Address> {
    set a | a in Eligible(vs) && Voted(history, ballot, a)
  }

  lemma {:induction false} ReachedHasSupporters(vs: ValidatorSet, s: State, ballot: Ballot)
    requires Faithful(vs, s) && Reached(vs, s.book, ballot)
    ensures |Supporters(vs, s.history, ballot)| >= VotesNeeded(vs)
  {
    assert ListBacked(s, ballot);
    var voters := VotersOf(s.book, ballot);
    DistinctSize(voters);
    SubsetSize(Members(voters), Supporters(vs, s.history, ballot));
  }

  lemma {:induction false} EverReachedHasSupporters(vs: ValidatorSet, s: State, ops: seq<Op>, ballot: Ballot)
    requires Faithful(vs, s) && EverReached(vs, s, ops, ballot)
    ensures |Supporters(vs, Run(vs, s, ops).history, ballot)| >= VotesNeeded(vs)
    decreases |ops|
  {
    if Reached(vs, s.book, ballot) {
      ReachedHasSupporters(vs, s, ballot);
      RunExtends(vs, s, ops);
      SubsetSize(Supporters(vs, s.history, ballot), Supporters(vs, Run(vs, s, ops).history, ballot));
    } else {
      StepFaithful(vs, s, ops[0]);
      EverReachedHasSupporters(vs, Step(vs, s, ops[0]), ops[1..], ballot);
    }
  }

  lemma {:induction false} RunExtends(vs: ValidatorSet, s: State, ops: seq<Op>)
    requires Faithful(vs, s)
    ensures Extends(s.history, Run(vs, s, ops).history)
    decreases |ops|
  {
    if ops != [] {
      StepFaithful(vs, s, ops[0]);
      RunExtends(vs, Step(vs, s, ops[0]), ops[1..]);
    }
  }

  lemma {:induction false} TwoQuorumsNeed(vs: ValidatorSet, ops: seq<Op>, view: nat, phase: Phase,
        g: BlockHash, h: BlockHash)
    requires BothReached(vs, ops, view, phase, g, h) && g != h
    ensures |Eligible(vs)| >= 2 * VotesNeeded(vs)
  {
    EverReachedHasSupporters(vs, INITIAL, ops, Ballot(view, g, phase));
    EverReachedHasSupporters(vs, INITIAL, ops, Ballot(view, h, phase));
    var history := Run(vs, INITIAL, ops).history;
    var a, b := Supporters(vs, history, Ballot(view, g, phase)), Supporters(vs, history, Ballot(view, h, phase));
    assert a !! b;
    SubsetSize(a + b, Eligible(vs));
  }

  // ----- and how they arise ---------------------------------------------------------------

  function Casts(voters: seq<Address>, hash: BlockHash): seq<Op> {
    seq(|voters|, i requires 0 <= i < |voters| =>
      Cast(Vote(voters[i], hash, 0, Prepare), Checks(true, true, true, true)))
  }

  /** From `b` to `c` the voters are added to one ballot, and nobody else's ballot or slot changes. */
  ghost predicate Counted(b: Book, c: Book, voters: seq<Address>, hash: BlockHash) {
    && c.view == 0
    && VotersOf(c, Ballot(0, hash, Prepare)) == VotersOf(b, Ballot(0, hash, Prepare)) + voters
    && (forall g :: g != hash ==> VotersOf(c, Ballot(0, g, Prepare)) == VotersOf(b, Ballot(0, g, Prepare)))
    && (forall a :: a !in voters && Slot(0, Prepare, a) !in b.cast ==> Slot(0, Prepare, a) !in c.cast)
  }

  lemma {:induction false} CountedThen(b: Book, c: Book, d: Book, first: Address, rest: seq<Address>, hash: BlockHash)
    requires Counted(b, c, [first], hash) && Counted(c, d, rest, hash)
    ensures Counted(b, d, [first] + rest, hash)
  {
    var ballot := Ballot(0, hash, Prepare);
    assert VotersOf(b, ballot) + [first] + rest == VotersOf(b, ballot) + ([first] + rest);
  }

  predicate Free(b: Book, a: Address, hash: BlockHash) {
    Slot(0, Prepare, a) !in b.cast && a !in VotersOf(b, Ballot(0, hash, Prepare))
  }

  lemma {:induction false} CastOne(vs: ValidatorSet, s: State, a: Address, hash: BlockHash)
    requires s.book.view == 0 && a in Eligible(vs) && Free(s.book, a, hash)
    ensures Counted(s.book, Step(vs, s, Casts([a], hash)[0]).book, [a], hash)
  {
  }

  /** Fresh eligible voters are all counted. */
  lemma {:induction false} CastsCount(vs: ValidatorSet, s: State, voters: seq<Address>, hash: BlockHash)
    requires s.book.view == 0 && Distinct(voters)
    requires forall i :: 0 <= i < |voters| ==> voters[i] in Eligible(vs) && Free(s.book, voters[i], hash)
    ensures Counted(s.book, Run(vs, s, Casts(voters, hash)).book, voters, hash)
    decreases |voters|
  {
    if voters != [] {
      var t, rest := Step(vs, s, Casts(voters, hash)[0]), voters[1..];
      CastOne(vs, s, voters[0], hash);
      assert Casts(voters, hash)[1..] == Casts(rest, hash);
      assert Casts(voters, hash)[0] == Casts([voters[0]], hash)[0];
      forall i | 0 <= i < |rest|
        ensures rest[i] in Eligible(vs) && Free(t.book, rest[i], hash)
      {
        assert rest[i] == voters[i + 1] && Free(s.book, voters[i + 1], hash);
      }
      CastsCount(vs, t, rest, hash);
      CountedThen(s.book, t.book, Run(vs, t, Casts(rest, hash)).book, voters[0], rest, hash);
      assert voters == [voters[0]] + rest;
    }
  }

  lemma {:induction false} RunAppend(vs: ValidatorSet, s: State, a: seq<Op>, b: seq<Op>)
    ensures Run(vs, s, a + b) == Run(vs, Run(vs, s, a), b)
    decreases |a|
  {
    if a == [] {
      assert a + b == b;
    } else {
      assert (a + b)[0] == a[0] && (a + b)[1..] == a[1..] + b;
      RunAppend(vs, Step(vs, s, a[0]), a[1..], b);
    }
  }

  lemma {:induction false} ReachedAtEnd(vs: ValidatorSet, s: State, ops: seq<Op>, ballot: Ballot)
    requires Reached(vs, Run(vs, s, ops).book, ballot)
    ensures EverReached(vs, s, ops, ballot)
    decreases |ops|
  {
    if ops != [] { ReachedAtEnd(vs, Step(vs, s, ops[0]), ops[1..], ballot); }
  }

  lemma {:induction false} BothCounted(vs: ValidatorSet, a: seq<Address>, b: seq<Address>)
    requires Distinct(a) && Distinct(b) && forall i :: 0 <= i < |b| ==> b[i] !in a
    requires forall i :: 0 <= i < |a| ==> a[i] in Eligible(vs)
    requires forall i :: 0 <= i < |b| ==> b[i] in Eligible(vs)
    ensures var end := Run(vs, INITIAL, Casts(a, BlockHash(0)) + Casts(b, BlockHash(1))).book;
      VotersOf(end, Ballot(0, BlockHash(0), Prepare)) == a && VotersOf(end, Ballot(0, BlockHash(1), Prepare)) == b
  {
    RunAppend(vs, INITIAL, Casts(a, BlockHash(0)), Casts(b, BlockHash(1)));
    CastsCount(vs, INITIAL, a, BlockHash(0));
    CastsCount(vs, Run(vs, INITIAL, Casts(a, BlockHash(0))), b, BlockHash(1));
  }

  lemma {:induction false} TwoQuorumsArise(vs: ValidatorSet) returns (ops: seq<Op>)
    requires |Eligible(vs)| >= 2 * VotesNeeded(vs)
    ensures EverReached(vs, INITIAL, ops, Ballot(0, BlockHash(0), Prepare))
    ensures EverReached(vs, INITIAL, ops, Ballot(0, BlockHash(1), Prepare))
  {
    var t := VotesNeeded(vs);
    var list := Enumerate(Eligible(vs), 2 * t);
    var a, b := list[..t], list[t..];
    ops := Casts(a, BlockHash(0)) + Casts(b, BlockHash(1));
    assert forall i :: 0 <= i < |b| ==> b[i] == list[t + i] && b[i] !in a;
    BothCounted(vs, a, b);
    ReachedAtEnd(vs, INITIAL, ops, Ballot(0, BlockHash(0), Prepare));
    ReachedAtEnd(vs, INITIAL, ops, Ballot(0, BlockHash(1), Prepare));
  }

  /** In no run are certificates formed for two different blocks in one view and phase, exactly when
      the validators whose votes are counted number less than twice the votes a certificate takes. */
  lemma {:induction false} UniqueQuorumsExactly(vs: ValidatorSet)
    ensures UniqueQuorums(vs) <==> |Eligible(vs)| < 2 * VotesNeeded(vs)
  {
    if |Eligible(vs)| < 2 * VotesNeeded(vs) {
      forall ops: seq<Op>, view: nat, phase: Phase, g: BlockHash, h: BlockHash |
        BothReached(vs, ops, view, phase, g, h)
        ensures g == h
      {
        if g != h { TwoQuorumsNeed(vs, ops, view, phase, g, h); }
      }
    } else {
      var ops := TwoQuorumsArise(vs);
      assert BothReached(vs, ops, 0, Prepare, BlockHash(0), BlockHash(1));
    }
  }

  /** When every validator with voting power is active, quorums are unique. */
  lemma {:induction false} ActiveVotersSuffice(vs: ValidatorSet)
    requires Eligible(vs) <= Active(vs)
    ensures UniqueQuorums(vs)
  {
    SubsetSize(Eligible(vs), Active(vs));
    UniqueQuorumsExactly(vs);
  }

  // ----- certificates that stand ----------------------------------------------------------

  /** A formed certificate is verified against the active validators, so every voter in it has to be
      one of them. */
  predicate Stands(vs: ValidatorSet, b: Book, ballot: Ballot) {
    Reached(vs, b, ballot) && forall i :: 0 <= i < |b.votes[ballot]| ==> b.votes[ballot][i] in Active(vs)
  }

  predicate EverStands(vs: ValidatorSet, s: State, ops: seq<Op>, ballot: Ballot)
    decreases |ops|
  {
    Stands(vs, s.book, ballot) || (ops != [] && EverStands(vs, Step(vs, s, ops[0]), ops[1..], ballot))
  }

  ghost function ActiveSupporters(vs: ValidatorSet, history: map<Slot, BlockHash>, ballot: Ballot): set<Address> {
    set a | a in Active(vs) && Voted(history, ballot, a)
  }

  lemma {:induction false} StandsHasSupporters(vs: ValidatorSet, s: State, ballot: Ballot)
    requires Faithful(vs, s) && Stands(vs, s.book, ballot)
    ensures |ActiveSupporters(vs, s.history, ballot)| >= VotesNeeded(vs)
  {
    assert ListBacked(s, ballot);
    var voters := VotersOf(s.book, ballot);
    DistinctSize(voters);
    SubsetSize(Members(voters), ActiveSupporters(vs, s.history, ballot));
  }

  lemma {:induction false} EverStandsHasSupporters(vs: ValidatorSet, s: State, ops: seq<Op>, ballot: Ballot)
    requires Faithful(vs, s) && EverStands(vs, s, ops, ballot)
    ensures |ActiveSupporters(vs, Run(vs, s, ops).history, ballot)| >= VotesNeeded(vs)
    decreases |ops|
  {
    if Stands(vs, s.book, ballot) {
      StandsHasSupporters(vs, s, ballot);
      RunExtends(vs, s, ops);
      SubsetSize(ActiveSupporters(vs, s.history, ballot), ActiveSupporters(vs, Run(vs, s, ops).history, ballot));
    } else {
      StepFaithful(vs, s, ops[0]);
      EverStandsHasSupporters(vs, Step(vs, s, ops[0]), ops[1..], ballot);
    }
  }

  /** For every validator set and every run, at most one block of a view and phase ever has a certificate
      that stands; of two that are formed, the node refuses at least one. */
  lemma {:induction false} OneBlockStands(vs: ValidatorSet, ops: seq<Op>, view: nat, phase: Phase,
        g: BlockHash, h: BlockHash)
    requires EverStands(vs, INITIAL, ops, Ballot(view, g, phase))
    requires EverStands(vs, INITIAL, ops, Ballot(view, h, phase))
    ensures g == h
  {
    EverStandsHasSupporters(vs, INITIAL, ops, Ballot(view, g, phase));
    EverStandsHasSupporters(vs, INITIAL, ops, Ballot(view, h, phase));
    var history := Run(vs, INITIAL, ops).history;
    var a := ActiveSupporters(vs, history, Ballot(view, g, phase));
    var b := ActiveSupporters(vs, history, Ballot(view, h, phase));
    SubsetSize(a + b, Active(vs));
    assert g != h ==> a !! b;
  }
}
