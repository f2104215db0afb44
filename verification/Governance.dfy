/** Governance proposals: voting with replacement, and the tally. */
module Governance {
  import opened Basics
  import opened Outcomes

  const MIN_PROPOSAL_DEPOSIT: nat := 1_000_000_000
  const GOVERNANCE_TIME_LOCK_BLOCKS: nat := 43_200
  const BPS: nat := 10_000

  datatype Voter = Voter(id: nat)

  datatype VoteOption = Yes | No | Abstain | NoWithVeto

  datatype Status = VotingPeriod | Passed | TimeLocked | Rejected | Failed

  /** `timeLocks` holds for parameter changes and software upgrades. */
  datatype Proposal = Proposal(timeLocks: bool, status: Status, start: nat, end: nat, totals: map<VoteOption, nat>,
                               executionHeight: Option<nat>, deposit: nat)

  datatype Key = Key(proposal: nat, voter: Voter)

  datatype Choice = Choice(option: VoteOption, power: nat)

  type Choices = map<Key, Choice>

  datatype State = State(proposals: map<nat, Proposal>, votes: Choices, nextId: nat)

  const EMPTY := State(map[], map[], 1)

  datatype GovError = EmptyWindow | DepositTooSmall | UnknownProposal | NotVoting | WindowClosed

  function TotalOf(totals: map<VoteOption, nat>, o: VoteOption): nat {
    if o in totals then totals[o] else 0
  }

  // ----- operations -----------------------------------------------------------------------

  function Submitted(s: State, timeLocks: bool, start: nat, end: nat, deposit: nat): (State, Result<nat, GovError>) {
    if end <= start then (s, Err(EmptyWindow))
    else if deposit < MIN_PROPOSAL_DEPOSIT then (s, Err(DepositTooSmall))
    else
      var p := Proposal(timeLocks, VotingPeriod, start, end, map[], None, deposit);
      (State(s.proposals[s.nextId := p], s.votes, Saturated(s.nextId + 1, MAX_U64)), Ok(s.nextId))
  }

  function CastError(s: State, id: nat, height: nat): Option<GovError> {
    if id !in s.proposals then Some(UnknownProposal)
    else if s.proposals[id].status != VotingPeriod then Some(NotVoting)
    else if height < s.proposals[id].start || height > s.proposals[id].end then Some(WindowClosed)
    else None
  }

  /** The totals once an earlier vote is taken back and the new one counted. */
  function Replaced(totals: map<VoteOption, nat>, previous: Option<Choice>, now: Choice): map<VoteOption, nat> {
    var without :=
      if previous.None? then totals
      else totals[previous.value.option := SaturatingSub(TotalOf(totals, previous.value.option), previous.value.power)];
    without[now.option := Saturated(TotalOf(without, now.option) + now.power, MAX_U256)]
  }

  function Lookup(votes: Choices, k: Key): Option<Choice> {
    if k in votes then Some(votes[k]) else None
  }

  function VoteCast(s: State, k: Key, c: Choice, height: nat): (State, Option<GovError>) {
    match CastError(s, k.proposal, height)
    case Some(e) => (s, Some(e))
    case None =>
      var p := s.proposals[k.proposal];
      var q := p.(totals := Replaced(p.totals, Lookup(s.votes, k), c));
      (s.(proposals := s.proposals[k.proposal := q], votes := s.votes[k := c]), None)
  }

  function Share(totals: map<VoteOption, nat>, done: set<VoteOption>, o: VoteOption): nat {
    if o in done then TotalOf(totals, o) else 0
  }

  function SumOver(totals: map<VoteOption, nat>, done: set<VoteOption>): nat {
    Share(totals, done, Yes) + Share(totals, done, No) + Share(totals, done, Abstain) + Share(totals, done, NoWithVeto)
  }

  function TotalPower(totals: map<VoteOption, nat>): nat {
    Saturated(SumOver(totals, {Yes, No, Abstain, NoWithVeto}), MAX_U256)
  }

  function Outcome(p: Proposal, quorum: nat, bps: nat): Status {
    var total := TotalPower(p.totals);
    if total < quorum || total == 0 then Failed
    else if Saturated(TotalOf(p.totals, Yes) * BPS, MAX_U256) >= Saturated(total * bps, MAX_U256) then
      if p.timeLocks then TimeLocked else Passed
    else Rejected
  }

  function Tallied(s: State, id: nat, quorum: nat, bps: nat, height: nat): (State, Result<Status, GovError>) {
    if id !in s.proposals then (s, Err(UnknownProposal))
    else
      var p := s.proposals[id];
      var status := Outcome(p, quorum, bps);
      var unlock :=
        if status != TimeLocked then p.executionHeight
        else Some(Saturated(height + GOVERNANCE_TIME_LOCK_BLOCKS, MAX_U64));
      (s.(proposals := s.proposals[id := p.(status := status, executionHeight := unlock)]), Ok(status))
  }

  class GovernanceManager {
    var proposals: map<nat, Proposal>
    var votes: Choices
    var nextId: nat

    constructor ()
      ensures View() == EMPTY
    {
      proposals, votes, nextId := map[], map[], 1;
    }

    function View(): State
      reads this
    {
      State(proposals, votes, nextId)
    }

    method SubmitProposalWithDeposit(timeLocks: bool, start: nat, end: nat, deposit: nat)
      returns (r: Result<nat, GovError>)
      modifies `proposals, `nextId
      ensures (View(), r) == Submitted(old(View()), timeLocks, start, end, deposit)
    {
      if end <= start {
        return Err(EmptyWindow);
      }
      if deposit < MIN_PROPOSAL_DEPOSIT {
        return Err(DepositTooSmall);
      }
      var id := nextId;
      nextId := Saturated(nextId + 1, MAX_U64);
      proposals := proposals[id := Proposal(timeLocks, VotingPeriod, start, end, map[], None, deposit)];
      return Ok(id);
    }

    method CastVote(k: Key, c: Choice, height: nat) returns (e: Option<GovError>)
      modifies `proposals, `votes
      ensures (View(), e) == VoteCast(old(View()), k, c, height)
    {
      if k.proposal !in proposals {
        return Some(UnknownProposal);
      }
      var proposal := proposals[k.proposal];
      if proposal.status != VotingPeriod {
        return Some(NotVoting);
      }
      if height < proposal.start || height > proposal.end {
        return Some(WindowClosed);
      }
      var totals := proposal.totals;
      if k in votes {
        var previous := votes[k];
        totals := totals[previous.option := SaturatingSub(TotalOf(totals, previous.option), previous.power)];
      }
      votes := votes[k := c];
      totals := totals[c.option := Saturated(TotalOf(totals, c.option) + c.power, MAX_U256)];
      proposals := proposals[k.proposal := proposal.(totals := totals)];
      return None;
    }

    method TallyProposalBps(id: nat, quorum: nat, bps: nat, height: nat) returns (r: Result<Status, GovError>)
      modifies `proposals
      ensures (View(), r) == Tallied(old(View()), id, quorum, bps, height)
    {
      if id !in proposals {
        return Err(UnknownProposal);
      }
      var proposal := proposals[id];
      var total := FoldTotals(proposal.totals);
      if total < quorum || total == 0 {
        proposals := proposals[id := proposal.(status := Failed)];
        return Ok(Failed);
      }
      var yes := TotalOf(proposal.totals, Yes);
      if Saturated(yes * BPS, MAX_U256) >= Saturated(total * bps, MAX_U256) {
        if proposal.timeLocks {
          var unlock := Saturated(height + GOVERNANCE_TIME_LOCK_BLOCKS, MAX_U64);
          proposal := proposal.(status := TimeLocked, executionHeight := Some(unlock));
        } else {
          proposal := proposal.(status := Passed);
        }
      } else {
        proposal := proposal.(status := Rejected);
      }
      proposals := proposals[id := proposal];
      return Ok(proposal.status);
    }
  }

  /** Adds the option totals up, in whatever order the map yields them. */
  method FoldTotals(totals: map<VoteOption, nat>) returns (total: nat)
    ensures total == TotalPower(totals)
  {
    total := 0;
    var rest := totals.Keys;
    ghost var done: set<VoteOption> := {};
    while rest != {}
      invariant done + rest == totals.Keys && done !! rest
      invariant total == Saturated(SumOver(totals, done), MAX_U256)
      decreases |rest|
    {
      var o :| o in rest;
      SumGrows(totals, done, o);
      total := Saturated(total + totals[o], MAX_U256);
      rest, done := rest - {o}, done + {o};
    }
    WholeSum(totals, done);
  }

  lemma {:induction false} WholeSum(totals: map<VoteOption, nat>, done: set<VoteOption>)
    requires totals.Keys <= done
    ensures SumOver(totals, done) == SumOver(totals, {Yes, No, Abstain, NoWithVeto})
  {
  }

  lemma {:induction false} SumGrows(totals: map<VoteOption, nat>, done: set<VoteOption>, o: VoteOption)
    requires o !in done
    ensures SumOver(totals, done + {o}) == SumOver(totals, done) + TotalOf(totals, o)
  {
  }

  // ----- what the votes add up to ---------------------------------------------------------

  function Weight(k: Key, c: Choice, id: nat, o: VoteOption): nat {
    if k.proposal == id && c.option == o then c.power else 0
  }

  /** The power behind an option: the sum over the voters whose recorded vote is that option. */
  ghost function Support(votes: Choices, id: nat, o: VoteOption): nat
    decreases |votes|
  {
    if votes == map[] then 0
    else
      var k :| k in votes;
      Weight(k, votes[k], id, o) + Support(votes - {k}, id, o)
  }

  lemma {:induction false} SupportSplit(votes: Choices, id: nat, o: VoteOption, k: Key)
    requires k in votes
    ensures Support(votes, id, o) == Weight(k, votes[k], id, o) + Support(votes - {k}, id, o)
    decreases |votes|
  {
    var j :| j in votes && Support(votes, id, o) == Weight(j, votes[j], id, o) + Support(votes - {j}, id, o);
    if j != k {
      SupportSplit(votes - {j}, id, o, k);
      SupportSplit(votes - {k}, id, o, j);
      assert votes - {j} - {k} == votes - {k} - {j};
    }
  }

  lemma {:induction false} SupportUpdate(votes: Choices, id: nat, o: VoteOption, k: Key, c: Choice)
    ensures Support(votes[k := c], id, o)
         == Support(votes, id, o) - (if k in votes then Weight(k, votes[k], id, o) else 0) + Weight(k, c, id, o)
  {
    SupportSplit(votes[k := c], id, o, k);
    if k in votes {
      SupportSplit(votes, id, o, k);
    }
    assert votes[k := c] - {k} == votes - {k};
    assert k !in votes ==> votes - {k} == votes;
  }

  /** Votes are recorded only for proposals that exist, and every total is what the recorded votes
      add up to. */
  ghost predicate Accounted(s: State) {
    && (forall id :: id in s.proposals ==> id < s.nextId && TotalsMatch(s, id))
    && (forall k :: k in s.votes ==> k.proposal in s.proposals)
  }

  ghost predicate TotalsMatch(s: State, id: nat)
    requires id in s.proposals
  {
    forall o: VoteOption :: TotalOf(s.proposals[id].totals, o) == Support(s.votes, id, o)
  }

  /** The power behind every option fits in 256 bits. */
  ghost predicate Fits(s: State) {
    forall id: nat, o: VoteOption :: Support(s.votes, id, o) <= MAX_U256
  }

  lemma {:induction false} NoSupportYet(votes: Choices, id: nat, o: VoteOption)
    requires forall k :: k in votes ==> k.proposal != id
    ensures Support(votes, id, o) == 0
    decreases |votes|
  {
    if votes != map[] {
      var k :| k in votes;
      SupportSplit(votes, id, o, k);
      NoSupportYet(votes - {k}, id, o);
    }
  }

  lemma {:induction false} CastAccounted(s: State, k: Key, c: Choice, height: nat)
    requires Accounted(s) && Fits(VoteCast(s, k, c, height).0)
    ensures Accounted(VoteCast(s, k, c, height).0)
  {
    var t := VoteCast(s, k, c, height).0;
    if CastError(s, k.proposal, height).None? {
      forall id | id in t.proposals
        ensures TotalsMatch(t, id)
      {
        forall o: VoteOption
          ensures TotalOf(t.proposals[id].totals, o) == Support(t.votes, id, o)
        {
          TotalFollows(s, k, c, height, id, o);
        }
      }
    }
  }

  lemma {:induction false} TotalFollows(s: State, k: Key, c: Choice, height: nat, id: nat, o: VoteOption)
    requires Accounted(s) && Fits(VoteCast(s, k, c, height).0)
    requires CastError(s, k.proposal, height).None? && id in s.proposals
    ensures var t := VoteCast(s, k, c, height).0;
      TotalOf(t.proposals[id].totals, o) == Support(t.votes, id, o)
  {
    var t := VoteCast(s, k, c, height).0;
    SupportUpdate(s.votes, id, o, k, c);
    assert TotalsMatch(s, id);
    assert TotalOf(s.proposals[id].totals, o) == Support(s.votes, id, o);
    assert Support(t.votes, id, o) <= MAX_U256;
    if k in s.votes {
      SupportSplit(s.votes, id, o, k);
    }
  }

  lemma {:induction false} SubmitAccounted(s: State, timeLocks: bool, start: nat, end: nat, deposit: nat)
    requires Accounted(s) && s.nextId < MAX_U64
    ensures Accounted(Submitted(s, timeLocks, start, end, deposit).0)
  {
    var t := Submitted(s, timeLocks, start, end, deposit).0;
    forall id | id in t.proposals
      ensures TotalsMatch(t, id)
    {
      if id == s.nextId && Submitted(s, timeLocks, start, end, deposit).1.Ok? {
        forall o: VoteOption
          ensures Support(t.votes, id, o) == 0
        {
          NoSupportYet(t.votes, id, o);
        }
      } else {
        assert TotalsMatch(s, id);
      }
    }
  }

  lemma {:induction false} TallyAccounted(s: State, id: nat, quorum: nat, bps: nat, height: nat)
    requires Accounted(s)
    ensures Accounted(Tallied(s, id, quorum, bps, height).0)
  {
  }

  // ----- runs -----------------------------------------------------------------------------

  datatype Op =
    | Submit(timeLocks: bool, start: nat, end: nat, deposit: nat)
    | Cast(key: Key, choice: Choice, height: nat)
    | Tally(proposal: nat, quorum: nat, bps: nat, height: nat)

  function Step(s: State, op: Op): State {
    match op
    case Submit(timeLocks, start, end, deposit) => Submitted(s, timeLocks, start, end, deposit).0
    case Cast(key, choice, height) => VoteCast(s, key, choice, height).0
    case Tally(id, quorum, bps, height) => Tallied(s, id, quorum, bps, height).0
  }

  function Run(s: State, ops: seq<Op>): State
    decreases |ops|
  {
    if ops == [] then s else Step(Run(s, ops[..|ops| - 1]), ops[|ops| - 1])
  }

  /** The last vote that the run accepts from a voter. */
  function LatestVote(ops: seq<Op>, k: Key): Option<Choice>
    decreases |ops|
  {
    if ops == [] then None
    else
      var earlier, op := ops[..|ops| - 1], ops[|ops| - 1];
      if op.Cast? && op.key == k && CastError(Run(EMPTY, earlier), k.proposal, op.height).None? then Some(op.choice)
      else LatestVote(earlier, k)
  }

  /** Identifiers do not run out and the power behind every option fits, at every moment of the run. */
  ghost predicate FitsThroughout(ops: seq<Op>)
    decreases |ops|
  {
    && Fits(Run(EMPTY, ops))
    && (ops != [] ==> FitsThroughout(ops[..|ops| - 1]) && Run(EMPTY, ops[..|ops| - 1]).nextId < MAX_U64)
  }

  /** Over every run, each option's total is the sum over the voters whose latest accepted vote is
      that option, of the power it was cast with. */
  lemma {:induction false} RunAccounted(ops: seq<Op>)
    requires FitsThroughout(ops)
    ensures Accounted(Run(EMPTY, ops))
    ensures forall k: Key :: Lookup(Run(EMPTY, ops).votes, k) == LatestVote(ops, k)
    decreases |ops|
  {
    if ops != [] {
      var earlier, op := ops[..|ops| - 1], ops[|ops| - 1];
      RunAccounted(earlier);
      StepAccounted(Run(EMPTY, earlier), op);
      forall k: Key
        ensures Lookup(Run(EMPTY, ops).votes, k) == LatestVote(ops, k)
      {
        assert Lookup(Run(EMPTY, earlier).votes, k) == LatestVote(earlier, k);
        LookupStep(Run(EMPTY, earlier), op, k);
      }
    }
  }

  lemma {:induction false} StepAccounted(s: State, op: Op)
    requires Accounted(s) && Fits(Step(s, op)) && s.nextId < MAX_U64
    ensures Accounted(Step(s, op))
  {
    match op
    case Submit(timeLocks, start, end, deposit) => SubmitAccounted(s, timeLocks, start, end, deposit);
    case Cast(key, choice, height) => CastAccounted(s, key, choice, height);
    case Tally(id, quorum, bps, height) => TallyAccounted(s, id, quorum, bps, height);
  }

  lemma {:induction false} LookupStep(s: State, op: Op, k: Key)
    ensures Lookup(Step(s, op).votes, k) ==
      if op.Cast? && op.key == k && CastError(s, k.proposal, op.height).None? then Some(op.choice)
      else Lookup(s.votes, k)
  {
  }

  // ----- the outcome ----------------------------------------------------------------------

  /** The outcome, decided on exact sums. */
  function Verdict(yes: nat, total: nat, timeLocks: bool, quorum: nat, bps: nat): Status {
    if total < quorum || total == 0 then Failed
    else if yes * BPS >= total * bps then if timeLocks then TimeLocked else Passed
    else Rejected
  }

  ghost function Turnout(votes: Choices, id: nat): nat {
    Support(votes, id, Yes) + Support(votes, id, No) + Support(votes, id, Abstain) + Support(votes, id, NoWithVeto)
  }

  lemma {:induction false} ScaledDown(total: nat, bps: nat)
    requires total * BPS <= MAX_U256 && bps <= BPS
    ensures total * bps <= MAX_U256
  {
    ProductMonotone(total, bps, BPS);
  }

  /** While the turnout times ten thousand fits in 256 bits and the threshold is at most one, the
      saturating arithmetic of the tally decides as exact arithmetic does. */
  lemma {:induction false} OutcomeExact(s: State, id: nat, quorum: nat, bps: nat)
    requires Accounted(s) && id in s.proposals && Turnout(s.votes, id) * BPS <= MAX_U256 && bps <= BPS
    ensures Outcome(s.proposals[id], quorum, bps)
         == Verdict(Support(s.votes, id, Yes), Turnout(s.votes, id), s.proposals[id].timeLocks, quorum, bps)
  {
    var totals := s.proposals[id].totals;
    assert TotalsMatch(s, id);
    assert SumOver(totals, {Yes, No, Abstain, NoWithVeto}) == Turnout(s.votes, id);
    ScaledDown(Turnout(s.votes, id), bps);
  }

  ghost predicate SameVotes(a: Choices, b: Choices, id: nat) {
    forall voter: Voter :: Lookup(a, Key(id, voter)) == Lookup(b, Key(id, voter))
  }

  lemma {:induction false} SupportDepends(a: Choices, b: Choices, id: nat, o: VoteOption)
    requires SameVotes(a, b, id)
    ensures Support(a, id, o) == Support(b, id, o)
    decreases |a| + |b|
  {
    if k :| k in a {
      SupportSplit(a, id, o, k);
      if k.proposal == id {
        assert Lookup(a, Key(id, k.voter)) == Lookup(b, Key(id, k.voter));
        SupportSplit(b, id, o, k);
        SameWithout(a, b, id, k);
        SupportDepends(a - {k}, b - {k}, id, o);
      } else {
        SameWithout(a, b, id, k);
        SupportDepends(a - {k}, b, id, o);
      }
    } else {
      forall k | k in b
        ensures k.proposal != id
      {
        assert Lookup(a, Key(id, k.voter)) == Lookup(b, Key(id, k.voter));
      }
      NoSupportYet(b, id, o);
    }
  }

  lemma {:induction false} SameWithout(a: Choices, b: Choices, id: nat, k: Key)
    requires SameVotes(a, b, id)
    ensures SameVotes(a - {k}, b - {k}, id)
    ensures k.proposal != id ==> SameVotes(a - {k}, b, id)
  {
  }

  /** The outcome depends only on each voter's latest vote: two runs that agree on those agree on the
      tally, however often and in whatever order the votes were cast. */
  lemma {:induction false} OutcomeByLatestVotes(ops: seq<Op>, others: seq<Op>, id: nat, quorum: nat, bps: nat)
    requires FitsThroughout(ops) && FitsThroughout(others) && bps <= BPS
    requires id in Run(EMPTY, ops).proposals && id in Run(EMPTY, others).proposals
    requires Run(EMPTY, ops).proposals[id].timeLocks == Run(EMPTY, others).proposals[id].timeLocks
    requires forall voter: Voter :: LatestVote(ops, Key(id, voter)) == LatestVote(others, Key(id, voter))
    requires Turnout(Run(EMPTY, ops).votes, id) * BPS <= MAX_U256
    ensures Outcome(Run(EMPTY, ops).proposals[id], quorum, bps)
         == Outcome(Run(EMPTY, others).proposals[id], quorum, bps)
  {
    var s, t := Run(EMPTY, ops), Run(EMPTY, others);
    RunAccounted(ops);
    RunAccounted(others);
    forall voter: Voter
      ensures Lookup(s.votes, Key(id, voter)) == Lookup(t.votes, Key(id, voter))
    {
      assert LatestVote(ops, Key(id, voter)) == LatestVote(others, Key(id, voter));
    }
    SameOutcome(s, t, id, quorum, bps);
  }

  lemma {:induction false} SameOutcome(s: State, t: State, id: nat, quorum: nat, bps: nat)
    requires Accounted(s) && Accounted(t) && id in s.proposals && id in t.proposals && SameVotes(s.votes, t.votes, id)
    requires s.proposals[id].timeLocks == t.proposals[id].timeLocks
    requires Turnout(s.votes, id) * BPS <= MAX_U256 && bps <= BPS
    ensures Outcome(s.proposals[id], quorum, bps) == Outcome(t.proposals[id], quorum, bps)
  {
    SupportDepends(s.votes, t.votes, id, Yes);
    SupportDepends(s.votes, t.votes, id, No);
    SupportDepends(s.votes, t.votes, id, Abstain);
    SupportDepends(s.votes, t.votes, id, NoWithVeto);
    OutcomeExact(s, id, quorum, bps);
    OutcomeExact(t, id, quorum, bps);
  }
}
