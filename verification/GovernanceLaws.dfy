/** Exactly when governance operations succeed, and what a tally settles for good. */
module GovernanceLaws {
  import opened Basics
  import opened Outcomes
  import opened Governance

  /** Votes are taken: the proposal exists, has not been tallied and the height is in its window. */
  ghost predicate Open(s: State, id: nat, height: nat) {
    && id in s.proposals && s.proposals[id].status == VotingPeriod
    && s.proposals[id].start <= height <= s.proposals[id].end
  }

  ghost predicate OthersKept(s: State, t: State, id: nat) {
    t.proposals - {id} == s.proposals - {id}
  }

  ghost predicate Recorded(s: State, t: State, k: Key, c: Choice)
    requires k.proposal in s.proposals
  {
    && t.votes == s.votes[k := c] && t.nextId == s.nextId && OthersKept(s, t, k.proposal)
    && k.proposal in t.proposals && t.proposals[k.proposal]
         == s.proposals[k.proposal].(totals := t.proposals[k.proposal].totals)
  }

  /** A vote is accepted exactly while the proposal is open.  It replaces the voter's earlier one, moves
      nothing but the totals of that proposal, and a refused one moves nothing at all. */
  lemma {:induction false} AcceptedExactly(s: State, k: Key, c: Choice, height: nat)
    ensures var (t, e) := VoteCast(s, k, c, height);
      && (e.None? <==> Open(s, k.proposal, height))
      && (if e.None? then Recorded(s, t, k, c) else t == s)
  {
  }

  /** The proposal is open over the whole of its window, with no vote and no execution height. */
  ghost predicate Opened(s: State, t: State, id: nat, timeLocks: bool, start: nat, end: nat, deposit: nat) {
    && t.votes == s.votes && OthersKept(s, t, id) && Open(t, id, start) && Open(t, id, end)
    && (forall o: VoteOption :: TotalOf(t.proposals[id].totals, o) == 0)
    && t.proposals[id]
         == Proposal(timeLocks, VotingPeriod, start, end, t.proposals[id].totals, None, deposit)
  }

  /** A proposal is accepted exactly with a window that is not empty and a billion units of deposit.  It
      gets an identifier nobody has, one above the last, while identifiers last. */
  lemma {:induction false} SubmittedExactly(s: State, timeLocks: bool, start: nat, end: nat, deposit: nat)
    ensures var (t, r) := Submitted(s, timeLocks, start, end, deposit);
      && (r.Ok? <==> start < end && deposit >= 1_000_000_000)
      && (if r.Ok? then Opened(s, t, r.value, timeLocks, start, end, deposit) else t == s)
      && (r.Ok? && Accounted(s) && s.nextId < MAX_U64 ==> r.value !in s.proposals && t.nextId == r.value + 1)
  {
  }

  /** The status that a turnout and the power behind yes call for. */
  ghost predicate Settles(status: Status, yes: nat, total: nat, timeLocks: bool, quorum: nat, bps: nat) {
    && (status == Failed <==> total == 0 || total < quorum)
    && (status == Rejected <==> total > 0 && total >= quorum && yes * 10_000 < total * bps)
    && (status == TimeLocked <==> total > 0 && total >= quorum && yes * 10_000 >= total * bps && timeLocks)
    && (status == Passed <==> total > 0 && total >= quorum && yes * 10_000 >= total * bps && !timeLocks)
  }

  /** The status is stored, with an execution height 43200 blocks ahead for a time lock; nothing else of
      the state moves. */
  ghost predicate Stored(s: State, t: State, id: nat, status: Status, height: nat)
    requires id in s.proposals
  {
    && t.votes == s.votes && t.nextId == s.nextId && OthersKept(s, t, id) && id in t.proposals
    && var p, q := s.proposals[id], t.proposals[id];
      && q == p.(status := status, executionHeight := q.executionHeight)
      && q.executionHeight ==
           if status == TimeLocked then Some(Saturated(height + 43_200, MAX_U64)) else p.executionHeight
  }

  /** A tally stores the status it returns, and the recorded votes decide it while the turnout times ten
      thousand fits in 256 bits. */
  lemma {:induction false} TallyExactly(s: State, id: nat, quorum: nat, bps: nat, height: nat)
    ensures var (t, r) := Tallied(s, id, quorum, bps, height);
      && (r.Ok? <==> id in s.proposals)
      && (if r.Ok? then Stored(s, t, id, r.value, height) else t == s)
      && (r.Ok? && Accounted(s) && Turnout(s.votes, id) * 10_000 <= MAX_U256 && bps <= 10_000 ==>
            Settles(r.value, Support(s.votes, id, Yes), Turnout(s.votes, id), s.proposals[id].timeLocks, quorum, bps))
  {
    if id in s.proposals && Accounted(s) && Turnout(s.votes, id) * 10_000 <= MAX_U256 && bps <= 10_000 {
      OutcomeExact(s, id, quorum, bps);
    }
  }

  /** A tally at the end of any run stores the status that the latest accepted votes call for. */
  lemma {:induction false} TalliedRun(ops: seq<Op>, id: nat, quorum: nat, bps: nat, height: nat)
    requires FitsThroughout(ops) && id in Run(EMPTY, ops).proposals
    requires Turnout(Run(EMPTY, ops).votes, id) * 10_000 <= MAX_U256 && bps <= 10_000
    ensures id in Run(EMPTY, ops + [Tally(id, quorum, bps, height)]).proposals
    ensures var s, t := Run(EMPTY, ops), Run(EMPTY, ops + [Tally(id, quorum, bps, height)]);
      var status := t.proposals[id].status;
      && (forall k: Key :: Lookup(s.votes, k) == LatestVote(ops, k))
      && Stored(s, t, id, status, height)
      && Settles(status, Support(s.votes, id, Yes), Turnout(s.votes, id), s.proposals[id].timeLocks, quorum, bps)
  {
    var longer := ops + [Tally(id, quorum, bps, height)];
    assert longer[..|longer| - 1] == ops && longer[|longer| - 1] == Tally(id, quorum, bps, height);
    RunAccounted(ops);
    TallyExactly(Run(EMPTY, ops), id, quorum, bps, height);
  }

  // ----- a tally closes the vote ----------------------------------------------------------

  ghost predicate Closed(s: State, id: nat) {
    id in s.proposals && id < s.nextId <= MAX_U64 && s.proposals[id].status != VotingPeriod
  }

  /** The proposal keeps its terms and its totals, and the votes on it stay as they are. */
  ghost predicate VotesFixed(s: State, t: State, id: nat)
    requires id in s.proposals && id in t.proposals
  {
    && SameVotes(s.votes, t.votes, id)
    && t.proposals[id] == s.proposals[id].(status := t.proposals[id].status,
                                           executionHeight := t.proposals[id].executionHeight)
  }

  lemma {:induction false} StepClosed(s: State, op: Op, id: nat)
    requires Closed(s, id)
    ensures Closed(Step(s, op), id) && VotesFixed(s, Step(s, op), id)
  {
  }

  lemma {:induction false} RunClosed(s: State, ops: seq<Op>, id: nat)
    requires Closed(s, id)
    ensures Closed(Run(s, ops), id) && VotesFixed(s, Run(s, ops), id)
    decreases |ops|
  {
    if ops != [] {
      var before := Run(s, ops[..|ops| - 1]);
      RunClosed(s, ops[..|ops| - 1], id);
      StepClosed(before, ops[|ops| - 1], id);
      FixedThen(s, before, Run(s, ops), id);
    }
  }

  lemma {:induction false} FixedThen(s: State, t: State, u: State, id: nat)
    requires id in s.proposals && id in t.proposals && id in u.proposals
    requires VotesFixed(s, t, id) && VotesFixed(t, u, id)
    ensures VotesFixed(s, u, id)
  {
    forall voter: Voter
      ensures Lookup(s.votes, Key(id, voter)) == Lookup(u.votes, Key(id, voter))
    {
      assert Lookup(t.votes, Key(id, voter)) == Lookup(u.votes, Key(id, voter));
    }
  }

  /** Once a proposal has been tallied, whatever follows leaves its votes alone: no vote on it is accepted
      any more, and tallying it again with the same thresholds gives the same status. */
  lemma {:induction false} TallyCloses(s: State, id: nat, quorum: nat, bps: nat, height: nat, ops: seq<Op>,
        k: Key, c: Choice, later: nat)
    requires id in s.proposals && id < s.nextId <= MAX_U64 && k.proposal == id
    ensures var (t, r) := Tallied(s, id, quorum, bps, height);
      && VoteCast(Run(t, ops), k, c, later) == (Run(t, ops), Some(NotVoting))
      && Tallied(Run(t, ops), id, quorum, bps, later).1 == r
  {
    var (t, r) := Tallied(s, id, quorum, bps, height);
    assert Closed(t, id);
    RunClosed(t, ops, id);
    assert Run(t, ops).proposals[id].totals == s.proposals[id].totals;
  }
}
