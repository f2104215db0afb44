/** Exactly which votes are counted, for one vote and over whole runs. */
module VoteLaws {
  import opened Basics
  import opened Outcomes
  import opened Validators
  import opened Votes

  /** A vote that is not late, passes every check, comes from a validator with voting power and does not
      contradict what that validator has cast. */
  ghost predicate Countable(vs: ValidatorSet, b: Book, v: Vote, k: Checks) {
    && v.view >= b.view && k.known && k.unlocked && k.signed && k.revealed
    && v.validator in vs && vs[v.validator].power > 0
    && (SlotOf(v) in b.cast ==> b.cast[SlotOf(v)] == v.hash)
  }

  /** The voter is in the list of its ballot, no other voter enters or leaves any list, and its slot is
      the only one written. */
  ghost predicate Counts(b: Book, c: Book, v: Vote) {
    && (forall ballot: Ballot, a: Address ::
          a in VotersOf(c, ballot) <==> a in VotersOf(b, ballot) || (ballot == BallotOf(v) && a == v.validator))
    && c.cast == b.cast[SlotOf(v) := v.hash]
  }

  /** A vote for a pending block moves the node to its view, but never by more than 32 views. */
  ghost predicate Follows(b: Book, c: Book, v: Vote, k: Checks) {
    c.view == if k.known && b.view < v.view <= b.view + 32 && v.view <= MAX_U64 then v.view else b.view
  }

  /** A vote is counted exactly when it is countable; one that is not counted changes no list and no slot. */
  lemma {:induction false} CountedExactly(vs: ValidatorSet, b: Book, v: Vote, k: Checks)
    ensures var (c, e) := Processed(vs, b, v, k);
      && (e.None? <==> Countable(vs, b, v, k))
      && (if e.None? then Counts(b, c, v) else c == b.(view := c.view))
      && Follows(b, c, v, k)
  {
  }

  ghost predicate Contradicts(b: Book, v: Vote) {
    SlotOf(v) in b.cast && b.cast[SlotOf(v)] != v.hash
  }

  /** A refused vote gets the error of the first check it fails. */
  lemma {:induction false} RefusedWith(vs: ValidatorSet, b: Book, v: Vote, k: Checks)
    ensures Processed(vs, b, v, k).1 ==
      if v.view < b.view || (!k.known && v.view != b.view) then Some(WrongView)
      else if !k.known then Some(UnknownBlock)
      else if !k.unlocked then Some(ConflictsWithLock)
      else if Contradicts(b, v) then Some(DoubleVote)
      else if !(v.validator in vs && vs[v.validator].power > 0 && k.signed) then Some(NotEligible)
      else if !k.revealed then Some(BadReveal)
      else None
  {
  }

  /** The vote book on its own refuses a contradiction before it looks at the reveal. */
  lemma {:induction false} AddedExactly(b: Book, v: Vote, revealed: bool)
    ensures var (c, e) := Added(b, v, revealed);
      && (e.None? <==> revealed && !Contradicts(b, v))
      && (e == Some(DoubleVote) <==> Contradicts(b, v))
      && (if e.None? then Counts(b, c, v) && c.view == b.view else c == b)
  {
  }

  // ----- runs -----------------------------------------------------------------------------

  /** Pruning keeps exactly what is at most ten views old, as it was. */
  lemma {:induction false} PrunedExactly(vs: ValidatorSet, s: State)
    ensures var b, c := s.book, Step(vs, s, Prune).book;
      && (forall k :: k in c.votes <==> k in b.votes && k.view + 10 >= b.view)
      && (forall k :: k in c.votes ==> c.votes[k] == b.votes[k])
      && (forall k :: k in c.cast <==> k in b.cast && k.view + 10 >= b.view)
      && (forall k :: k in c.cast ==> c.cast[k] == b.cast[k])
  {
  }

  /** The view never falls; it follows the pacemaker to any later view, and pruning leaves it alone. */
  lemma {:induction false} ViewFollows(vs: ValidatorSet, s: State, op: Op)
    ensures var view := Step(vs, s, op).book.view;
      match op
      case Cast(_, _) => s.book.view <= view <= s.book.view + 32
      case Advance(to) => view == if to > s.book.view then to else s.book.view
      case Prune => view == s.book.view
  {
  }

  /** Operation `i` of the run casts a countable vote of validator `a` on the ballot. */
  ghost predicate CountableAt(vs: ValidatorSet, s: State, ops: seq<Op>, i: nat, ballot: Ballot, a: Address) {
    && i < |ops| && ops[i].Cast? && ops[i].vote == Vote(a, ballot.hash, ballot.view, ballot.phase)
    && Countable(vs, Run(vs, s, ops[..i]).book, ops[i].vote, ops[i].checks)
  }

  lemma {:induction false} CountableLater(vs: ValidatorSet, s: State, ops: seq<Op>, i: nat, ballot: Ballot, a: Address)
    requires ops != []
    ensures CountableAt(vs, s, ops, i + 1, ballot, a)
       <==> CountableAt(vs, Step(vs, s, ops[0]), ops[1..], i, ballot, a)
  {
    if i < |ops| - 1 {
      assert ops[..i + 1][1..] == ops[1..][..i];
    }
  }

  lemma {:induction false} StepVoted(vs: ValidatorSet, s: State, op: Op, ballot: Ballot, a: Address)
    requires Faithful(vs, s)
    ensures Voted(Step(vs, s, op).history, ballot, a)
       <==> Voted(s.history, ballot, a) || CountableAt(vs, s, [op], 0, ballot, a)
  {
    assert [op][..0] == [];
    StepFaithful(vs, s, op);
    if op.Cast? {
      CountedExactly(vs, s.book, op.vote, op.checks);
    }
  }

  lemma {:induction false} CountableFirst(vs: ValidatorSet, s: State, ops: seq<Op>, ballot: Ballot, a: Address)
    requires ops != []
    ensures CountableAt(vs, s, [ops[0]], 0, ballot, a) <==> CountableAt(vs, s, ops, 0, ballot, a)
  {
    assert [ops[0]][..0] == [] == ops[..0];
  }

  lemma {:induction false} CountableIsVoted(vs: ValidatorSet, s: State, ops: seq<Op>, i: nat, ballot: Ballot,
        a: Address)
    requires Faithful(vs, s) && CountableAt(vs, s, ops, i, ballot, a)
    ensures Voted(Run(vs, s, ops).history, ballot, a)
    decreases |ops|
  {
    var t := Step(vs, s, ops[0]);
    StepFaithful(vs, s, ops[0]);
    if i == 0 {
      CountableFirst(vs, s, ops, ballot, a);
      StepVoted(vs, s, ops[0], ballot, a);
      RunExtends(vs, t, ops[1..]);
    } else {
      CountableLater(vs, s, ops, i - 1, ballot, a);
      CountableIsVoted(vs, t, ops[1..], i - 1, ballot, a);
    }
  }

  lemma {:induction false} VotedWasCountable(vs: ValidatorSet, s: State, ops: seq<Op>, ballot: Ballot, a: Address)
    returns (i: nat)
    requires Faithful(vs, s) && Voted(Run(vs, s, ops).history, ballot, a) && !Voted(s.history, ballot, a)
    ensures CountableAt(vs, s, ops, i, ballot, a)
    decreases |ops|
  {
    var t := Step(vs, s, ops[0]);
    if Voted(t.history, ballot, a) {
      StepVoted(vs, s, ops[0], ballot, a);
      CountableFirst(vs, s, ops, ballot, a);
      i := 0;
    } else {
      StepFaithful(vs, s, ops[0]);
      i := VotedWasCountable(vs, t, ops[1..], ballot, a);
      CountableLater(vs, s, ops, i, ballot, a);
      i := i + 1;
    }
  }

  /** Votes on ballots recent enough not to be pruned are still in the lists. */
  ghost predicate Listed(s: State, ballot: Ballot, a: Address) {
    Voted(s.history, ballot, a) && ballot.view >= PruneThreshold(s.book.view) ==> a in VotersOf(s.book, ballot)
  }

  lemma {:induction false} StepListed(vs: ValidatorSet, s: State, op: Op, ballot: Ballot, a: Address)
    requires Faithful(vs, s) && Listed(s, ballot, a)
    ensures Listed(Step(vs, s, op), ballot, a)
  {
    StepVoted(vs, s, op, ballot, a);
    if op.Cast? {
      CountedExactly(vs, s.book, op.vote, op.checks);
    }
  }

  lemma {:induction false} RunListed(vs: ValidatorSet, s: State, ops: seq<Op>, ballot: Ballot, a: Address)
    requires Faithful(vs, s) && Listed(s, ballot, a)
    ensures Faithful(vs, Run(vs, s, ops)) && Listed(Run(vs, s, ops), ballot, a)
    decreases |ops|
  {
    if ops != [] {
      StepFaithful(vs, s, ops[0]);
      StepListed(vs, s, ops[0], ballot, a);
      RunListed(vs, Step(vs, s, ops[0]), ops[1..], ballot, a);
    }
  }

  /** Over every run, a validator is in the list of a ballot only if it cast a countable vote on it, and
      if it did it stays there while the ballot is not more than ten views old. */
  lemma {:induction false} ListedExactly(vs: ValidatorSet, ops: seq<Op>, ballot: Ballot, a: Address)
    ensures var book, cast := Run(vs, INITIAL, ops).book, exists i: nat :: CountableAt(vs, INITIAL, ops, i, ballot, a);
      && (a in VotersOf(book, ballot) ==> cast)
      && (cast && ballot.view + 10 >= book.view ==> a in VotersOf(book, ballot))
  {
    var end := Run(vs, INITIAL, ops);
    RunListed(vs, INITIAL, ops, ballot, a);
    assert ListBacked(end, ballot);
    if a in VotersOf(end.book, ballot) {
      var i := VotedWasCountable(vs, INITIAL, ops, ballot, a);
    }
    if i: nat :| CountableAt(vs, INITIAL, ops, i, ballot, a) {
      CountableIsVoted(vs, INITIAL, ops, i, ballot, a);
    }
  }
}
