/** Batch execution: admission of a batch, and the commit loop over optimistic results. */
module Batch {
  import opened Outcomes
  import opened Transfers

  // ----- admission ------------------------------------------------------------------------

  /** Every transaction passes the static checks and carries the nonce that its sender will have
      reached when its earlier transactions in the batch have run. */
  ghost predicate BatchValid(m: Accounts, txs: seq<Transfer>) {
    forall i :: 0 <= i < |txs| ==> ValidAt(m, txs, i)
  }

  ghost predicate ValidAt(m: Accounts, txs: seq<Transfer>, i: nat)
    requires i < |txs|
  {
    var tx := txs[i];
    && Admissible(tx) && tx.from in m && !Damaged(m, tx.from) && GasLimitOk(tx)
    && tx.nonce == m[tx.from].nonce + SentBy(txs, i, tx.from) < TWO_64 - 1
  }

  method ValidateTransactionBatch(m: Accounts, txs: seq<Transfer>) returns (r: Result<(), TxError>)
    ensures r.Ok? <==> BatchValid(m, txs)
  {
    var expected: map<Address, U64> := map[];
    for i := 0 to |txs|
      invariant forall j :: 0 <= j < i ==> ValidAt(m, txs, j)
      invariant forall a :: a in expected <==> SentBy(txs, i, a) > 0
      invariant forall a :: a in expected ==> a in m && expected[a] == m[a].nonce + SentBy(txs, i, a)
    {
      var tx := txs[i];
      assert ValidAt(m, txs, i) ==> Admissible(tx) && tx.from in m && !Damaged(m, tx.from) && GasLimitOk(tx);
      if !Admissible(tx) {
        return Err(Inadmissible);
      }
      if tx.from !in m {
        return Err(MissingSender);
      }
      if Damaged(m, tx.from) {
        return Err(InvalidAccount);
      }
      if !GasLimitOk(tx) {
        return Err(BadGasLimit);
      }
      var current := if tx.from in expected then expected[tx.from] else m[tx.from].nonce;
      if tx.nonce != current {
        return Err(NonceMismatch);
      }
      if current + 1 >= TWO_64 {
        return Err(NonceExhausted);
      }
      expected := expected[tx.from := current + 1];
    }
    r := Ok(());
  }

  /** Once a batch is admitted, a transaction whose predecessors succeeded can only fail for want of
      funds, an overflowing balance or fee, or a damaged account, never on its nonce or the other
      checks. */
  lemma {:induction false} AdmittedNonceHolds(st: Store, locks: Locks, txs: seq<Transfer>, i: nat)
    requires BatchValid(st.accounts, txs) && NoSelfTransfers(txs) && i < |txs|
    requires Serial(st, locks, txs, i).1.Ok?
    ensures AccountAt(Serial(st, locks, txs, i).0.accounts, txs[i].from).nonce == txs[i].nonce
    ensures var r := Pipeline(Serial(st, locks, txs, i).0, locks, txs[i]).1;
            r.Ok? || r.error in {Underflow, InsufficientBalance, Overflow, InvalidAccount, FeeOverflow}
  {
    SerialRun(st, locks, txs, i);
    assert ValidAt(st.accounts, txs, i);
  }

  // ----- committing optimistic results ----------------------------------------------------

  /** The outcome of the optimistic phase for one transaction, as far as the commit loop uses it. */
  datatype Optimistic = Optimistic(index: nat, conflicted: bool)

  function Insert(r: Optimistic, s: seq<Optimistic>): seq<Optimistic> {
    if s == [] || r.index <= s[0].index then [r] + s else [s[0]] + Insert(r, s[1..])
  }

  /** A stable sort by index. */
  function SortByIndex(rs: seq<Optimistic>): seq<Optimistic> {
    if rs == [] then [] else Insert(rs[0], SortByIndex(rs[1..]))
  }

  ghost predicate Increasing(s: seq<Optimistic>) {
    forall a, b :: 0 <= a < b < |s| ==> s[a].index < s[b].index
  }

  ghost predicate Has(s: seq<Optimistic>, i: nat) {
    exists a :: 0 <= a < |s| && s[a].index == i
  }

  lemma {:induction false} InsertHas(r: Optimistic, s: seq<Optimistic>, i: nat)
    ensures Has(Insert(r, s), i) <==> i == r.index || Has(s, i)
    ensures |Insert(r, s)| == |s| + 1
    decreases |s|
  {
    var out := Insert(r, s);
    if s == [] || r.index <= s[0].index {
      assert out[0] == r && forall a :: 0 <= a < |s| ==> out[a + 1] == s[a];
      if Has(s, i) {
        var a :| 0 <= a < |s| && s[a].index == i;
        assert out[a + 1].index == i;
      }
    } else {
      InsertHas(r, s[1..], i);
      ConsHas(s[0], Insert(r, s[1..]), i);
      ConsHas(s[0], s[1..], i);
      assert [s[0]] + s[1..] == s;
    }
  }

  lemma {:induction false} ConsHas(h: Optimistic, s: seq<Optimistic>, i: nat)
    ensures Has([h] + s, i) <==> h.index == i || Has(s, i)
  {
    var out := [h] + s;
    if Has(s, i) {
      var a :| 0 <= a < |s| && s[a].index == i;
      assert out[a + 1].index == i;
    }
    if Has(out, i) && h.index != i {
      var a :| 0 <= a < |out| && out[a].index == i;
      assert s[a - 1].index == i;
    }
    assert out[0] == h;
  }

  lemma {:induction false} InsertIncreasing(r: Optimistic, s: seq<Optimistic>)
    requires Increasing(s) && !Has(s, r.index)
    ensures Increasing(Insert(r, s))
    decreases |s|
  {
    if s != [] && r.index > s[0].index {
      var tail := Insert(r, s[1..]);
      ConsHas(s[0], s[1..], r.index);
      assert [s[0]] + s[1..] == s;
      InsertIncreasing(r, s[1..]);
      forall b | 0 <= b < |tail|
        ensures s[0].index < tail[b].index
      {
        InsertHas(r, s[1..], tail[b].index);
        assert Has(tail, tail[b].index);
      }
    } else if s != [] {
      assert s[0].index != r.index;
    }
  }

  ghost predicate DistinctIndices(rs: seq<Optimistic>) {
    forall a, b :: 0 <= a < b < |rs| ==> rs[a].index != rs[b].index
  }

  lemma {:induction false} SortCorrect(rs: seq<Optimistic>)
    requires DistinctIndices(rs)
    ensures Increasing(SortByIndex(rs)) && |SortByIndex(rs)| == |rs|
    ensures forall i: nat :: Has(SortByIndex(rs), i) <==> Has(rs, i)
    decreases |rs|
  {
    if rs != [] {
      SortCorrect(rs[1..]);
      var tail := SortByIndex(rs[1..]);
      InsertIncreasing(rs[0], tail);
      InsertHas(rs[0], tail, 0);
      forall i: nat
        ensures Has(SortByIndex(rs), i) <==> Has(rs, i)
      {
        InsertHas(rs[0], tail, i);
        ConsHas(rs[0], rs[1..], i);
        assert [rs[0]] + rs[1..] == rs;
      }
    }
  }

  lemma {:induction false} IncreasingAtLeast(s: seq<Optimistic>, a: nat)
    requires Increasing(s) && a < |s|
    ensures s[a].index >= a
  {
    if a > 0 { IncreasingAtLeast(s, a - 1); }
  }

  lemma {:induction false} IncreasingAtMost(s: seq<Optimistic>, a: nat)
    requires Increasing(s) && a < |s| && s[|s| - 1].index < |s|
    ensures s[a].index <= a
    decreases |s| - a
  {
    if a + 1 < |s| { IncreasingAtMost(s, a + 1); }
  }

  /** Results for the indices of a batch, in any order, are sorted into batch order. */
  lemma {:induction false} SortedIsBatchOrder(rs: seq<Optimistic>)
    requires DistinctIndices(rs) && (forall b :: 0 <= b < |rs| ==> rs[b].index < |rs|)
    ensures |SortByIndex(rs)| == |rs| && forall a :: 0 <= a < |rs| ==> SortByIndex(rs)[a].index == a
  {
    SortCorrect(rs);
    var s := SortByIndex(rs);
    forall a | 0 <= a < |s|
      ensures s[a].index == a
    {
      var last := s[|s| - 1].index;
      assert Has(s, last);
      var b :| 0 <= b < |rs| && rs[b].index == last;
      IncreasingAtLeast(s, a);
      IncreasingAtMost(s, a);
    }
  }

  /** The commit loop: whatever the conflict flags, the answers of the runtime conflict check and the
      order of the results, a committed executor ends with the accounts and the receipts of serial
      execution in batch order. */
  method CommitOptimisticResults(e: Executor, txs: seq<Transfer>, results: seq<Optimistic>, runtime: seq<bool>)
    returns (r: Result<seq<Receipt>, TxError>)
    requires e.accounts == e.committed
    requires |results| == |txs| == |runtime| && DistinctIndices(results)
    requires forall b :: 0 <= b < |results| ==> results[b].index < |txs|
    modifies e
    ensures (Store(e.accounts, e.committed), r) == Serial(old(Store(e.accounts, e.committed)), e.locks, txs, |txs|)
  {
    ghost var start := Store(e.accounts, e.committed);
    var sorted := SortByIndex(results);
    SortedIsBatchOrder(results);
    var receipts := [];
    for i := 0 to |results|
      invariant e.accounts == e.committed
      invariant (Store(e.accounts, e.committed), Ok(receipts)) == Serial(start, e.locks, txs, i)
    {
      var result := sorted[i];
      if result.conflicted || runtime[i] {
        // rollback_on_conflict
        e.accounts := e.committed;
      }
      PipelineCommits(Store(e.accounts, e.committed), e.locks, txs[i]);
      var receipt := e.ExecutePipeline(txs[result.index]);
      if receipt.Err? {
        SerialFails(start, e.locks, txs, i, (Store(e.accounts, e.committed), receipt));
        return Err(receipt.error);
      }
      receipts := receipts + [receipt.value];
    }
    r := Ok(receipts);
  }

  lemma {:induction false} PipelineCommits(st: Store, locks: Locks, tx: Transfer)
    ensures Pipeline(st, locks, tx).1.Ok? ==> Pipeline(st, locks, tx).0.accounts == Pipeline(st, locks, tx).0.committed
  {
  }
}
