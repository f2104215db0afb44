/** When a transfer is refused, with which error, and what a refusal leaves behind. */
module TransferLaws {
  import opened Basics
  import opened Outcomes
  import opened Transfers

  // ----- the serial pipeline --------------------------------------------------------------

  const STAGES: nat := 12

  /** What can be wrong with a transfer, in the order in which the pipeline notices it. */
  predicate Fault(m: Accounts, locks: Locks, tx: Transfer, stage: nat)
    requires stage < STAGES
  {
    var sender, recipient := AccountAt(m, tx.from), AccountAt(m, tx.to);
    match stage
    case 0 => !tx.authentic || tx.gasPrice == 0
    case 1 => tx.gasLimit < 210 || tx.gasLimit > 30_000_000
    case 2 => tx.from !in m
    case 3 => tx.from in m && !m[tx.from].wellFormed
    case 4 => sender.nonce != tx.nonce
    case 5 => tx.to in m && !m[tx.to].wellFormed
    case 6 => sender.balance < tx.gasPrice * tx.gasLimit && sender.balance < TWO_256 - 1
    case 7 =>
      var locked := if tx.from in locks then locks[tx.from] else 0;
      tx.value > 0 && sender.balance < Prepayment(tx) + locked + tx.value
    case 8 => recipient.balance + tx.value >= TWO_256
    case 9 => tx.nonce == TWO_64 - 1
    case 10 => tx.gasPrice * 210 >= TWO_256
    case _ => tx.from == tx.to && recipient.balance + tx.value + (Prepayment(tx) - tx.gasPrice * 210) >= TWO_256
  }

  function Prepayment(tx: Transfer): int {
    if tx.gasPrice * tx.gasLimit < TWO_256 then tx.gasPrice * tx.gasLimit else TWO_256 - 1
  }

  function ErrorOf(stage: nat): TxError
    requires stage < STAGES
  {
    match stage
    case 0 => Inadmissible
    case 1 => BadGasLimit
    case 2 => MissingSender
    case 3 => InvalidAccount
    case 4 => NonceMismatch
    case 5 => InvalidAccount
    case 6 => Underflow
    case 7 => InsufficientBalance
    case 8 => Overflow
    case 9 => NonceExhausted
    case 10 => FeeOverflow
    case _ => Overflow
  }

  /** Stage `k` is the first at which something is wrong. */
  ghost predicate FirstFault(m: Accounts, locks: Locks, tx: Transfer, k: nat) {
    k < STAGES && Fault(m, locks, tx, k) && forall j :: 0 <= j < k ==> !Fault(m, locks, tx, j)
  }

  predicate Writable(m: Accounts, tx: Transfer) {
    && tx.from in m && 0 <= Prepayment(tx) && Prepayment(tx) + tx.value <= m[tx.from].balance
    && m[tx.from].nonce == tx.nonce < TWO_64 - 1 && AccountAt(m, tx.to).balance + tx.value < TWO_256
  }

  /** The rows once the sender has paid and the recipient's copy has been written over them. */
  function Written(m: Accounts, tx: Transfer): Accounts
    requires Writable(m, tx)
  {
    var sender, recipient := m[tx.from], AccountAt(m, tx.to);
    m[tx.from := sender.(balance := sender.balance - Prepayment(tx) - tx.value, nonce := sender.nonce + 1)]
     [tx.to := recipient.(balance := recipient.balance + tx.value)]
  }

  lemma {:induction false} FeeFacts(tx: Transfer)
    ensures 0 <= Prepayment(tx) == UpfrontFee(tx)
    ensures tx.gasLimit >= 210 && tx.gasPrice * 210 < TWO_256 ==> tx.gasPrice * 210 <= Prepayment(tx)
  {
    ProductMonotone(tx.gasPrice, 0, tx.gasLimit);
    if tx.gasLimit >= 210 { ProductMonotone(tx.gasPrice, 210, tx.gasLimit); }
  }

  /** The first `k` stages are passed. */
  ghost predicate Passes(m: Accounts, locks: Locks, tx: Transfer, k: nat)
    requires k <= STAGES
  {
    forall j :: 0 <= j < k ==> !Fault(m, locks, tx, j)
  }

  lemma {:induction false} PassedChecks(m: Accounts, locks: Locks, tx: Transfer)
    requires Passes(m, locks, tx, 6)
    ensures Admissible(tx) && GasLimitOk(tx) && tx.from in m && m[tx.from].nonce == tx.nonce
    ensures !Damaged(m, tx.from) && !Damaged(m, tx.to)
  {
    assert !Fault(m, locks, tx, 0) && !Fault(m, locks, tx, 1) && !Fault(m, locks, tx, 2);
    assert !Fault(m, locks, tx, 3) && !Fault(m, locks, tx, 4) && !Fault(m, locks, tx, 5);
  }

  lemma {:induction false} PassedFunds(m: Accounts, locks: Locks, tx: Transfer)
    requires Passes(m, locks, tx, 10)
    ensures Writable(m, tx)
  {
    PassedChecks(m, locks, tx);
    FeeFacts(tx);
    assert !Fault(m, locks, tx, 6) && !Fault(m, locks, tx, 7) && !Fault(m, locks, tx, 8) && !Fault(m, locks, tx, 9);
  }

  lemma {:induction false} EarlyFault(st: Store, locks: Locks, tx: Transfer, k: nat)
    requires FirstFault(st.accounts, locks, tx, k) && k < 6
    ensures Pipeline(st, locks, tx) == (st, Err(ErrorOf(k)))
  {
    var m := st.accounts;
    assert k > 0 ==> !Fault(m, locks, tx, 0);
    assert k > 1 ==> !Fault(m, locks, tx, 1);
    assert k > 2 ==> !Fault(m, locks, tx, 2);
    assert k > 3 ==> !Fault(m, locks, tx, 3);
    assert k > 4 ==> !Fault(m, locks, tx, 4);
  }

  lemma {:induction false} FundsFault(st: Store, locks: Locks, tx: Transfer, k: nat)
    requires FirstFault(st.accounts, locks, tx, k) && 6 <= k < 10
    ensures Pipeline(st, locks, tx) == (st, Err(ErrorOf(k)))
  {
    var m := st.accounts;
    assert Passes(m, locks, tx, 6);
    PassedChecks(m, locks, tx);
    FeeFacts(tx);
    assert k > 6 ==> !Fault(m, locks, tx, 6);
    assert k > 7 ==> !Fault(m, locks, tx, 7);
    assert k > 8 ==> !Fault(m, locks, tx, 8);
  }

  /** Past the first ten stages the rows are written and only the settlement is left. */
  lemma {:induction false} WritesThenSettles(st: Store, locks: Locks, tx: Transfer)
    requires Passes(st.accounts, locks, tx, 10)
    ensures Writable(st.accounts, tx)
    ensures Pipeline(st, locks, tx) == Settle(st.(accounts := Written(st.accounts, tx)), tx, UpfrontFee(tx))
  {
    var m := st.accounts;
    assert Passes(m, locks, tx, 6);
    PassedChecks(m, locks, tx);
    PassedFunds(m, locks, tx);
    FeeFacts(tx);
    assert !Fault(m, locks, tx, 6) && !Fault(m, locks, tx, 7);
  }

  lemma {:induction false} SettlementFault(st: Store, locks: Locks, tx: Transfer, k: nat)
    requires FirstFault(st.accounts, locks, tx, k) && k >= 10
    ensures Writable(st.accounts, tx)
    ensures Pipeline(st, locks, tx) == (st.(accounts := Written(st.accounts, tx)), Err(ErrorOf(k)))
  {
    assert Passes(st.accounts, locks, tx, 10) && Passes(st.accounts, locks, tx, 6);
    WritesThenSettles(st, locks, tx);
    PassedChecks(st.accounts, locks, tx);
    FeeFacts(tx);
    assert k > 10 ==> !Fault(st.accounts, locks, tx, 10);
  }

  lemma {:induction false} NoFault(st: Store, locks: Locks, tx: Transfer)
    requires Passes(st.accounts, locks, tx, STAGES)
    ensures Pipeline(st, locks, tx).1.Ok?
  {
    assert Passes(st.accounts, locks, tx, 10) && Passes(st.accounts, locks, tx, 6);
    WritesThenSettles(st, locks, tx);
    PassedChecks(st.accounts, locks, tx);
    PassedFunds(st.accounts, locks, tx);
    FeeFacts(tx);
    assert !Fault(st.accounts, locks, tx, 10) && !Fault(st.accounts, locks, tx, 11);
  }

  /** A transfer with a fault is refused with the error of the first one, and nothing is committed.  The
      rows stay as they were unless the fault is noticed after they were written: at a price whose fee
      overflows, or for a transfer to oneself whose refund does. */
  lemma {:induction false} RefusedWith(st: Store, locks: Locks, tx: Transfer, k: nat)
    requires FirstFault(st.accounts, locks, tx, k)
    ensures k >= 10 ==> Writable(st.accounts, tx)
    ensures var (after, r) := Pipeline(st, locks, tx);
      && r == Err(ErrorOf(k)) && after.committed == st.committed
      && after.accounts == if k < 10 then st.accounts else Written(st.accounts, tx)
  {
    if k < 6 {
      EarlyFault(st, locks, tx, k);
    } else if k < 10 {
      FundsFault(st, locks, tx, k);
    } else {
      SettlementFault(st, locks, tx, k);
    }
  }

  lemma {:induction false} SomeFirstFault(m: Accounts, locks: Locks, tx: Transfer, k: nat) returns (first: nat)
    requires k <= STAGES && !Passes(m, locks, tx, k)
    ensures FirstFault(m, locks, tx, first)
    decreases k
  {
    if Passes(m, locks, tx, k - 1) {
      first := k - 1;
    } else {
      first := SomeFirstFault(m, locks, tx, k - 1);
    }
  }

  /** A transfer succeeds exactly when nothing is wrong with it; and a refusal keeps what is committed,
      and the rows too for every transfer between different accounts at a price below 2^256 / 210. */
  lemma {:induction false} SucceedsExactly(st: Store, locks: Locks, tx: Transfer)
    ensures Pipeline(st, locks, tx).1.Ok? <==> Passes(st.accounts, locks, tx, STAGES)
    ensures Pipeline(st, locks, tx).1.Err? ==> Pipeline(st, locks, tx).0.committed == st.committed
    ensures Pipeline(st, locks, tx).1.Err? && tx.from != tx.to && tx.gasPrice * 210 < TWO_256 ==>
      Pipeline(st, locks, tx).0 == st
  {
    if Passes(st.accounts, locks, tx, STAGES) {
      NoFault(st, locks, tx);
    } else {
      var k := SomeFirstFault(st.accounts, locks, tx, STAGES);
      RefusedWith(st, locks, tx, k);
    }
  }

  // ----- receipts -------------------------------------------------------------------------

  /** The receipts of a serial run follow the transactions, each with the gas it used, the part of the
      prepayment returned, and the state after it. */
  lemma {:induction false} ReceiptsFollow(st: Store, locks: Locks, txs: seq<Transfer>, k: nat)
    requires k <= |txs| && Serial(st, locks, txs, k).1.Ok?
    ensures var receipts := Serial(st, locks, txs, k).1.value;
      |receipts| == k && forall i :: 0 <= i < k ==> ReceiptAt(st, locks, txs, receipts, i)
  {
    if k > 0 {
      var before := SerialStep(st, locks, txs, k);
      ReceiptsFollow(st, locks, txs, k - 1);
      ReceiptOf(before, locks, txs[k - 1]);
      var earlier, receipts := Serial(st, locks, txs, k - 1).1.value, Serial(st, locks, txs, k).1.value;
      assert receipts == earlier + [Pipeline(before, locks, txs[k - 1]).1.value];
      forall i | 0 <= i < k
        ensures ReceiptAt(st, locks, txs, receipts, i)
      {
        assert i < k - 1 ==> ReceiptAt(st, locks, txs, earlier, i);
      }
    }
  }

  ghost predicate ReceiptAt(st: Store, locks: Locks, txs: seq<Transfer>, receipts: seq<Receipt>, i: nat)
    requires i < |receipts| && i < |txs|
  {
    && receipts[i].tx == txs[i] && receipts[i].gasUsed == 210
    && receipts[i].refund == Prepayment(txs[i]) - txs[i].gasPrice * 210
    && receipts[i].root == Serial(st, locks, txs, i + 1).0.accounts
  }

  lemma {:induction false} ReceiptOf(st: Store, locks: Locks, tx: Transfer)
    requires Pipeline(st, locks, tx).1.Ok?
    ensures var (after, r) := Pipeline(st, locks, tx);
      r.value == Receipt(tx, 210, Prepayment(tx) - tx.gasPrice * 210, after.accounts)
  {
    FeeFacts(tx);
  }

  // ----- the speculative path -------------------------------------------------------------

  /** The speculative path refuses exactly these transfers. */
  predicate Speculable(m: Accounts, locks: Locks, tx: Transfer) {
    var sender, recipient := AccountAt(m, tx.from), AccountAt(m, tx.to);
    && (tx.from == tx.to || tx.from.low != tx.to.low)
    && !Damaged(m, tx.from) && !Damaged(m, tx.to)
    && sender.nonce == tx.nonce && tx.gasLimit >= 210
    && (tx.value + tx.gasLimit * tx.gasPrice == 0
        || LockedAt(locks, tx.from) + tx.value + tx.gasLimit * tx.gasPrice <= sender.balance)
    && recipient.balance + tx.value < TWO_256
  }

  /** It succeeds exactly then; it writes the two accounts and no other; and it conserves balances plus
      gas, except that a transfer to oneself loses its value. */
  lemma {:induction false} SpeculationExactly(m: Accounts, locks: Locks, tx: Transfer)
    ensures Speculation(m, locks, tx).Ok? <==> Speculable(m, locks, tx)
    ensures Speculation(m, locks, tx).Ok? ==>
      var writes := Speculation(m, locks, tx).value;
      && writes.Keys == {tx.from, tx.to} && writes[tx.from].nonce == (tx.nonce + 1) % TWO_64
      && Total(m + writes) + tx.gasPrice * 210 + (if tx.from == tx.to then tx.value else 0) == Total(m)
  {
    ProductMonotone(tx.gasLimit, 0, tx.gasPrice);
    if Speculation(m, locks, tx).Ok? {
      SpeculationTotal(m, locks, tx);
    }
  }

  lemma {:induction false} SpeculationTotal(m: Accounts, locks: Locks, tx: Transfer)
    requires Speculation(m, locks, tx).Ok?
    ensures var writes := Speculation(m, locks, tx).value;
      Total(m + writes) + tx.gasPrice * 210 + (if tx.from == tx.to then tx.value else 0) == Total(m)
  {
    var writes := Speculation(m, locks, tx).value;
    var middle := m[tx.to := writes[tx.to]];
    TotalUpdate(m, tx.to, writes[tx.to]);
    TotalUpdate(middle, tx.from, writes[tx.from]);
    assert m + writes == middle[tx.from := writes[tx.from]];
  }
}
