/** Plain value transfers: the serial pipeline, the speculative path, and what they do to balances
    and nonces. */
module Transfers {
  import opened Basics
  import opened Outcomes

  const TWO_64: int := 0x1_0000_0000_0000_0000
  const TWO_256: int := TWO_64 * TWO_64 * TWO_64 * TWO_64

  /** Intrinsic gas of a transaction without data; a plain transfer uses exactly this much. */
  const INTRINSIC_GAS: int := 210
  const MAX_TRANSACTION_GAS_LIMIT: int := 30_000_000

  type U64 = x: int | 0 <= x < TWO_64
  type U256 = x: int | 0 <= x < TWO_256

  /** 32 bytes, split into the part that the EVM projection drops and the 20 bytes that it keeps. */
  datatype Address = Address(high: nat, low: nat)

  /** `wellFormed` says that neither the code hash nor the storage root is zero; an account that is
      not well formed is refused when it is loaded. */
  datatype Account = Account(balance: U256, nonce: U64, wellFormed: bool)

  const NEW_ACCOUNT := Account(0, 0, true)

  /** `authentic` stands for the signature and the stateless checks other than price and native gas
      limits; it covers the higher minimum that an Ethereum envelope asks for. */
  datatype Transfer = Transfer(from: Address, to: Address, value: U256, nonce: U64, gasLimit: U64, gasPrice: U256,
                               authentic: bool)

  type Accounts = map<Address, Account>

  /** Amounts that vesting schedules lock at the block's timestamp. */
  type Locks = map<Address, nat>

  datatype TxError =
    | Inadmissible | MissingSender | NonceMismatch | BadGasLimit | Underflow | Overflow
    | InsufficientBalance | NonceExhausted | InvalidAccount | FeeOverflow | ProjectionCollision

  /** The receipt of a successful transfer; `root` is the state whose root it carries. */
  datatype Receipt = Receipt(tx: Transfer, gasUsed: int, refund: int, root: Accounts)

  /** The state database: the current rows and the rows of the last commit. */
  datatype Store = Store(accounts: Accounts, committed: Accounts)

  function AccountAt(m: Accounts, a: Address): Account {
    if a in m then m[a] else NEW_ACCOUNT
  }

  predicate Damaged(m: Accounts, a: Address) {
    a in m && !m[a].wellFormed
  }

  function LockedAt(locks: Locks, a: Address): nat {
    if a in locks then locks[a] else 0
  }

  /** The fee charged up front: saturating in the serial pipeline. */
  function UpfrontFee(tx: Transfer): U256 {
    assert tx.gasPrice * tx.gasLimit >= 0;
    if tx.gasPrice * tx.gasLimit >= TWO_256 then TWO_256 - 1 else tx.gasPrice * tx.gasLimit
  }

  predicate Admissible(tx: Transfer) {
    tx.authentic && tx.gasPrice > 0
  }

  predicate GasLimitOk(tx: Transfer) {
    INTRINSIC_GAS <= tx.gasLimit <= MAX_TRANSACTION_GAS_LIMIT
  }

  // ----- the serial pipeline --------------------------------------------------------------

  /** The rows and the answer after the serial pipeline.  A failure late in the pipeline leaves the
      rows written so far, uncommitted. */
  function Pipeline(st: Store, locks: Locks, tx: Transfer): (Store, Result<Receipt, TxError>) {
    var accounts := st.accounts;
    if !Admissible(tx) then (st, Err(Inadmissible))
    else if !GasLimitOk(tx) then (st, Err(BadGasLimit))
    else if tx.from !in accounts then (st, Err(MissingSender))
    else if Damaged(accounts, tx.from) then (st, Err(InvalidAccount))
    else if accounts[tx.from].nonce != tx.nonce then (st, Err(NonceMismatch))
    else if Damaged(accounts, tx.to) then (st, Err(InvalidAccount))
    else
      var sender, recipient, fee := accounts[tx.from], AccountAt(accounts, tx.to), UpfrontFee(tx);
      if sender.balance < fee then (st, Err(Underflow))
      else if SaturatingSub(sender.balance - fee, LockedAt(locks, tx.from)) < tx.value then
        (st, Err(InsufficientBalance))
      else if recipient.balance + tx.value >= TWO_256 then (st, Err(Overflow))
      else if sender.nonce + 1 >= TWO_64 then (st, Err(NonceExhausted))
      else
        var debited := sender.(balance := sender.balance - fee - tx.value, nonce := sender.nonce + 1);
        var credited := recipient.(balance := recipient.balance + tx.value);
        Settle(st.(accounts := accounts[tx.from := debited][tx.to := credited]), tx, fee)
  }

  /** The refund of unused gas, the receipt and the commit. */
  function Settle(st: Store, tx: Transfer, fee: U256): (Store, Result<Receipt, TxError>)
    requires tx.from in st.accounts
  {
    var used := tx.gasPrice * INTRINSIC_GAS;
    if used >= TWO_256 then (st, Err(FeeOverflow))
    else if fee < used then (st, Err(FeeOverflow))
    else
      var refund, payer := fee - used, st.accounts[tx.from];
      if refund > 0 && payer.balance + refund >= TWO_256 then (st, Err(Overflow))
      else
        var accounts :=
          if refund == 0 then st.accounts
          else st.accounts[tx.from := payer.(balance := payer.balance + refund)];
        (Store(accounts, accounts), Ok(Receipt(tx, INTRINSIC_GAS, refund, accounts)))
  }

  /** The executor with its state database. */
  class Executor {
    var accounts: Accounts
    var committed: Accounts
    const locks: Locks

    constructor (accounts: Accounts, locks: Locks)
      ensures this.accounts == this.committed == accounts && this.locks == locks
    {
      this.accounts, this.committed, this.locks := accounts, accounts, locks;
    }

    method ExecutePipeline(tx: Transfer) returns (r: Result<Receipt, TxError>)
      modifies this
      ensures (Store(accounts, committed), r) == Pipeline(old(Store(accounts, committed)), locks, tx)
    {
      if !Admissible(tx) {
        return Err(Inadmissible);
      }
      if !GasLimitOk(tx) {
        return Err(BadGasLimit);
      }
      if tx.from !in accounts {
        return Err(MissingSender);
      }
      if Damaged(accounts, tx.from) {
        return Err(InvalidAccount);
      }
      var sender := accounts[tx.from];
      if sender.nonce != tx.nonce {
        return Err(NonceMismatch);
      }
      if Damaged(accounts, tx.to) {
        return Err(InvalidAccount);
      }
      var recipient := AccountAt(accounts, tx.to);
      // deduct_upfront_gas_fee
      var fee := UpfrontFee(tx);
      if sender.balance < fee {
        return Err(Underflow);
      }
      sender := sender.(balance := sender.balance - fee);
      // perform_transfer_or_contract_execution, transfer branch
      if SaturatingSub(sender.balance, LockedAt(locks, tx.from)) < tx.value {
        return Err(InsufficientBalance);
      }
      if recipient.balance + tx.value >= TWO_256 {
        return Err(Overflow);
      }
      sender := sender.(balance := sender.balance - tx.value);
      recipient := recipient.(balance := recipient.balance + tx.value);
      // update_sender_nonce
      if sender.nonce + 1 >= TWO_64 {
        return Err(NonceExhausted);
      }
      sender := sender.(nonce := sender.nonce + 1);
      accounts := accounts[tx.from := sender];
      accounts := accounts[tx.to := recipient];
      // refund_unused_gas
      var used := tx.gasPrice * INTRINSIC_GAS;
      if used >= TWO_256 || fee < used {
        return Err(FeeOverflow);
      }
      var refund := fee - used;
      if refund > 0 {
        var payer := accounts[tx.from];
        if payer.balance + refund >= TWO_256 {
          return Err(Overflow);
        }
        accounts := accounts[tx.from := payer.(balance := payer.balance + refund)];
      }
      committed := accounts;
      r := Ok(Receipt(tx, INTRINSIC_GAS, refund, accounts));
    }

    method ExecuteTransactions(txs: seq<Transfer>) returns (r: Result<seq<Receipt>, TxError>)
      modifies this
      ensures (Store(accounts, committed), r) == Serial(old(Store(accounts, committed)), locks, txs, |txs|)
    {
      var receipts := [];
      for i := 0 to |txs|
        invariant (Store(accounts, committed), Ok(receipts)) == Serial(old(Store(accounts, committed)), locks, txs, i)
      {
        var receipt := ExecutePipeline(txs[i]);
        if receipt.Err? {
          SerialFails(old(Store(accounts, committed)), locks, txs, i, (Store(accounts, committed), receipt));
          return Err(receipt.error);
        }
        receipts := receipts + [receipt.value];
      }
      r := Ok(receipts);
    }
  }

  /** The first `k` transactions in order, stopping at the first failure. */
  function Serial(st: Store, locks: Locks, txs: seq<Transfer>, k: nat): (Store, Result<seq<Receipt>, TxError>)
    requires k <= |txs|
  {
    if k == 0 then (st, Ok([]))
    else
      var before := Serial(st, locks, txs, k - 1);
      if before.1.Err? then before
      else
        var step := Pipeline(before.0, locks, txs[k - 1]);
        (step.0, if step.1.Ok? then Ok(before.1.value + [step.1.value]) else Err(step.1.error))
  }

  /** A failing transaction ends the run with its own error and the rows it left. */
  lemma {:induction false} SerialFails(st: Store, locks: Locks, txs: seq<Transfer>, i: nat,
        failed: (Store, Result<Receipt, TxError>))
    requires i < |txs| && Serial(st, locks, txs, i).1.Ok?
    requires failed == Pipeline(Serial(st, locks, txs, i).0, locks, txs[i]) && failed.1.Err?
    ensures Serial(st, locks, txs, |txs|) == (failed.0, Err(failed.1.error))
  {
    SerialStops(st, locks, txs, i + 1, |txs|);
  }

  lemma {:induction false} SerialStops(st: Store, locks: Locks, txs: seq<Transfer>, k: nat, n: nat)
    requires k <= n <= |txs| && Serial(st, locks, txs, k).1.Err?
    ensures Serial(st, locks, txs, n) == Serial(st, locks, txs, k)
  {
    if k < n { SerialStops(st, locks, txs, k, n - 1); }
  }

  // ----- closed form ----------------------------------------------------------------------

  /** When the pipeline can carry out a transfer. */
  predicate Feasible(m: Accounts, locks: Locks, tx: Transfer) {
    && Admissible(tx) && tx.from in m && GasLimitOk(tx)
    && var sender, recipient, fee := m[tx.from], AccountAt(m, tx.to), UpfrontFee(tx);
    && sender.nonce == tx.nonce < TWO_64 - 1
    && !Damaged(m, tx.from) && !Damaged(m, tx.to)
    && fee <= sender.balance
    && tx.value <= SaturatingSub(sender.balance - fee, LockedAt(locks, tx.from))
    && recipient.balance + tx.value < TWO_256
    && tx.gasPrice * INTRINSIC_GAS < TWO_256
  }

  function GasPaid(tx: Transfer): int {
    tx.gasPrice * INTRINSIC_GAS
  }

  /** The net effect between different accounts: the sender pays the value and the gas it used. */
  predicate Moved(before: Accounts, after: Accounts, tx: Transfer) {
    && tx.from in before && tx.from in after && tx.to in after
    && after.Keys == before.Keys + {tx.to}
    && after[tx.from].balance == before[tx.from].balance - tx.value - GasPaid(tx)
    && after[tx.from].nonce == before[tx.from].nonce + 1
    && after[tx.to].balance == AccountAt(before, tx.to).balance + tx.value
    && after[tx.to].nonce == AccountAt(before, tx.to).nonce
    && after[tx.from].wellFormed == before[tx.from].wellFormed
    && after[tx.to].wellFormed == AccountAt(before, tx.to).wellFormed
    && forall a :: a in before && a != tx.from && a != tx.to ==> after[a] == before[a]
  }

  lemma {:induction false} FeeCoversUse(tx: Transfer)
    requires GasLimitOk(tx) && tx.gasPrice * INTRINSIC_GAS < TWO_256
    ensures GasPaid(tx) <= UpfrontFee(tx)
  {
    ProductMonotone(tx.gasPrice, INTRINSIC_GAS, tx.gasLimit);
  }

  /** Between different accounts, charging up front and refunding what is unused amounts to paying
      for the gas used; the pipeline succeeds exactly when the transfer is feasible, and then commits. */
  lemma {:induction false} TransferClosedForm(st: Store, locks: Locks, tx: Transfer)
    requires tx.from != tx.to
    ensures Pipeline(st, locks, tx).1.Ok? <==> Feasible(st.accounts, locks, tx)
    ensures Pipeline(st, locks, tx).1.Ok? ==>
              var (after, receipt) := Pipeline(st, locks, tx);
              && after.committed == after.accounts && Moved(st.accounts, after.accounts, tx)
              && receipt.value == Receipt(tx, INTRINSIC_GAS, UpfrontFee(tx) - GasPaid(tx), after.accounts)
  {
    if GasLimitOk(tx) && tx.gasPrice * INTRINSIC_GAS < TWO_256 {
      FeeCoversUse(tx);
    }
  }

  // ----- conservation ---------------------------------------------------------------------

  ghost function Total(m: Accounts): int {
    if m == map[] then 0
    else
      var a :| a in m;
      m[a].balance + Total(m - {a})
  }

  lemma {:induction false} TotalRemove(m: Accounts, a: Address)
    requires a in m
    ensures Total(m) == m[a].balance + Total(m - {a})
    decreases |m|
  {
    var b :| b in m && Total(m) == m[b].balance + Total(m - {b});
    if a != b {
      TotalRemove(m - {b}, a);
      TotalRemove(m - {a}, b);
      assert m - {b} - {a} == m - {a} - {b};
    }
  }

  lemma {:induction false} TotalUpdate(m: Accounts, a: Address, v: Account)
    ensures Total(m[a := v]) == Total(m) - AccountAt(m, a).balance + v.balance
  {
    TotalRemove(m[a := v], a);
    assert m[a := v] - {a} == m - {a};
    if a in m { TotalRemove(m, a); } else { assert m - {a} == m; }
  }

  lemma {:induction false} TotalMoved(before: Accounts, after: Accounts, tx: Transfer)
    requires tx.from != tx.to && Moved(before, after, tx)
    ensures Total(after) + GasPaid(tx) == Total(before)
  {
    var middle := before[tx.from := after[tx.from]];
    TotalUpdate(before, tx.from, after[tx.from]);
    TotalUpdate(middle, tx.to, after[tx.to]);
    assert after == middle[tx.to := after[tx.to]];
  }

  /** A self-transfer keeps the recipient's copy of the account, so it pays back more than it took. */
  lemma {:induction false} SelfTransfer(st: Store, locks: Locks, tx: Transfer)
    requires tx.from == tx.to && Pipeline(st, locks, tx).1.Ok?
    ensures var after := Pipeline(st, locks, tx).0.accounts;
            && after.Keys == st.accounts.Keys
            && Total(after) + GasPaid(tx) == Total(st.accounts) + tx.value + UpfrontFee(tx)
            && after[tx.from].nonce == st.accounts[tx.from].nonce
  {
    var before, after := st.accounts, Pipeline(st, locks, tx).0.accounts;
    assert after == before[tx.from := after[tx.from]];
    TotalUpdate(before, tx.from, after[tx.from]);
  }

  /** Sending 5 to oneself at a price of 1 for 210 gas: the account ends with 1005 instead of 790. */
  lemma {:induction false} SelfTransferGains()
    ensures var m: Accounts := map[Address(0, 0) := Account(1000, 0, true)];
            var tx := Transfer(Address(0, 0), Address(0, 0), 5, 0, 210, 1, true);
            var (after, receipt) := Pipeline(Store(m, m), map[], tx);
            && receipt.Ok? && after.accounts == map[Address(0, 0) := Account(1005, 0, true)]
            && GasPaid(tx) == 210 && Total(m) == 1000 && Total(after.accounts) == 1005
  {
    var m: Accounts := map[Address(0, 0) := Account(1000, 0, true)];
    var n: Accounts := map[Address(0, 0) := Account(1005, 0, true)];
    TotalRemove(m, Address(0, 0));
    TotalRemove(n, Address(0, 0));
    assert m - {Address(0, 0)} == map[] && n - {Address(0, 0)} == map[];
  }

  /** A successful transfer conserves balances plus gas exactly when sender and recipient differ. */
  lemma {:induction false} ConservationExactly(st: Store, locks: Locks, tx: Transfer)
    requires Pipeline(st, locks, tx).1.Ok?
    ensures Total(Pipeline(st, locks, tx).0.accounts) + GasPaid(tx) == Total(st.accounts) <==> tx.from != tx.to
  {
    if tx.from == tx.to {
      SelfTransfer(st, locks, tx);
      FeeCoversUse(tx);
    } else {
      TransferClosedForm(st, locks, tx);
      TotalMoved(st.accounts, Pipeline(st, locks, tx).0.accounts, tx);
    }
  }

  function GasTotal(txs: seq<Transfer>, k: nat): int
    requires k <= |txs|
  {
    if k == 0 then 0 else GasTotal(txs, k - 1) + GasPaid(txs[k - 1])
  }

  function SentBy(txs: seq<Transfer>, k: nat, a: Address): nat
    requires k <= |txs|
  {
    if k == 0 then 0 else SentBy(txs, k - 1, a) + (if txs[k - 1].from == a then 1 else 0)
  }

  ghost predicate NoSelfTransfers(txs: seq<Transfer>) {
    forall i :: 0 <= i < |txs| ==> txs[i].from != txs[i].to
  }

  /** What a run of the first `k` transactions from `st` to `after` keeps. */
  ghost predicate Kept(st: Store, after: Store, txs: seq<Transfer>, k: nat)
    requires k <= |txs|
  {
    && Total(after.accounts) + GasTotal(txs, k) == Total(st.accounts)
    && (forall a :: AccountAt(after.accounts, a).nonce == AccountAt(st.accounts, a).nonce + SentBy(txs, k, a))
    && (k > 0 ==> after.committed == after.accounts)
    && st.accounts.Keys <= after.accounts.Keys
  }

  lemma {:induction false} KeptStep(st: Store, before: Store, after: Store, txs: seq<Transfer>, k: nat)
    requires k < |txs| && Kept(st, before, txs, k)
    requires txs[k].from != txs[k].to && Moved(before.accounts, after.accounts, txs[k])
    requires after.committed == after.accounts
    ensures Kept(st, after, txs, k + 1)
  {
    TotalMoved(before.accounts, after.accounts, txs[k]);
  }

  /** Over a successful serial run, balances plus gas are conserved, every nonce rises by the number
      of transactions its account sent, and the result is committed. */
  lemma {:induction false} SerialRun(st: Store, locks: Locks, txs: seq<Transfer>, k: nat)
    requires k <= |txs| && NoSelfTransfers(txs) && Serial(st, locks, txs, k).1.Ok?
    ensures Kept(st, Serial(st, locks, txs, k).0, txs, k)
    ensures |Serial(st, locks, txs, k).1.value| == k
  {
    if k == 0 {
      KeptNothing(st, txs);
    } else {
      var before := SerialStep(st, locks, txs, k);
      SerialRun(st, locks, txs, k - 1);
      PipelineKeeps(st, before, Serial(st, locks, txs, k).0, locks, txs, k - 1);
    }
  }

  lemma {:induction false} KeptNothing(st: Store, txs: seq<Transfer>)
    ensures Kept(st, st, txs, 0)
  {
  }

  lemma {:induction false} SerialStep(st: Store, locks: Locks, txs: seq<Transfer>, k: nat) returns (before: Store)
    requires 0 < k <= |txs| && Serial(st, locks, txs, k).1.Ok?
    ensures before == Serial(st, locks, txs, k - 1).0 && Serial(st, locks, txs, k - 1).1.Ok?
    ensures Pipeline(before, locks, txs[k - 1]).1.Ok?
    ensures Pipeline(before, locks, txs[k - 1]).0 == Serial(st, locks, txs, k).0
    ensures |Serial(st, locks, txs, k).1.value| == |Serial(st, locks, txs, k - 1).1.value| + 1
  {
    before := Serial(st, locks, txs, k - 1).0;
  }

  lemma {:induction false} PipelineKeeps(st: Store, before: Store, after: Store, locks: Locks,
        txs: seq<Transfer>, k: nat)
    requires k < |txs| && txs[k].from != txs[k].to && Kept(st, before, txs, k)
    requires Pipeline(before, locks, txs[k]).1.Ok? && Pipeline(before, locks, txs[k]).0 == after
    ensures Kept(st, after, txs, k + 1)
  {
    TransferClosedForm(before, locks, txs[k]);
    KeptStep(st, before, after, txs, k);
  }

  // ----- the speculative path -------------------------------------------------------------

  /** The write set of a speculative transfer.  The nonce is bumped with machine arithmetic, without
      overflow checks as in a release build. */
  function Speculation(view: Accounts, locks: Locks, tx: Transfer): Result<Accounts, TxError> {
    var sender, recipient := AccountAt(view, tx.from), AccountAt(view, tx.to);
    var fee := tx.gasLimit * tx.gasPrice;
    if tx.from != tx.to && tx.from.low == tx.to.low then Err(ProjectionCollision)
    else if Damaged(view, tx.from) then Err(InvalidAccount)
    else if sender.nonce != tx.nonce then Err(NonceMismatch)
    else if fee >= TWO_256 || tx.value + fee >= TWO_256 then Err(InsufficientBalance)
    else if SaturatingSub(sender.balance, LockedAt(locks, tx.from)) < tx.value + fee then Err(InsufficientBalance)
    else if Damaged(view, tx.to) then Err(InvalidAccount)
    else if recipient.balance + tx.value >= TWO_256 then Err(Overflow)
    else if tx.gasLimit < INTRINSIC_GAS then Err(BadGasLimit)
    else
      NetFee(tx);
      Ok(map[tx.to := recipient.(balance := recipient.balance + tx.value),
             tx.from := sender.(balance := sender.balance - tx.value - GasPaid(tx),
                                nonce := (sender.nonce + 1) % TWO_64)])
  }

  lemma {:induction false} NetFee(tx: Transfer)
    requires tx.gasLimit >= INTRINSIC_GAS
    ensures 0 <= GasPaid(tx) <= tx.gasLimit * tx.gasPrice
    ensures tx.gasLimit * tx.gasPrice - (tx.gasLimit - INTRINSIC_GAS) * tx.gasPrice == GasPaid(tx)
  {
    SplitProduct(tx.gasLimit, INTRINSIC_GAS, tx.gasPrice);
  }

  lemma {:induction false} SplitProduct(limit: int, used: int, price: int)
    requires limit >= used >= 0 && price >= 0
    ensures 0 <= price * used <= limit * price
    ensures limit * price - (limit - used) * price == price * used
  {
    assert (limit - used) * price == limit * price - used * price;
    assert (limit - used) * price >= 0;
  }

  method ExecuteSpeculative(view: Accounts, locks: Locks, tx: Transfer) returns (r: Result<Accounts, TxError>)
    ensures r == Speculation(view, locks, tx)
  {
    if tx.from != tx.to && tx.from.low == tx.to.low {
      return Err(ProjectionCollision);
    }
    if Damaged(view, tx.from) {
      return Err(InvalidAccount);
    }
    var sender := AccountAt(view, tx.from);
    if sender.nonce != tx.nonce {
      return Err(NonceMismatch);
    }
    var fee := tx.gasLimit * tx.gasPrice;
    if fee >= TWO_256 || tx.value + fee >= TWO_256 {
      return Err(InsufficientBalance);
    }
    assert fee >= 0;
    if SaturatingSub(sender.balance, LockedAt(locks, tx.from)) < tx.value + fee {
      return Err(InsufficientBalance);
    }
    var writes: Accounts := map[];
    sender := sender.(nonce := (sender.nonce + 1) % TWO_64);
    sender := sender.(balance := sender.balance - tx.value - fee);
    if Damaged(view, tx.to) {
      return Err(InvalidAccount);
    }
    var recipient := AccountAt(view, tx.to);
    if recipient.balance + tx.value >= TWO_256 {
      return Err(Overflow);
    }
    writes := writes[tx.to := recipient.(balance := recipient.balance + tx.value)];
    if tx.gasLimit < INTRINSIC_GAS {
      return Err(BadGasLimit);
    }
    NetFee(tx);
    var refund := (tx.gasLimit - INTRINSIC_GAS) * tx.gasPrice;
    sender := sender.(balance := sender.balance + refund);
    writes := writes[tx.from := sender];
    r := Ok(writes);
  }

  /** What the serial pipeline asks for and the speculative path does not. */
  predicate SeriallyAdmitted(m: Accounts, tx: Transfer) {
    Admissible(tx) && tx.gasLimit <= MAX_TRANSACTION_GAS_LIMIT && tx.from in m && tx.nonce < TWO_64 - 1
  }

  /** When the speculative path succeeds between different accounts, the serial pipeline writes the
      same accounts exactly when its own admission checks pass. */
  lemma {:induction false} SpeculationAgrees(st: Store, locks: Locks, tx: Transfer)
    requires tx.from != tx.to && Speculation(st.accounts, locks, tx).Ok?
    ensures var (after, receipt) := Pipeline(st, locks, tx);
            receipt.Ok? && after.accounts == st.accounts + Speculation(st.accounts, locks, tx).value
            <==> SeriallyAdmitted(st.accounts, tx)
  {
    TransferClosedForm(st, locks, tx);
    if SeriallyAdmitted(st.accounts, tx) {
      SpeculationFeasible(st.accounts, locks, tx);
      SpeculationWrites(st.accounts, Pipeline(st, locks, tx).0.accounts, locks, tx);
    }
  }

  /** The last nonce: the pipeline refuses it, while the speculative path wraps it around in a release
      build; where overflow checks are on, it panics instead. */
  lemma {:induction false} ExhaustedNonceDiffers()
    ensures var m: Accounts := map[Address(0, 0) := Account(1000, TWO_64 - 1, true)];
            var tx := Transfer(Address(0, 0), Address(0, 1), 5, TWO_64 - 1, 210, 1, true);
            && Speculation(m, map[], tx).Ok?
            && Pipeline(Store(m, m), map[], tx) == (Store(m, m), Err(NonceExhausted))
  {
  }

  lemma {:induction false} SpeculationWrites(before: Accounts, after: Accounts, locks: Locks, tx: Transfer)
    requires tx.from != tx.to && tx.from in before && Speculation(before, locks, tx).Ok? && Moved(before, after, tx)
    requires before[tx.from].nonce < TWO_64 - 1
    ensures after == before + Speculation(before, locks, tx).value
  {
  }

  lemma {:induction false} SpeculationFeasible(m: Accounts, locks: Locks, tx: Transfer)
    requires tx.from != tx.to && SeriallyAdmitted(m, tx) && Speculation(m, locks, tx).Ok?
    ensures Feasible(m, locks, tx)
  {
    NetFee(tx);
    assert tx.gasPrice * tx.gasLimit == tx.gasLimit * tx.gasPrice > 0;
  }
}
