/** Dependency detection between the transactions of a batch, and why it is enough: any execution
    order that respects the detected dependencies has the effect of the batch order. */
module Dependencies {
  import opened Outcomes
  import opened Transfers

  // ----- steps framed by read and write sets ----------------------------------------------

  ghost predicate Agree<K(!new), V>(a: map<K, V>, b: map<K, V>, keys: set<K>) {
    forall k :: k in keys ==> (k in a <==> k in b) && (k in a ==> a[k] == b[k])
  }

  ghost predicate Unchanged<K(!new), V>(a: map<K, V>, b: map<K, V>, outputs: set<K>) {
    forall k :: k !in outputs ==> (k in a <==> k in b) && (k in a ==> a[k] == b[k])
  }

  /** `f` changes only keys in `outputs`, and what it leaves there depends only on `inputs`. */
  ghost predicate Framed<K(!new), V(!new)>(f: map<K, V> -> map<K, V>, inputs: set<K>, outputs: set<K>) {
    && (forall m :: Unchanged(m, f(m), outputs))
    && (forall m, m' :: Agree(m, m', inputs) ==> Agree(f(m), f(m'), outputs))
  }

  /** A step with its declared access sets. */
  datatype Step<!K, !V> = Step(run: map<K, V> -> map<K, V>, inputs: set<K>, outputs: set<K>)

  ghost predicate Sound<K(!new), V(!new)>(s: Step<K, V>) {
    Framed(s.run, s.inputs, s.outputs)
  }

  /** Neither step writes what the other accesses. */
  ghost predicate Independent<K(!new), V>(s: Step<K, V>, t: Step<K, V>) {
    s.inputs !! t.outputs && s.outputs !! t.outputs && s.outputs !! t.inputs
  }

  lemma {:induction false} IndependentCommute<K(!new), V(!new)>(s: Step<K, V>, t: Step<K, V>, m: map<K, V>)
    requires Sound(s) && Sound(t) && Independent(s, t)
    ensures s.run(t.run(m)) == t.run(s.run(m))
  {
  }

  ghost predicate Within(order: seq<nat>, n: nat) {
    forall a :: 0 <= a < |order| ==> order[a] < n
  }

  ghost function RunOrder<K(!new), V(!new)>(steps: seq<Step<K, V>>, order: seq<nat>, m: map<K, V>): map<K, V>
    requires Within(order, |steps|)
    decreases |order|
  {
    if order == [] then m else RunOrder(steps, order[1..], steps[order[0]].run(m))
  }

  ghost predicate Occurs(order: seq<nat>, i: nat) {
    exists a :: 0 <= a < |order| && order[a] == i
  }

  /** Every index below `n` occurs exactly once. */
  ghost predicate IsOrder(order: seq<nat>, n: nat) {
    && |order| == n
    && Within(order, n)
    && (forall i: nat :: i < n ==> Occurs(order, i))
    && (forall a, b :: 0 <= a < b < |order| ==> order[a] != order[b])
  }

  ghost predicate AllSound<K(!new), V(!new)>(steps: seq<Step<K, V>>) {
    forall i :: 0 <= i < |steps| ==> SoundAt(steps, i)
  }

  ghost predicate SoundAt<K(!new), V(!new)>(steps: seq<Step<K, V>>, i: nat)
    requires i < |steps|
  {
    Sound(steps[i])
  }

  ghost predicate Apart<K(!new), V>(steps: seq<Step<K, V>>, i: nat, j: nat) {
    i < |steps| && j < |steps| && Independent(steps[i], steps[j])
  }

  /** No step comes before one that it depends on. */
  ghost predicate Respects<K(!new), V>(steps: seq<Step<K, V>>, order: seq<nat>) {
    forall a, b :: 0 <= a < b < |order| && order[b] < order[a] ==> Apart(steps, order[a], order[b])
  }

  function BatchOrder(n: nat): (order: seq<nat>)
    ensures |order| == n && forall i :: 0 <= i < n ==> order[i] == i
  {
    seq(n, i => i)
  }

  lemma {:induction false} RunConcat<K(!new), V(!new)>(steps: seq<Step<K, V>>, left: seq<nat>, right: seq<nat>,
        m: map<K, V>)
    requires Within(left, |steps|) && Within(right, |steps|)
    ensures Within(left + right, |steps|)
    ensures RunOrder(steps, left + right, m) == RunOrder(steps, right, RunOrder(steps, left, m))
    decreases |left|
  {
    if left == [] {
      assert left + right == right;
    } else {
      RunConcat(steps, left[1..], right, steps[left[0]].run(m));
      assert (left + right)[1..] == left[1..] + right;
    }
  }

  /** A step that is independent of everything after it may be moved to the end. */
  lemma {:induction false} MoveToEnd<K(!new), V(!new)>(steps: seq<Step<K, V>>, x: nat, after: seq<nat>, m: map<K, V>)
    requires x < |steps| && Within(after, |steps|) && AllSound(steps)
    requires forall a :: 0 <= a < |after| ==> Apart(steps, x, after[a])
    ensures RunOrder(steps, after, steps[x].run(m)) == steps[x].run(RunOrder(steps, after, m))
    decreases |after|
  {
    if after != [] {
      var y := after[0];
      assert Apart(steps, x, after[0]) && SoundAt(steps, x) && SoundAt(steps, y);
      IndependentCommute(steps[x], steps[y], m);
      MoveToEnd(steps, x, after[1..], steps[y].run(m));
    }
  }

  lemma {:induction false} RemoveLargest(order: seq<nat>, n: nat, q: nat)
    requires IsOrder(order, n + 1) && q < |order| && order[q] == n
    ensures IsOrder(order[..q] + order[q + 1..], n)
  {
    var rest := order[..q] + order[q + 1..];
    forall i: nat | i < n
      ensures Occurs(rest, i)
    {
      assert Occurs(order, i);
      var j :| 0 <= j < |order| && order[j] == i;
      assert rest[if j < q then j else j - 1] == i;
    }
    forall a | 0 <= a < |rest|
      ensures rest[a] < n
    {
      assert rest[a] == order[if a < q then a else a + 1];
    }
  }

  lemma {:induction false} RespectsRest<K(!new), V>(steps: seq<Step<K, V>>, order: seq<nat>, q: nat)
    requires q < |order| && Respects(steps, order)
    ensures Respects(steps, order[..q] + order[q + 1..])
  {
  }

  /** Whatever follows the largest index is independent of it. */
  lemma {:induction false} LargestIsLast<K(!new), V>(steps: seq<Step<K, V>>, order: seq<nat>, n: nat, q: nat,
        after: seq<nat>)
    requires IsOrder(order, n + 1) && Respects(steps, order) && q < |order| && order[q] == n && after == order[q + 1..]
    ensures forall j :: 0 <= j < |after| ==> Apart(steps, n, after[j])
  {
  }

  /** An order runs like the same order with its largest index moved to the end. */
  lemma {:induction false} LargestLast<K(!new), V(!new)>(steps: seq<Step<K, V>>, order: seq<nat>, n: nat,
        q: nat, m: map<K, V>)
    requires Within(order, |steps|) && IsOrder(order, n + 1) && Respects(steps, order) && AllSound(steps)
    requires q < |order| && order[q] == n
    ensures Within(order[..q] + order[q + 1..], |steps|)
    ensures RunOrder(steps, order, m) == steps[n].run(RunOrder(steps, order[..q] + order[q + 1..], m))
  {
    var before, after := order[..q], order[q + 1..];
    LargestIsLast(steps, order, n, q, after);
    var middle := RunOrder(steps, before, m);
    RunConcat(steps, before, order[q..], m);
    assert order == before + order[q..];
    assert order[q..][1..] == after;
    RunConcat(steps, before, after, m);
    MoveToEnd(steps, n, after, middle);
  }

  /** Main theorem: an order that respects the dependencies has the effect of the batch order. */
  lemma {:induction false} OrderIrrelevant<K(!new), V(!new)>(steps: seq<Step<K, V>>, order: seq<nat>, n: nat,
        m: map<K, V>)
    requires n <= |steps| && IsOrder(order, n) && Respects(steps, order) && AllSound(steps)
    ensures RunOrder(steps, order, m) == RunOrder(steps, BatchOrder(n), m)
    decreases n
  {
    if n == 0 {
      assert order == BatchOrder(0);
    } else {
      assert Occurs(order, n - 1);
      var q :| 0 <= q < |order| && order[q] == n - 1;
      var rest := order[..q] + order[q + 1..];
      LargestLast(steps, order, n - 1, q, m);
      RemoveLargest(order, n - 1, q);
      RespectsRest(steps, order, q);
      OrderIrrelevant(steps, rest, n - 1, m);
      BatchOrderStep(steps, n, m);
    }
  }

  lemma {:induction false} BatchOrderStep<K(!new), V(!new)>(steps: seq<Step<K, V>>, n: nat, m: map<K, V>)
    requires 0 < n <= |steps|
    ensures RunOrder(steps, BatchOrder(n), m) == steps[n - 1].run(RunOrder(steps, BatchOrder(n - 1), m))
  {
    assert BatchOrder(n) == BatchOrder(n - 1) + [n - 1];
    RunConcat(steps, BatchOrder(n - 1), [n - 1], m);
    assert [n - 1][1..] == [];
  }

  // ----- what each step sees --------------------------------------------------------------

  /** Steps that write none of the keys leave them as they are. */
  lemma {:induction false} RunLeaves<K(!new), V(!new)>(steps: seq<Step<K, V>>, order: seq<nat>, keys: set<K>,
        m: map<K, V>)
    requires Within(order, |steps|) && AllSound(steps)
    requires forall a :: 0 <= a < |order| ==> steps[order[a]].outputs !! keys
    ensures Agree(m, RunOrder(steps, order, m), keys)
    decreases |order|
  {
    if order != [] {
      var s := steps[order[0]];
      assert SoundAt(steps, order[0]) && Unchanged(m, s.run(m), s.outputs);
      RunLeaves(steps, order[1..], keys, s.run(m));
    }
  }

  lemma {:induction false} AgreeTrans<K(!new), V>(a: map<K, V>, b: map<K, V>, c: map<K, V>, keys: set<K>)
    requires Agree(a, b, keys) && Agree(b, c, keys)
    ensures Agree(a, c, keys)
  {
  }

  /** The state that the step at place `p` of an order meets. */
  ghost function StateAt<K(!new), V(!new)>(steps: seq<Step<K, V>>, order: seq<nat>, p: nat, m: map<K, V>): map<K, V>
    requires Within(order, |steps|) && p <= |order|
  {
    RunOrder(steps, order[..p], m)
  }

  /** At any place of an order that respects the dependencies, a step sees in its inputs what it sees
      in the batch order. */
  lemma {:induction false} SeenSame<K(!new), V(!new)>(steps: seq<Step<K, V>>, order: seq<nat>, n: nat, p: nat,
        m: map<K, V>)
    requires n <= |steps| && IsOrder(order, n) && Respects(steps, order) && AllSound(steps) && p < n
    ensures Agree(StateAt(steps, order, p, m), RunOrder(steps, BatchOrder(order[p]), m), steps[order[p]].inputs)
    decreases n
  {
    assert Occurs(order, n - 1);
    var q :| 0 <= q < |order| && order[q] == n - 1;
    var rest := order[..q] + order[q + 1..];
    RemoveLargest(order, n - 1, q);
    RespectsRest(steps, order, q);
    if p == q {
      OrderIrrelevant(steps, rest, n - 1, m);
      LargestSees(steps, order, n - 1, q, m);
    } else {
      var r := if p < q then p else p - 1;
      assert rest[r] == order[p];
      SeenSame(steps, rest, n - 1, r, m);
      SeenBeside(steps, order, n - 1, q, p, m);
      AgreeTrans(StateAt(steps, order, p, m), StateAt(steps, rest, r, m), RunOrder(steps, BatchOrder(order[p]), m),
                 steps[order[p]].inputs);
    }
  }

  /** Any other step sees the same with and without the largest one. */
  lemma {:induction false} SeenBeside<K(!new), V(!new)>(steps: seq<Step<K, V>>, order: seq<nat>, n: nat, q: nat,
        p: nat, m: map<K, V>)
    requires n < |steps| && IsOrder(order, n + 1) && Respects(steps, order) && AllSound(steps)
    requires q < |order| && order[q] == n && p < |order| && p != q
    ensures var rest := order[..q] + order[q + 1..];
      && Within(rest, |steps|)
      && Agree(StateAt(steps, order, p, m), StateAt(steps, rest, if p < q then p else p - 1, m), steps[order[p]].inputs)
  {
    if p < q {
      assert (order[..q] + order[q + 1..])[..p] == order[..p];
    } else {
      SeenAfterLargest(steps, order, n, q, p, m);
    }
  }

  lemma {:induction false} LargestSees<K(!new), V(!new)>(steps: seq<Step<K, V>>, order: seq<nat>, n: nat, q: nat,
        m: map<K, V>)
    requires n < |steps| && IsOrder(order, n + 1) && Respects(steps, order) && AllSound(steps)
    requires q < |order| && order[q] == n
    ensures Within(order[..q], |steps|) && Within(order[..q] + order[q + 1..], |steps|)
    ensures Agree(RunOrder(steps, order[..q], m), RunOrder(steps, order[..q] + order[q + 1..], m), steps[n].inputs)
  {
    var before, after := order[..q], order[q + 1..];
    LargestIsLast(steps, order, n, q, after);
    RunConcat(steps, before, after, m);
    forall a | 0 <= a < |after|
      ensures steps[after[a]].outputs !! steps[n].inputs
    {
      assert Apart(steps, n, after[a]);
    }
    RunLeaves(steps, after, steps[n].inputs, RunOrder(steps, before, m));
  }

  /** Behind the largest step, a step sees what it would see without it. */
  lemma {:induction false} SeenAfterLargest<K(!new), V(!new)>(steps: seq<Step<K, V>>, order: seq<nat>, n: nat,
        q: nat, p: nat, m: map<K, V>)
    requires n < |steps| && IsOrder(order, n + 1) && Respects(steps, order) && AllSound(steps)
    requires q < p < |order| && order[q] == n
    ensures var rest := order[..q] + order[q + 1..];
      && Within(order[..p], |steps|) && Within(rest[..p - 1], |steps|)
      && Agree(RunOrder(steps, order[..p], m), RunOrder(steps, rest[..p - 1], m), steps[order[p]].inputs)
  {
    var before, between := order[..q], order[q + 1..p];
    var rest := order[..q] + order[q + 1..];
    LargestIsLast(steps, order, n, q, order[q + 1..]);
    forall a | 0 <= a < |between|
      ensures Apart(steps, n, between[a])
    {
      assert between[a] == order[q + 1..][a];
    }
    var middle := RunOrder(steps, before, m);
    assert order[..p] == before + ([n] + between) && ([n] + between)[1..] == between;
    assert rest[..p - 1] == before + between;
    RunConcat(steps, before, [n] + between, m);
    RunConcat(steps, before, between, m);
    MoveToEnd(steps, n, between, middle);
    assert Apart(steps, n, order[q + 1..][p - q - 1]) && order[q + 1..][p - q - 1] == order[p];
    assert SoundAt(steps, n);
    var end := RunOrder(steps, between, middle);
    assert Unchanged(end, steps[n].run(end), steps[n].outputs);
  }

  // ----- transfers ------------------------------------------------------------------------

  /** The keys a plain transfer reads, in the order in which they are listed. */
  function ReadSet(tx: Transfer): seq<Address> {
    [tx.from, tx.to]
  }

  function WriteSet(tx: Transfer): seq<Address> {
    [tx.from, tx.to]
  }

  predicate SetsOverlap(left: seq<Address>, right: seq<Address>) {
    exists i :: 0 <= i < |left| && left[i] in right
  }

  predicate Conflicts(later: Transfer, prior: Transfer) {
    || SetsOverlap(ReadSet(later), WriteSet(prior))
    || SetsOverlap(WriteSet(later), WriteSet(prior))
    || SetsOverlap(WriteSet(later), ReadSet(prior))
  }

  /** The earlier transactions, below `k`, that transaction `index` depends on. */
  function DependsOn(txs: seq<Transfer>, index: nat, k: nat): (d: seq<nat>)
    requires k <= index < |txs|
    ensures forall j :: j in d <==> 0 <= j < k && Conflicts(txs[index], txs[j])
  {
    if k == 0 then []
    else DependsOn(txs, index, k - 1) + if Conflicts(txs[index], txs[k - 1]) then [k - 1] else []
  }

  ghost predicate Increasing(d: seq<nat>) {
    forall i, j :: 0 <= i < j < |d| ==> d[i] < d[j]
  }

  ghost predicate ShareAccount(a: Transfer, b: Transfer) {
    a.from == b.from || a.from == b.to || a.to == b.from || a.to == b.to
  }

  lemma {:induction false} ConflictsExactly(later: Transfer, prior: Transfer)
    ensures Conflicts(later, prior) <==> ShareAccount(later, prior)
  {
    if ShareAccount(later, prior) {
      var i := if later.from in WriteSet(prior) then 0 else 1;
      assert WriteSet(later)[i] in WriteSet(prior);
    }
  }

  /** A transaction depends on exactly the earlier ones that share an account with it, each listed once
      and in batch order. */
  lemma {:induction false} DependenciesExactly(txs: seq<Transfer>, index: nat, k: nat)
    requires k <= index < |txs|
    ensures var d := DependsOn(txs, index, k);
      Increasing(d) && forall j :: j in d <==> 0 <= j < k && ShareAccount(txs[index], txs[j])
  {
    forall j | 0 <= j < k
      ensures Conflicts(txs[index], txs[j]) <==> ShareAccount(txs[index], txs[j])
    {
      ConflictsExactly(txs[index], txs[j]);
    }
    if k > 0 {
      DependenciesExactly(txs, index, k - 1);
      var d := DependsOn(txs, index, k - 1);
      assert forall i :: 0 <= i < |d| ==> d[i] in d;
    }
  }

  /** Executing one transfer on its own: a failure is rolled back. */
  function Apply(locks: Locks, tx: Transfer, m: Accounts): Accounts {
    var (after, receipt) := Pipeline(Store(m, m), locks, tx);
    if receipt.Ok? then after.accounts else m
  }

  ghost function TransferStep(locks: Locks, tx: Transfer): Step<Address, Account> {
    Step((m: Accounts) => Apply(locks, tx, m), set a | a in ReadSet(tx), set a | a in WriteSet(tx))
  }

  ghost function TransferSteps(locks: Locks, txs: seq<Transfer>): (s: seq<Step<Address, Account>>)
    ensures |s| == |txs|
  {
    seq(|txs|, i requires 0 <= i < |txs| => TransferStep(locks, txs[i]))
  }

  /** Transfers stay within the access sets declared for them. */
  lemma {:induction false} TransferIsFramed(locks: Locks, tx: Transfer)
    ensures Sound(TransferStep(locks, tx))
  {
    var s := TransferStep(locks, tx);
    forall m
      ensures Unchanged(m, s.run(m), s.outputs)
    {
    }
    forall m, m' | Agree(m, m', s.inputs)
      ensures Agree(s.run(m), s.run(m'), s.outputs)
    {
      SameOutcome(locks, tx, m, m');
    }
  }

  lemma {:induction false} SameOutcome(locks: Locks, tx: Transfer, m: Accounts, m': Accounts)
    requires Agree(m, m', {tx.from, tx.to})
    ensures Agree(Apply(locks, tx, m), Apply(locks, tx, m'), {tx.from, tx.to})
  {
    assert AccountAt(m, tx.from) == AccountAt(m', tx.from) && AccountAt(m, tx.to) == AccountAt(m', tx.to);
  }

  /** No transaction is ahead of one it depends on. */
  ghost predicate KeepsDependencies(txs: seq<Transfer>, order: seq<nat>)
    requires Within(order, |txs|)
  {
    forall a, b :: 0 <= a < b < |order| ==> order[b] !in DependsOn(txs, order[a], order[a])
  }

  lemma {:induction false} TransfersRespect(locks: Locks, txs: seq<Transfer>, order: seq<nat>)
    requires Within(order, |txs|) && KeepsDependencies(txs, order)
    ensures AllSound(TransferSteps(locks, txs)) && Respects(TransferSteps(locks, txs), order)
  {
    var steps := TransferSteps(locks, txs);
    forall i | 0 <= i < |steps|
      ensures SoundAt(steps, i)
    {
      TransferIsFramed(locks, txs[i]);
    }
    forall a, b | 0 <= a < b < |order| && order[b] < order[a]
      ensures Apart(steps, order[a], order[b])
    {
      assert order[b] !in DependsOn(txs, order[a], order[a]);
      NoConflictIndependent(locks, txs[order[a]], txs[order[b]]);
    }
  }

  /** Dependency soundness: executing the batch in any order that keeps every transaction after what
      it depends on gives the account state of the batch order. */
  lemma {:induction false} DependenciesSuffice(locks: Locks, txs: seq<Transfer>, order: seq<nat>, m: Accounts)
    requires IsOrder(order, |txs|) && KeepsDependencies(txs, order)
    ensures RunOrder(TransferSteps(locks, txs), order, m) == RunOrder(TransferSteps(locks, txs), BatchOrder(|txs|), m)
  {
    TransfersRespect(locks, txs, order);
    OrderIrrelevant(TransferSteps(locks, txs), order, |txs|, m);
  }

  lemma {:induction false} NoConflictIndependent(locks: Locks, later: Transfer, prior: Transfer)
    requires !Conflicts(later, prior)
    ensures Independent(TransferStep(locks, later), TransferStep(locks, prior))
  {
  }

  // ----- the outcome of each transaction --------------------------------------------------

  /** Whether a transfer succeeds on its own, with the refund and the two accounts it leaves, or why
      it fails. */
  function Outcome(locks: Locks, tx: Transfer, m: Accounts): Result<(int, Account, Account), TxError> {
    var (after, receipt) := Pipeline(Store(m, m), locks, tx);
    if receipt.Err? then Err(receipt.error)
    else Ok((receipt.value.refund, AccountAt(after.accounts, tx.from), AccountAt(after.accounts, tx.to)))
  }

  lemma {:induction false} OutcomeIsFramed(locks: Locks, tx: Transfer, m: Accounts, m': Accounts)
    requires Agree(m, m', {tx.from, tx.to})
    ensures Outcome(locks, tx, m) == Outcome(locks, tx, m')
  {
    assert AccountAt(m, tx.from) == AccountAt(m', tx.from) && AccountAt(m, tx.to) == AccountAt(m', tx.to);
  }

  /** In every order that keeps the dependencies, each transaction has the outcome it has in the batch
      order. */
  lemma {:induction false} OutcomesSame(locks: Locks, txs: seq<Transfer>, order: seq<nat>, p: nat, m: Accounts)
    requires IsOrder(order, |txs|) && KeepsDependencies(txs, order) && p < |txs|
    ensures var steps, i := TransferSteps(locks, txs), order[p];
      Outcome(locks, txs[i], StateAt(steps, order, p, m)) == Outcome(locks, txs[i], RunOrder(steps, BatchOrder(i), m))
  {
    var steps, i := TransferSteps(locks, txs), order[p];
    TransfersRespect(locks, txs, order);
    SeenSame(steps, order, |txs|, p, m);
    assert steps[i].inputs == {txs[i].from, txs[i].to};
    OutcomeIsFramed(locks, txs[i], StateAt(steps, order, p, m), RunOrder(steps, BatchOrder(i), m));
  }

  /** The accounts and the answer of a successful transfer do not depend on what was last committed. */
  lemma {:induction false} ApplyIsPipeline(st: Store, locks: Locks, tx: Transfer)
    requires Pipeline(st, locks, tx).1.Ok?
    ensures Pipeline(st, locks, tx).0.accounts == Apply(locks, tx, st.accounts) && Outcome(locks, tx, st.accounts).Ok?
  {
  }

  /** Serial execution that succeeds is the batch order, transaction by transaction. */
  lemma {:induction false} SerialIsBatchOrder(st: Store, locks: Locks, txs: seq<Transfer>, k: nat)
    requires k <= |txs| && Serial(st, locks, txs, k).1.Ok?
    ensures Serial(st, locks, txs, k).0.accounts == RunOrder(TransferSteps(locks, txs), BatchOrder(k), st.accounts)
    ensures k > 0 ==>
      Outcome(locks, txs[k - 1], RunOrder(TransferSteps(locks, txs), BatchOrder(k - 1), st.accounts)).Ok?
  {
    var steps := TransferSteps(locks, txs);
    if k > 0 {
      var before := SerialStep(st, locks, txs, k);
      SerialIsBatchOrder(st, locks, txs, k - 1);
      ApplyIsPipeline(before, locks, txs[k - 1]);
      BatchOrderStep(steps, k, st.accounts);
    }
  }

  /** When serial execution of a batch succeeds, every order that keeps the dependencies ends in the
      same accounts, and every transaction succeeds at its place in it. */
  lemma {:induction false} AnyOrderIsSerial(st: Store, locks: Locks, txs: seq<Transfer>, order: seq<nat>)
    requires IsOrder(order, |txs|) && KeepsDependencies(txs, order) && Serial(st, locks, txs, |txs|).1.Ok?
    ensures RunOrder(TransferSteps(locks, txs), order, st.accounts) == Serial(st, locks, txs, |txs|).0.accounts
    ensures forall p :: 0 <= p < |txs| ==>
      Outcome(locks, txs[order[p]], StateAt(TransferSteps(locks, txs), order, p, st.accounts)).Ok?
  {
    DependenciesSuffice(locks, txs, order, st.accounts);
    SerialIsBatchOrder(st, locks, txs, |txs|);
    forall p | 0 <= p < |txs|
      ensures Outcome(locks, txs[order[p]], StateAt(TransferSteps(locks, txs), order, p, st.accounts)).Ok?
    {
      SucceedsInPlace(st, locks, txs, order, p);
    }
  }

  lemma {:induction false} SucceedsInPlace(st: Store, locks: Locks, txs: seq<Transfer>, order: seq<nat>, p: nat)
    requires IsOrder(order, |txs|) && KeepsDependencies(txs, order) && Serial(st, locks, txs, |txs|).1.Ok? && p < |txs|
    ensures Outcome(locks, txs[order[p]], StateAt(TransferSteps(locks, txs), order, p, st.accounts)).Ok?
  {
    OutcomesSame(locks, txs, order, p, st.accounts);
    SerialPrefix(st, locks, txs, order[p] + 1, |txs|);
    SerialIsBatchOrder(st, locks, txs, order[p] + 1);
  }

  lemma {:induction false} SerialPrefix(st: Store, locks: Locks, txs: seq<Transfer>, k: nat, n: nat)
    requires k <= n <= |txs| && Serial(st, locks, txs, n).1.Ok?
    ensures Serial(st, locks, txs, k).1.Ok?
  {
    if Serial(st, locks, txs, k).1.Err? { SerialStops(st, locks, txs, k, n); }
  }
}
