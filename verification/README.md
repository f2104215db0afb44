# SXIAUM in Dafny

A model of the hard core of the SXIAUM node, with proofs. It covers

- the KZG vector commitments: the three ways the code computes the Lagrange basis, openings, and the
  batched verifiers (`PrimeField`, `Polynomial`, `Lagrange`, `Kzg`, `KzgLaws`, `KzgBatch`);
- the powers-of-tau ceremony: init, contribute and the offline verification (`Ceremony`, `CeremonyLaws`,
  `Text`);
- plain transfers: the serial pipeline, the speculative path, conservation, the dependency graph and
  the optimistic batch (`Transfers`, `TransferLaws`, `Dependencies`, `Batch`);
- the two Merkle trees (`Merkle`, `BlockMerkle`, `MerkleTree`);
- the gas meter (`Gas`, `GasLaws`);
- consensus: the pool of blocks, votes, quorum thresholds and certificates (`BlockPool`,
  `BlockPoolLaws`, `Validators`, `Votes`, `VoteLaws`, `Certificates`), and governance (`Governance`,
  `GovernanceLaws`);
- the amount printer and parser of the command line (`Units`, `UnitLaws`).

The `Laws` modules say of the operations next to them, in terms of their inputs alone, exactly when they
succeed, what they then do and what a failure leaves. `Basics` and `Outcomes` hold what
several modules share. `dafny verify dfyconfig.toml` checks everything.

## How things are represented

Field scalars are integers and field equality is congruence modulo a prime. A curve point is its
discrete logarithm and a pairing is a product, so a pairing equation is an equation between scalars.
Hashes are symbolic: a hash value records what was hashed, so there are no collisions, and any value
that was not hashed is atomic. Signatures name their signer and message. Integers have the widths of
the source wherever saturation, overflow or a checked operation matters.

What the source updates in place is a class here. Each of its methods is proved equal to a function
from the old state to the new one, and the laws are proved about those functions over every run.
Checks that need the network, the clock or a foreign library are parameters: the challenge of a
batch, the random scalar of a contribution, whether a signature is authentic, whether a proposal
comes from the leader.

## What does not hold, and when

- `merkle.rs` says that padding gives every leaf list its own root. Leaves are not tagged there, so
  this fails in general; `MerkleTree.UniqueRootExactly` says for which lists it holds.
- The vote threshold counts active validators only, while votes are counted from every validator with
  voting power. `Votes.UniqueQuorumsExactly` says when certificates for two blocks can be formed in
  one view and phase; the node then refuses at least one of them, `Votes.OneBlockStands`.
- The gas counter saturates, so under the largest possible limit it stops recording;
  `Gas.UsedIsChargedExactly`.
- Voting power is summed with saturation, so for totals above 2^64 accepted certificates may share
  less than a third of the power; `Certificates.CertificatePowerExactly`.
- The compact printer uses a unit that the parser does not know; `Units.CompactRoundTripExactly`.
- The amount parser accepts a plus sign after the decimal point and reads it as a zero;
  `UnitLaws.PlusReadsAsZero`.
- A transfer to oneself does not conserve the total balance; `Transfers.ConservationExactly`, with an
  instance in `Transfers.SelfTransferGains`.
- The speculative path omits checks that the serial pipeline makes, an exhausted nonce among them;
  `Transfers.SpeculationAgrees` lists exactly which, `Transfers.ExhaustedNonceDiffers` is an instance.

## Model

| member | source | states |
|---|---|---|
| `PrimeField.Inverse` | crates/crypto/src/kzg.rs:986-1009 | a field inverse is missing exactly for zero, and otherwise multiplies back to one |
| `PrimeField.NoZeroDivisors` | crates/crypto/src/kzg.rs:685-707 | a product vanishes in the scalar field only when a factor does, the fact behind every uniqueness claim about pairing checks |
| `Polynomial.Division` | crates/crypto/src/kzg.rs:1049-1057 | synthetic division: the polynomial is quotient times (x - root) plus its value at the root, at every x |
| `Polynomial.QuotientOfProduct` | crates/crypto/src/kzg.rs:1049-1057 | dividing undoes multiplying by a linear factor |
| `Polynomial.MulLinearCommute` | crates/crypto/src/kzg.rs:1030-1047 | the order in which linear factors are multiplied in does not change the product |
| `Polynomial.RootBound` | crates/crypto/src/kzg.rs:716-836 | a polynomial with as many distinct roots as coefficients is zero, the root count that batching relies on |
| `Lagrange.TimesLinear` | crates/crypto/src/kzg.rs:1030-1047 | the inner loop multiplies a coefficient vector by a linear factor |
| `Lagrange.DivideByLinear` | crates/crypto/src/kzg.rs:1049-1057 | the carry loop returns the quotient, for every root, with the value at the root as remainder |
| `Lagrange.VanishingPolynomial` | crates/crypto/src/kzg.rs:1030-1047 | the domain polynomial is zero on every domain point |
| `Lagrange.LagrangeBasis` | crates/crypto/src/kzg.rs:921-957 | the product-form basis: polynomial i is one at i and zero at every other domain point |
| `Lagrange.LagrangeBasisCoefficients` | crates/crypto/src/kzg.rs:1011-1028 | dividing the vanishing polynomial and normalising gives the same coefficients as the product form; an index outside the domain is refused |
| `Lagrange.LagrangeEvaluation` | crates/crypto/src/kzg.rs:986-1009 | the direct evaluation is the value of that same polynomial at any point; an index outside the domain is refused |
| `Lagrange.LagrangeDelta` | crates/crypto/src/kzg.rs:986-1009 | the evaluation formula is one at its own index and zero at the others |
| `Lagrange.InterpolantOnDomain` | crates/crypto/src/kzg.rs:904-919 | the Lagrange sum takes the given values on the domain |
| `Lagrange.VanishingSplits` | crates/crypto/src/kzg.rs:1011-1047 | the vanishing polynomial is the product over the other points times the missing factor |
| `Lagrange.LagrangePolynomialEval` | crates/crypto/src/kzg.rs:986-1028 | the coefficient form and the evaluation formula agree everywhere |
| `Kzg.BuildPowersOfTau` | crates/crypto/src/kzg.rs:140-155 | the development SRS consists of the powers of its scalar |
| `Kzg.CommitCoefficients` | crates/crypto/src/kzg.rs:883-895 | the multi-scalar loop is the inner product of powers and coefficients |
| `Kzg.CommitIsEval` | crates/crypto/src/kzg.rs:883-895 | committing against the powers of a scalar evaluates the polynomial at that scalar |
| `Kzg.LagrangeCommitment` | crates/crypto/src/kzg.rs:959-984 | the trapdoor path and the file-loaded path give the same basis commitment |
| `Kzg.CommitmentPoint` | crates/crypto/src/kzg.rs:872-881 | the commitment to a vector is its interpolant at the secret scalar |
| `Kzg.InterpolateEvaluations` | crates/crypto/src/kzg.rs:897-919 | the coefficients take the given values on the whole domain, zero values skipped |
| `Kzg.CommitmentFormsAgree` | crates/crypto/src/kzg.rs:872-919 | the Lagrange-form commitment equals the monomial commitment of the interpolated coefficients |
| `KzgLaws.CommittedOnDomain` | crates/crypto/src/kzg.rs:872-919 | the committed polynomial takes the number of each slot at its index, zero for slots that are absent or beyond the end |
| `KzgLaws.CommitmentBinds` | crates/crypto/src/kzg.rs:872-919 | two vectors have the same commitment under every secret when they agree in all 256 slots, and otherwise under at most 255 secrets |
| `Kzg.QuotientCoefficients` | crates/crypto/src/kzg.rs:1066-1079 | the opening quotient satisfies its division identity at every point |
| `Kzg.Open` | crates/crypto/src/kzg.rs:661-683 | completeness: the proof for any vector and index verifies against the commitment to that vector, the empty vector included; an index outside the domain is refused |
| `Kzg.OpeningUnique` | crates/crypto/src/kzg.rs:685-707 | for a fixed commitment, index and proof exactly one field value is accepted |
| `KzgBatch.VerifySinglePoint` | crates/crypto/src/kzg.rs:716-769 | the folded single-point check decides the random linear combination of the individual checks, and which inputs are errors; VerdictErrors, VerdictComplete and VerdictSound say what that decision is worth |
| `KzgBatch.VerifyMultiPoint` | crates/crypto/src/kzg.rs:776-836 | the folded multi-point check decides the same combination with one point per opening; the same three laws hold of it |
| `KzgBatch.BatchComplete` | crates/crypto/src/kzg.rs:716-836 | if every opening holds, the batch passes for every challenge |
| `KzgBatch.BatchSound` | crates/crypto/src/kzg.rs:716-836 | if some opening of k fails, at most k - 1 challenges make the batch pass |
| `KzgBatch.VerdictErrors` | crates/crypto/src/kzg.rs:716-836 | for lists of equal length a batch is an error exactly when some opening alone is one, an index outside the domain reported first |
| `KzgBatch.VerdictShapes` | crates/crypto/src/kzg.rs:716-836 | a batch without commitments is accepted, and lists of different lengths are refused as such |
| `KzgBatch.VerdictComplete` | crates/crypto/src/kzg.rs:716-836 | on raw inputs: if each opening verifies alone, the batch verifies for every challenge |
| `KzgBatch.VerdictSound` | crates/crypto/src/kzg.rs:716-836 | on raw inputs: if some opening of k does not verify alone, at most k - 1 challenges make the batch verify |
| `Ceremony.VerifySrsStructure` | crates/crypto/src/ceremony.rs:241-297 | accepts exactly the powers of one scalar on the canonical generators, the development trapdoor excluded |
| `Ceremony.DevIffTrapdoor` | crates/crypto/src/kzg.rs:57-64 | on a geometric progression the trapdoor test recognises exactly the scalar 42 |
| `CeremonyLaws.LoadedExactly` | crates/crypto/src/kzg.rs:324-389 | a state file loads exactly when it parses, has 256 points and does not carry the marks of the scalar 42, and loads as it is |
| `Ceremony.ValidateChain` | crates/crypto/src/ceremony.rs:160-216 | accepts exactly the transcripts whose participants are distinct and not blank and whose state hashes chain |
| `CeremonyLaws.ChainReplaced` | crates/crypto/src/ceremony.rs:160-216 | what can take the place of a record in a valid chain: exactly a complete record by somebody new that leads from the state before it to the state after it |
| `Ceremony.CeremonyVerify` | crates/crypto/src/ceremony.rs:467-552 | the loops accept exactly the transcripts that meet every condition, and report the final hash and the participants in order; CeremonyLaws.AcceptedExactly says what the conditions amount to |
| `Ceremony.CumulativeIsProduct` | crates/crypto/src/ceremony.rs:467-552 | the cumulative point after k rounds is the product of the committed scalars |
| `Ceremony.CeremonySound` | crates/crypto/src/ceremony.rs:467-552 | an accepted ceremony ends in the powers of the product of the committed scalars, with enough distinct participants and a chain of states from the initial one to the final file |
| `CeremonyLaws.AcceptedExactly` | crates/crypto/src/ceremony.rs:467-552 | a transcript is accepted exactly when its records form a sound ceremony, said without the verifier's loops: linked states, distinct contributors, attestations over the record, and a final file with the powers of the product |
| `CeremonyLaws.TamperedRefused` | crates/crypto/src/ceremony.rs:467-552 | changing the attestation of an accepted record, or any field it covers while keeping it, is refused |
| `CeremonyLaws.AdmittedContribution` | crates/crypto/src/ceremony.rs:329-435 | an admitted contribution starts from a file that is the transcript's head and holds the powers of some scalar, succeeds, leaves the powers of that scalar times the applied one, appends one record, and leaves a valid chain exactly when the file changed |
| `CeremonyLaws.WriteLoadRoundTrip` | crates/crypto/src/kzg.rs:211-389 | a state that could be written loads again, with the same points |
| `Ceremony.CeremonyInit` | crates/crypto/src/ceremony.rs:301-321 | the initial state is the powers of one and its genesis transcript |
| `Ceremony.Contribute` | crates/crypto/src/ceremony.rs:329-435 | which contributions are admitted, and that power j is scaled by the j-th power of the scalar |
| `Ceremony.ScaledPowers` | crates/crypto/src/ceremony.rs:376-387 | scaling turns the powers of t into the powers of t times tau |
| `Ceremony.ScaledWrites` | crates/crypto/src/ceremony.rs:329-435 | the new state is written unless its scalar is the trapdoor |
| `Ceremony.FileChanges` | crates/crypto/src/ceremony.rs:160-216 | the state file changes exactly when the applied scalar is not one |
| `Ceremony.ChainExtends` | crates/crypto/src/ceremony.rs:160-216 | appending a record keeps the chain valid exactly when the record links to the head |
| `Ceremony.HonestStep` | crates/crypto/src/ceremony.rs:329-435 | one honest round from a consistent state: when it succeeds, when it leaves a valid chain, and that it keeps consistency |
| `Ceremony.HonestRun` | crates/crypto/src/ceremony.rs:301-435 | honest rounds succeed and leave a valid transcript exactly when no applied scalar is one and no running product is 42; then the state holds the powers of the running product |
| `Ceremony.HonestCeremonyAccepted` | crates/crypto/src/ceremony.rs:301-552 | the finished transcript of an honest run verifies exactly when the rounds were effective and numerous enough |
| `Transfers.Executor.ExecutePipeline` | crates/execution/src/executor.rs:798-855 | the step-by-step pipeline is the transfer function, on success and on every failure; TransferLaws says exactly which failure, and what it leaves behind |
| `Transfers.Executor.ExecuteTransactions` | crates/execution/src/executor.rs:487-493 | serial execution stops at the first failure and keeps what was committed before it |
| `Transfers.SerialFails` | crates/execution/src/executor.rs:487-493 | a failing transaction ends the run with its own error and the rows it left |
| `Transfers.TransferClosedForm` | crates/execution/src/executor.rs:798-855 | between different accounts the pipeline succeeds exactly when the transfer is feasible, and then moves the value and the price of the gas used |
| `TransferLaws.RefusedWith` | crates/execution/src/executor.rs:798-855 | a refused transfer carries the error of the first of twelve conditions that fails; the committed accounts are kept, and the working rows too unless one of the last two fails, which leaves the transfer written and not settled |
| `TransferLaws.SucceedsExactly` | crates/execution/src/executor.rs:798-855 | a transfer succeeds exactly when all twelve conditions hold; a refusal changes no row between different accounts with a representable fee |
| `TransferLaws.ReceiptsFollow` | crates/execution/src/executor.rs:487-493 | serial execution returns one receipt per transaction, in order, each with the content of its own transaction |
| `Transfers.SelfTransfer` | crates/execution/src/executor.rs:1129-1146 | what a transfer to oneself does: the recipient's copy of the account is kept, so the value and the prepaid fee come back |
| `Transfers.ConservationExactly` | crates/execution/src/executor.rs:798-855 | a successful transfer keeps total balance plus gas paid exactly when sender and recipient differ |
| `Transfers.SelfTransferGains` | crates/execution/src/executor.rs:1129-1146 | a self-transfer of 5 that succeeds and leaves 1005 of 1000 |
| `Transfers.SerialRun` | crates/execution/src/executor.rs:487-493 | over any serial run, total balance plus gas paid is constant and each nonce rises by the number of that sender's transactions |
| `Transfers.ExecuteSpeculative` | crates/execution/src/executor.rs:315-391 | the speculative path computes the write set that the laws speak about, or its error |
| `Transfers.SpeculationAgrees` | crates/execution/src/executor.rs:206-226 | when the speculative path succeeds between different accounts, the serial pipeline writes the same accounts exactly when the checks that only it makes pass: signature and price, the upper gas bound, an existing sender and a nonce that can grow |
| `TransferLaws.SpeculationExactly` | crates/execution/src/executor.rs:315-391 | exactly when the speculative path succeeds, that it writes the two accounts and no other, and what it conserves |
| `Transfers.ExhaustedNonceDiffers` | crates/execution/src/executor.rs:315-391 | a transfer at the last nonce that the speculative path carries out and the pipeline refuses |
| `Dependencies.IndependentCommute` | crates/execution/src/executor.rs:891-932 | two steps whose declared reads and writes do not meet commute |
| `Dependencies.OrderIrrelevant` | crates/execution/src/executor.rs:891-932 | framed steps give the same state in every order that keeps dependent steps in place |
| `Dependencies.DependsOn` | crates/execution/src/executor.rs:891-932 | the dependency list of a transaction is exactly the earlier transactions it conflicts with |
| `Dependencies.DependenciesExactly` | crates/execution/src/executor.rs:891-932 | a transaction depends on exactly the earlier ones that share an account with it, each listed once and in batch order |
| `Dependencies.TransferIsFramed` | crates/execution/src/executor.rs:1538-1579 | a plain transfer reads and writes no more than its declared sets |
| `Dependencies.DependenciesSuffice` | crates/execution/src/executor.rs:891-932 | a batch of transfers gives the same accounts in every permutation that respects depends_on |
| `Dependencies.SeenSame` | crates/execution/src/executor.rs:891-932 | at its place in any order that respects the dependencies, a step sees in its inputs what it sees in the batch order |
| `Dependencies.OutcomesSame` | crates/execution/src/executor.rs:891-932 | in every such order each transfer has the outcome it has in the batch order: the same error, or the same refund and accounts |
| `Dependencies.SerialIsBatchOrder` | crates/execution/src/executor.rs:487-493 | serial execution that succeeds is the batch order, transaction by transaction |
| `Dependencies.AnyOrderIsSerial` | crates/execution/src/executor.rs:879-932 | when serial execution succeeds, every order that keeps the dependencies ends in the same accounts and every transaction succeeds at its place |
| `Batch.ValidateTransactionBatch` | crates/execution/src/executor.rs:450-485 | accepts exactly the batches whose transactions pass the stateless checks and whose nonces run on per sender |
| `Batch.AdmittedNonceHolds` | crates/execution/src/executor.rs:450-485 | in an admitted batch no nonce check fails while the earlier transactions succeed |
| `Batch.SortCorrect` | crates/execution/src/executor.rs:1379-1406 | sorting the results by index permutes them into increasing order |
| `Batch.SortedIsBatchOrder` | crates/execution/src/executor.rs:1379-1406 | whatever the result order, the commit loop visits the batch in index order |
| `Batch.CommitOptimisticResults` | crates/execution/src/executor.rs:1379-1406 | the commit loop gives the accounts and receipts of serial execution, whatever the conflict flags and the result order |
| `Merkle.FoldInjective` | crates/crypto/src/merkle.rs:88-112 | trees over equally many nodes have equal roots only when the nodes are equal |
| `Merkle.RootDeterminesList` | crates/block/src/body.rs:41-70 | over leaves that are neither padding nor inner nodes, the root determines the list, whatever the lengths |
| `Merkle.PathClimbs` | crates/block/src/body.rs:73-135 | climbing the siblings of a position reaches the root |
| `Merkle.ClimbExactly` | crates/block/src/body.rs:121-135 | a proof reaches the root exactly when it is the path of the position that the index names modulo the tree width |
| `BlockMerkle.BuildNextLevel` | crates/block/src/body.rs:54-70 | tagging, padding and pairing give the next level |
| `BlockMerkle.CalculateMerkleRoot` | crates/block/src/body.rs:263-280 | the loop computes the root, the empty list and a single leaf included |
| `BlockMerkle.ProofLevel` | crates/block/src/body.rs:88-115 | one level records exactly one sibling, although the index is halved inside the chunk loop |
| `BlockMerkle.GenerateMerkleProof` | crates/block/src/body.rs:73-118 | the generated proof has one sibling per level and verifies; an empty list and an index out of range are errors |
| `BlockMerkle.VerifyMerkleProof` | crates/block/src/body.rs:121-135 | the loop decides acceptance |
| `BlockMerkle.RootBinding` | crates/block/src/body.rs:263-280 | distinct ordered leaf lists, of any lengths, have distinct roots |
| `BlockMerkle.AcceptedExactly` | crates/block/src/body.rs:121-135 | a proof is accepted exactly when it is the path of leaf (index mod 2^depth), a position inside the list that holds the leaf; nothing is accepted against the root of the empty list |
| `MerkleTree.Layers` | crates/crypto/src/merkle.rs:88-112 | the layers run from the leaves to the root, one more than the depth |
| `MerkleTree.BuildNextLayerInto` | crates/crypto/src/merkle.rs:248-263 | the sequential loop fills every slot of the next layer |
| `MerkleTree.BuildNextLayerParallelInto` | crates/crypto/src/merkle.rs:265-283 | filling the slots independently, in any order, gives the same layer |
| `MerkleTree.Tree.BuildLayers` | crates/crypto/src/merkle.rs:88-112 | the layers agree with the leaves after every rebuild |
| `MerkleTree.Tree.AppendLeaf` | crates/crypto/src/merkle.rs:50-53 | appending adds the leaf at the end and rebuilds |
| `MerkleTree.Tree.TreeRoot` | crates/crypto/src/merkle.rs:36-42 | the root read from the layers is the root of the leaves |
| `MerkleTree.Tree.ParallelRoot` | crates/crypto/src/merkle.rs:127-143 | the parallel computation gives that same root, whatever was appended |
| `MerkleTree.Tree.GenerateProof` | crates/crypto/src/merkle.rs:146-173 | the proof is the path of the position and verifies; an index out of range is an error |
| `MerkleTree.VerifyProof` | crates/crypto/src/merkle.rs:176-192 | the loop decides whether the proof climbs to the root |
| `MerkleTree.EqualLengthBinding` | crates/crypto/src/merkle.rs:54-73 | lists of equal length share a root only when they are equal |
| `MerkleTree.GenuineBinding` | crates/crypto/src/merkle.rs:54-73 | lists of leaves that are neither tree nodes nor padding nor zero share a root only when they are equal |
| `MerkleTree.UniqueRootExactly` | crates/crypto/src/merkle.rs:54-73 | the documented claim that every list has its own root holds exactly for a single leaf that is neither zero nor a tree node, because leaves are not tagged |
| `MerkleTree.AcceptedExactly` | crates/crypto/src/merkle.rs:176-192 | between genuine leaves a proof is accepted exactly when it is the path of the position its index names |
| `Gas.SstoreGas` | crates/execution/src/gas.rs:305-373 | a store costs what a load costs unless it is the first change of a clean slot, and its refund delta is the change in the slot being cleared; GasLaws.GasOfRun fixes the prices over runs |
| `Gas.NumWords` | crates/execution/src/gas.rs:240-244 | the least number of 32-byte words that holds a range |
| `Gas.MemoryCost` | crates/execution/src/gas.rs:249-257 | three per word and the square over 512, capped at the largest memory |
| `GasLaws.ChargedExactly` | crates/execution/src/gas.rs:570-722 | a charge is refused exactly when its price passes the limit or, for a store, at most 23 gas remain; otherwise it costs its price: 48 per storage access, 20 more for a cold key, 152 or 2 more for the first change of a slot that is empty or not |
| `GasLaws.GasOfRun` | crates/execution/src/gas.rs:305-722 | over every accepted run the gas used is 48 per access, 20 per key first touched, 152 per first change of an originally empty slot, 2 per first change of another, plus memory and plain charges, counted on the trace |
| `GasLaws.WarmOfRun` | crates/execution/src/gas.rs:694-722 | over every run, refused charges included, exactly the touched keys turn warm, except where the sentry stopped a store |
| `Gas.MemoryCostMonotone` | crates/execution/src/gas.rs:249-257 | more memory never costs less, so the incremental charge never saturates at zero |
| `Gas.GasMeter.Consume` | crates/execution/src/gas.rs:570-581 | a charge is added to the gas used, or refused without effect when it would pass the limit |
| `Gas.GasMeter.ChargeMemory` | crates/execution/src/gas.rs:660-671 | the meter after a memory charge, refusal included; RunMetered sums these charges up |
| `Gas.GasMeter.ChargeSload` | crates/execution/src/gas.rs:694-699 | what a load does to the meter: the key turns warm even if the charge is refused |
| `Gas.GasMeter.ChargeSstore` | crates/execution/src/gas.rs:702-722 | the meter after a store: the sentry, the key turning warm before the charge, the charge, the refund; RunRefunded sums the refunds up |
| `Gas.GasMeter.ApplyRefunds` | crates/execution/src/gas.rs:624-634 | the capped refund is taken off and the counter cleared; RefundCapped bounds it |
| `Gas.GasMeter.DeductFee` | crates/execution/src/gas.rs:755-762 | the limit is prepaid, unless the product overflows or the balance is short |
| `Gas.GasMeter.RefundUnused` | crates/execution/src/gas.rs:764-780 | the unused part is paid back, with every refusal; SettlementExact rules the refusals out |
| `Gas.DeltaCountsCleared` | crates/execution/src/gas.rs:305-373 | the refund delta of a store is the change in the number of cleared slots, at the clear refund each |
| `Gas.RunMetered` | crates/execution/src/gas.rs:570-671 | under any interleaving of charges the gas used stays within the limit, and memory has cost exactly what the largest range paid for costs on its own |
| `Gas.RunRefunded` | crates/execution/src/gas.rs:591-722 | under any limit and any interleaving of charges the refund counter is the clear refund times the number of slots that held a value at the start and are empty now |
| `Gas.DirtyIsPaid` | crates/execution/src/gas.rs:305-373 | only the first change of a clean slot makes a slot dirty, and it costs at least the reset price |
| `Gas.ClawBackCovered` | crates/execution/src/gas.rs:596-603 | taking a clear refund back never saturates |
| `Gas.UsedIsChargedExactly` | crates/execution/src/gas.rs:570-581 | the gas used is the sum of the charges on every run exactly when the limit is below the largest 64-bit number |
| `Gas.PathIndependent` | crates/execution/src/gas.rs:305-373 | two runs that end with the same storage have the same refund; two with the same largest range have paid the same for memory |
| `Gas.RefundCapped` | crates/execution/src/gas.rs:624-643 | the applied refund is the counter or a fifth of the gas used, whichever is less, and applying it does not change the effective gas |
| `Gas.SettlementExact` | crates/execution/src/gas.rs:755-780 | prepaying fails exactly when the product overflows or the balance is short; prepaying, any charges and returning the rest lower the balance by exactly the price of the effective gas, leave the rest of the account alone, and nothing after a successful prepayment can fail |
| `GasLaws.ReturnedExactly` | crates/execution/src/gas.rs:764-780 | returning the unused part fails exactly when the prepaid product or the balance overflows, changes nothing then, and otherwise pays exactly the price of the unused gas |
| `BlockPool.Consensus.ResolveFork` | crates/consensus/src/lib.rs:757-786 | the loop over competing blocks, in any order, drops them all or keeps the incumbent |
| `BlockPool.Consensus.ProcessBlockProposal` | crates/consensus/src/lib.rs:239-342 | a proposal enters in place of the block it competes with, or is refused with the blocks unaffected, check by check; RunSound says what that keeps |
| `BlockPool.Consensus.CommitBlock` | crates/consensus/src/lib.rs:510-525 | a known pending block moves to the committed ones; repeated or finalized blocks change nothing |
| `BlockPool.Consensus.FinalizeBlock` | crates/consensus/src/lib.rs:527-557 | a certified committed block of greater height becomes the finalized one and enters the chain; otherwise nothing changes; BlockPoolLaws.FinalizesExactly and FinalizedExactly say when |
| `BlockPool.Consensus.FinalizeBlockOnceQuorumReached` | crates/consensus/src/lib.rs:852-875 | commit, finalize and prune, the pruning also after a refusal to finalize |
| `BlockPool.ProposalSound` | crates/consensus/src/lib.rs:239-342 | a proposal keeps the pool free of forks |
| `BlockPool.CertifiedSound` | crates/consensus/src/lib.rs:852-875 | finalizing keeps the pool sound, raises the finalized height exactly when the finalized block changes, and replaces nothing in the canonical chain |
| `BlockPool.RunSound` | crates/consensus/src/lib.rs:239-342 | over every run pending blocks have distinct parents and distinct height and proposer, number at most 256 and lie above the finalized height; finalized heights strictly increase; a canonical block is never replaced |
| `BlockPoolLaws.EntersExactly` | crates/consensus/src/lib.rs:239-342 | a proposal enters exactly when it extends a known older parent above the finalized height, finds room among 256, respects the lock, is its proposer's only one at that height and displaces its siblings, which needs the greatest height and no certificate on them; it replaces exactly those siblings |
| `BlockPoolLaws.RefusedWith` | crates/consensus/src/lib.rs:239-342 | a refused proposal carries the error of the first of fourteen conditions that fails, and leaves the pool alone |
| `BlockPoolLaws.ResolvedExactly` | crates/consensus/src/lib.rs:757-786 | resolving a fork drops exactly the siblings of the candidate, or nothing |
| `BlockPoolLaws.FinalizesExactly` | crates/consensus/src/lib.rs:527-557 | finalizing succeeds exactly for the finalized block itself and for a committed block higher than it with a valid certificate; it makes that very block final, stores it at its height and takes only it out of the committed ones |
| `BlockPoolLaws.CommitsExactly` | crates/consensus/src/lib.rs:510-525 | committing fails exactly for a block the node does not hold, and moves exactly a pending block that is neither committed nor final |
| `BlockPoolLaws.UnknownRefused` | crates/consensus/src/lib.rs:852-875 | a certificate for a block the node does not hold changes nothing |
| `BlockPoolLaws.CommitFinalizes` | crates/consensus/src/lib.rs:852-875 | a valid certificate for a pending block makes it the finalized block, stored at its height, and leaves exactly the blocks above it |
| `BlockPoolLaws.UncertifiedWaits` | crates/consensus/src/lib.rs:852-875 | without a valid certificate nothing is finalized and the block is kept among the committed ones |
| `BlockPoolLaws.FinalizedExactly` | crates/consensus/src/lib.rs:852-875 | over every run the finalized blocks are exactly those that got a valid commit certificate while they were pending |
| `BlockPoolLaws.RunFinalizes` | crates/consensus/src/lib.rs:852-875 | over every run the finalized heights are those of the finalized blocks, each stays in the canonical chain at its height, and the last one is the finalized block |
| `BlockPool.FreshSound` | crates/consensus/src/lib.rs:137-175 | a starting node satisfies the invariant exactly when its stored chain ends at or below the finalized height |
| `BlockPool.CertifiedBlockStays` | crates/consensus/src/lib.rs:901-913 | a pending block that carries the highest certificate is never displaced by a proposal |
| `BlockPool.EntrantRespectsLock` | crates/consensus/src/consensus_state.rs:207-238 | a block enters the pool only at or above the locked height, and at that height only as the locked block itself |
| `Validators.SumPower` | crates/consensus/src/pos/validator_set.rs:274-280 | voting power is added up with 64-bit saturation |
| `Validators.RequiredQuorumVotingPower` | crates/consensus/src/lib.rs:1035-1043 | the power threshold is two thirds of the saturated active power plus one, or zero |
| `Validators.ThresholdsAreLeast` | crates/consensus/src/lib.rs:701-707 | both thresholds are the least numbers above two thirds, or zero |
| `Validators.CountOverlap` | crates/consensus/src/lib.rs:701-707 | any two sets meeting the count threshold share more than a third of the active validators, and the threshold is attainable |
| `Validators.PowerQuorumOverlap` | crates/consensus/src/lib.rs:1035-1043 | any two sets meeting the power threshold share more than a third of the power while the total is at most 2^64, and the threshold is attainable |
| `Validators.PowerOverlapExactly` | crates/consensus/src/pos/validator_set.rs:274-280 | sets that meet both thresholds share more than a third of the power, for all validator sets of a total, exactly when the total is positive and at most 2^64 |
| `Votes.Replica.AddVote` | crates/consensus/src/hotstuff/vote.rs:532-595 | a vote is counted once per ballot, and a second block in the same slot is refused |
| `Votes.Replica.ProcessVote` | crates/consensus/src/lib.rs:344-446 | which votes are counted, how the view follows, and when the threshold is met |
| `Votes.Replica.PruneVotes` | crates/consensus/src/hotstuff/vote.rs:731-737 | pruning drops what lies more than ten views back |
| `Votes.StepFaithful` | crates/consensus/src/lib.rs:344-446 | every step keeps the books faithful to the votes counted, and no counted vote is ever replaced by another, pruning included |
| `VoteLaws.CountedExactly` | crates/consensus/src/lib.rs:344-446 | a vote is counted exactly when it is not late, its block is known, it respects the lock, it is signed and revealed, its validator has power and it contradicts nothing cast before; it enters one list once, and the view follows by at most 32 |
| `VoteLaws.RefusedWith` | crates/consensus/src/lib.rs:344-446 | a refused vote carries the error of the first check it fails |
| `VoteLaws.AddedExactly` | crates/consensus/src/hotstuff/vote.rs:532-595 | the vote book counts exactly revealed votes that contradict nothing, and refuses a contradiction first |
| `VoteLaws.PrunedExactly` | crates/consensus/src/hotstuff/vote.rs:731-737 | pruning keeps exactly what is at most ten views old, as it was |
| `VoteLaws.ViewFollows` | crates/consensus/src/hotstuff/pacemaker.rs:46-118 | the view never falls, follows the pacemaker, and a vote moves it by at most 32 |
| `VoteLaws.ListedExactly` | crates/consensus/src/lib.rs:344-446 | over every run a validator is listed for a ballot only if it cast such a vote on it, and if it did it stays listed while the ballot is at most ten views old |
| `Votes.TwoQuorumsNeed` | crates/consensus/src/lib.rs:344-446 | two blocks certified in one view and phase need twice the votes of a certificate among the eligible validators |
| `Votes.UniqueQuorumsExactly` | crates/consensus/src/lib.rs:344-446 | in no run are certificates formed for two blocks in one view and phase, exactly when fewer validators have voting power than twice the votes a certificate takes: the threshold, or one vote while the threshold is zero |
| `Votes.OneBlockStands` | crates/consensus/src/lib.rs:428-446 | for every validator set and every run, at most one block of a view and phase ever has a certificate whose voters are all active, which is what the node asks of a formed certificate before it uses it |
| `Votes.ActiveVotersSuffice` | crates/consensus/src/lib.rs:997-1013 | quorums are unique whenever all validators with voting power are active |
| `Certificates.Verify` | crates/consensus/src/hotstuff/vote.rs:196-238 | accepts exactly certificates signed by distinct active validators that meet the count threshold |
| `Certificates.VerifyWithVotingPower` | crates/consensus/src/hotstuff/vote.rs:240-262 | and whose power meets the power threshold |
| `Certificates.CertificatesOverlap` | crates/consensus/src/hotstuff/vote.rs:240-262 | two accepted certificates are signed in common by more than a third of the active validators, and of their power while the total is at most 2^64 |
| `Certificates.CertificatePowerExactly` | crates/consensus/src/hotstuff/vote.rs:240-262 | any two accepted certificates share more than a third of the power, for all validator sets of a total, exactly when the total is positive and at most 2^64; otherwise two accepted certificates for different blocks are built that do not |
| `Certificates.CertificateUnique` | crates/consensus/src/hotstuff/vote.rs:196-262 | while at most a third of the active validators are faulty, accepted certificates of one view and phase certify one block |
| `Governance.GovernanceManager.SubmitProposalWithDeposit` | crates/consensus/src/governance.rs:124-164 | a proposal opens for voting under the next identifier, unless its window is empty or its deposit too small |
| `Governance.GovernanceManager.CastVote` | crates/consensus/src/governance.rs:178-222 | a vote replaces the voter's earlier one in the totals, or why it is refused |
| `Governance.GovernanceManager.TallyProposalBps` | crates/consensus/src/governance.rs:244-292 | the outcome and the time lock follow from the totals |
| `Governance.FoldTotals` | crates/consensus/src/governance.rs:256-259 | the order in which option totals are added does not matter |
| `Governance.CastAccounted` | crates/consensus/src/governance.rs:178-222 | taking the earlier vote back and adding the new one keeps every total equal to the recorded votes |
| `Governance.RunAccounted` | crates/consensus/src/governance.rs:124-292 | over every run each option's total is the sum over the voters whose latest accepted vote is that option |
| `Governance.OutcomeExact` | crates/consensus/src/governance.rs:244-292 | while the turnout times ten thousand fits in 256 bits and the threshold is at most one, the saturating tally decides as exact arithmetic |
| `Governance.OutcomeByLatestVotes` | crates/consensus/src/governance.rs:178-292 | two runs that agree on each voter's latest vote have the same outcome, whatever the order and number of votes |
| `GovernanceLaws.SubmittedExactly` | crates/consensus/src/governance.rs:124-164 | a proposal is accepted exactly with a window that is not empty and a deposit of a billion; it is open over its whole window under an identifier nobody has |
| `GovernanceLaws.AcceptedExactly` | crates/consensus/src/governance.rs:178-222 | a vote is accepted exactly while the proposal is open, and moves nothing but its own record and that proposal's totals |
| `GovernanceLaws.TallyExactly` | crates/consensus/src/governance.rs:244-292 | a tally stores the status it returns, which the recorded votes decide, with an execution height 43200 blocks ahead exactly for a time lock |
| `GovernanceLaws.TalliedRun` | crates/consensus/src/governance.rs:124-292 | a tally at the end of any run stores the status that the latest accepted votes call for |
| `GovernanceLaws.TallyCloses` | crates/consensus/src/governance.rs:178-292 | once a proposal is tallied no vote on it is accepted in any run that follows, and a second tally with the same thresholds agrees |
| `Units.FormatRoundTrip` | bin/cli/src/units.rs:15-116 | parsing a printed amount gives it back, for every 128-bit amount |
| `Units.FormatInjective` | bin/cli/src/units.rs:15-25 | different amounts print differently |
| `Units.ParseDecimal` | bin/cli/src/units.rs:60-116 | a whole part and at most eighteen decimals denote the amount they say |
| `UnitLaws.UnitsRead` | bin/cli/src/units.rs:60-76 | the units SX and SXI, in any letter case and with any white space, leave the same number to read |
| `UnitLaws.NoUnitRead` | bin/cli/src/units.rs:60-115 | a text that does not end in a unit is read as a plain integer or refused |
| `UnitLaws.BlankRefused` | bin/cli/src/units.rs:60-115 | blank input is refused, with or without a unit |
| `UnitLaws.PlainRead` | bin/cli/src/units.rs:105-115 | digits without a unit are an amount of the smallest unit, refused above 128 bits |
| `UnitLaws.WholeRead` | bin/cli/src/units.rs:98-104 | digits before a unit are whole tokens, refused when the amount exceeds 128 bits |
| `UnitLaws.DecimalRead` | bin/cli/src/units.rs:79-97 | a decimal number is read exactly; more than eighteen decimals and amounts above 128 bits are refused, each with its error |
| `UnitLaws.PlusReadsAsZero` | bin/cli/src/units.rs:86-93 | a plus sign after the point is read as the digit zero |
| `Units.SmallAmountsUnreadable` | bin/cli/src/units.rs:29-116 | an amount printed in aSXI is refused by the parser |
| `Units.CompactRoundTripExactly` | bin/cli/src/units.rs:29-116 | parsing the compact form gives the amount rounded down to nine decimals exactly for zero and from a millionth of an SXI on; anything smaller is an error |

## Left out

- Curve arithmetic, pairings, hash functions, signatures and serialization: replaced by the representations above.
- The batching challenge: a parameter; that it is derived by hashing the openings is not modelled.
- Contract calls and deployments, the EVM, multi-version memory, the block pipeline and the settlement of contract transactions.
- Gas for precompiles, calldata, code deposit and account access: they reach the meter through `Consume` as plain charges.
- Alternative gas schedules: the model fixes the mainnet schedule.
- MerkleTree.GenuineBinding: speaks of leaves that are not themselves tree nodes, the padding node or zero; for other leaves see `UniqueRootExactly`.
- BlockPool.RunSound: runs consist of proposals, votes and certificates with storage writes succeeding; calling the public finalization alone, without the pruning that follows it, is not one of them.
- Governance.RunAccounted: identifiers below 2^64 - 1 and option totals below 2^256, where the saturating counters are exact; floating-point thresholds, execution of time-locked proposals and persistence are left out.
- BlockPool.Consensus.ProcessBlockProposal: the view that a node may adopt before it refuses a proposal is not modelled.
- Certificates.CertificatePowerExactly: the cap of 200 active validators is not considered; the totals next above 2^64 already fail with eight validators.
- Aggregated BLS certificates: only the certificates with one signature per validator are modelled.
- Leader election, view timeouts, slashing, staking, upgrades, restart and recovery, persistence and metrics.
- Units.FormatRoundTrip: speaks of what the printer prints; letters outside ASCII whose upper case is an ASCII letter are not recognised as part of a unit by the modelled parser.
- Transfers.Speculation: bumps the nonce as a release build does; a build with overflow checks panics at the last nonce.
