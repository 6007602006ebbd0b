# Verified model of the wallet's money rules

A Dafny model of the rules that decide whether this wallet may move money, and of the durable records it keeps while
doing so, with machine-checked proofs of what those rules promise together. `dafny verify dfyconfig.toml` checks everything.

Each module follows one part of the repository:

- `AssetPolicy`, `RecipientPins`: the sealed owner policy, its validator, the evaluator, and the recipient pin lists.
- `PolicyCompiler`, `PolicyGrouping`, `CompiledRegistry`: the compiler from the owner's admission rows to that policy. Its
  loops are methods specified by folds. `PolicyMeaning`, `PolicyOrder` and `PolicyValidity` prove that it preserves meaning,
  ignores input order, and satisfies its own validator exactly on at most 64 networks; `PolicyLimits` says in plain numbers
  what every sealed policy and every accepted list guarantees.
- `UsageRecord`, `UsageBucket`, `UsageLedger`: the shared usage ledger, as functions on one bucket's rows and as the class
  that stores them. `UsageBucketProofs` proves the daily cap and the life cycle of every row over all runs,
  `LedgerMeaning` when each operation succeeds, what it stores and what it charges, and `OwnerCapBoundary` where the cap
  ends.
- `DirectAdmission`, `DirectGate`, `GaslessRail`: the two rails that admit a transfer, hold its amount, and drive the ledger
  from an operation journal. `DirectAdmissionProofs` and `ApprovalMeaning` follow the direct rail from the owner's words to
  the stored hold and back, `DirectSettlement` says where a follow leaves it for every journal state, and
  `GaslessSettlement` says both for the gasless rail.
- `AsciiMatcher`: the streaming Knuth-Morris-Pratt matcher over provider output.
- `CodeUnitOrder`, `CanonicalJson`, `JsonText`: canonical values and the text behind every digest, as an engine prints it;
  `JsonReader` reads that text back by RFC 8259.
- `LogScan`, `ObserverCursor`: the windowed log scan and the durable cursor around it, with every step and every status
  spelled out in `ScanMeaning` and `ObserverMeaning`.
- `NumberedFiles`, `PolicyStore`, `PolicyDecisions`: the hash-chained store of staged revisions and owner decisions, and every
  interleaving of commands that wait for a human between read and append. `DecisionMeaning` says when each is accepted.
- `AtomicFiles` (with `AtomicDirectory`): record publication by rename or hard link, under crashes, sweeps and repairs;
  `AtomicMeaning` proves that writers publish and that sweeps and repairs finish what a crash left.
- `PublicEffect` (with `PublicEffectRuns`): the evidence that a transfer was signed, or that approval ended before the private
  wallet was opened; `PublicEffectMeaning` says when each step is taken.
- `ChainUsage`, `ChainCharges`: the chain policy's own daily principal cap over an account's operations, and what each step
  of a transfer changes in it.
- `ShellQuoting`, `ChainDecimal`, `ActualFee`, `FeeMeaning`: the printed handoff line, exact decimals, and the fee derived
  from a receipt.

Conventions. A digest is the tuple of what it hashes (hashing is injective). Instants are integer milliseconds, a UTC day is
their quotient by 86,400,000, and atomic amounts are naturals bounded where the code bounds them. One section under a lock is
one atomic step; a killed process is one that takes no further step. Address codecs and the swap route validator are
arbitrary functions (`AssetPolicy.Codec`), and so are the asset resolver (`PolicyCompiler.Inventory`), the log provider
(`LogScan.Provider`) and the hash that names staged files. Errors are the codes the code throws, without their texts.

Some promises hold only under a condition. Each condition is stated exactly:

- An accepted admission list is sealed if and only if it names at most 64 networks (`PolicyValidity.CompiledIsValid`), so
  every list over an inventory seals if and only if the inventory has at most 64 networks
  (`PolicyValidity.EveryListSealsIffFewNetworks`). The shipped program meets this: its pinned dataset has 13 networks
  (src/allowlist-inventory.ts:102), and MegaETH is the one network added beside it.
- A reachable policy store can be read if and only if no file number has outgrown its eight digits: whatever list is staged
  over and over, the 100,000,000th revision makes the profile unreadable (`PolicyDecisions.ReachableStatesLoad`,
  `PolicyDecisions.HundredMillionRevisionsDoNotLoad`).
- Typed decimals survive parsing and display if and only if the asset has at least one decimal
  (`ChainDecimal.TypedTextRoundTrips`).
- The chain policy's own daily cap is checked for the clock's day only. No order and no clock readings of the remaining
  completions pass the limit if and only if the worst case of every day fits it (`ChainUsage.NeverPassesIffSafe`); storing
  one more transfer keeps that if and only if it also fits the other days it could complete on
  (`ChainUsage.PreparationIsSafeIff`), which a clock that does not run backwards always gives
  (`ChainUsage.ForwardClockIsSafe`). With the clock set back for one preparation, twice the limit completes on one day
  (`ChainUsage.BackwardClockPassesTheLimit`).
- The shared ledger's daily cap holds over every run without an owner-cap payment, under any clock, and over no larger
  class: one such payment of one unit passes any limit, even one that a policy reserve has just filled
  (`OwnerCapBoundary.OwnerCapIsTheBoundary`, `OwnerCapBoundary.FilledAndPassed`).
- The observer's cursor moves past a log it was looking for if and only if a pass drops its only candidate because the
  inspection of it returned null (`ObserverCursor.PassSkipsIff`, `ObserverCursor.RunSkipsIff`).

## Model

| member | source | states |
|---|---|---|
| UsageBucketProofs.DailySpendWithinCap | src/asset-usage-ledger.ts:89-150 | over every run of ledger commands and every clock sequence, what takes effect on one UTC day plus every hold still open by then is at most the largest daily cap checked plus what was charged without a check |
| UsageBucketProofs.DailySpendWithinOwnerLimit | src/asset-policy-registry.ts:186-189 | if every registry presented allows at most a bound a day, no day's spend exceeds that bound, backdated finalizations included |
| OwnerCapBoundary.OwnerCapIsTheBoundary | src/asset-usage-ledger.ts:58-81 | for every limit, no run without an owner-cap command passes it on any day, and some run with exactly one such command does |
| OwnerCapBoundary.FilledAndPassed | src/asset-usage-ledger.ts:58-150 | a policy reserve fills any limit to the last unit with every check passed, and one owner-cap payment of one unit then passes it |
| UsageBucketProofs.StepExposure | src/asset-usage-ledger.ts:177-241 | one command raises no day's exposure beyond what it was or the cap it checked, wherever the proven instant is clamped |
| UsageBucketProofs.ApplyShape | src/asset-usage-ledger.ts:89-241 | every completed command writes nothing, rewrites one row lawfully, or creates one row under the key it addresses |
| UsageBucketProofs.ShapeKeepsBucket | src/asset-usage-ledger-record.ts:44-84 | each command keeps every row valid and alone under its identity and key |
| UsageBucketProofs.OtherRowsUntouched | src/asset-usage-ledger-record.ts:94-96 | a command leaves the row under every other key exactly as it was |
| UsageBucketProofs.SinkRowsNeverChange | src/asset-usage-ledger-record.ts:138-149 | finalized, confirmed-revert and released rows never change again, in any run |
| UsageBucketProofs.FailedRowLeavesOnlyByReopen | src/asset-usage-ledger.ts:104-123 | a failed-before-effect row leaves only by an explicit retry of its own key that fits the day's limit again |
| UsageBucketProofs.ReplayWritesNothing | src/asset-usage-ledger-record.ts:122-132 | a replayed reserve answers with the stored row and changes nothing |
| UsageBucketProofs.CancelledKeyStaysUncharged | src/asset-usage-ledger.ts:283-316 | after a cancellation, whatever runs next, that key's row stays released and charges no day |
| UsageBucketProofs.TransitionNeverCorrupt | src/asset-usage-ledger.ts:219-240 | a transition of a sound bucket never builds a record that fails its own integrity check |
| UsageRecord.BucketStamp | src/asset-usage-ledger-record.ts:134-136 | a write is stamped no earlier than the clock and than every stored write |
| UsageRecord.ClampEffect | src/asset-usage-ledger.ts:219-221 | a stored effect time is the instant nearest to the proven one within the span from the hold's last write to this one, and this write's when none is proven |
| UsageRecord.SumUsage | src/asset-usage-ledger-record.ts:107-120 | the loop computes the day's usage, and refuses exactly when the total overflows |
| UsageRecord.UsageAntitoneInDay | src/asset-usage-ledger-record.ts:107-120 | usage never grows as the day of the clock grows |
| UsageRecord.UsageWithoutRow | src/asset-usage-ledger-record.ts:107-120 | removing a row lowers a day's usage by exactly that row's charge |
| UsageRecord.HoldWithinUsage | src/asset-usage-ledger-record.ts:107-120 | an open hold's whole amount is part of every day's usage |
| UsageLedger.AssetUsageLedger.Reserve | src/asset-usage-ledger.ts:89-150 | the stored buckets change exactly as the reserve function says, in one bucket only |
| UsageLedger.AssetUsageLedger.Transition | src/asset-usage-ledger.ts:177-241 | the stored buckets change exactly as the transition function says, in one bucket only; what it says is LedgerMeaning.TransitionStores |
| UsageLedger.AssetUsageLedger.ReserveWithinOwnerCap | src/asset-usage-ledger.ts:58-81 | the owner-cap hold is stored exactly as its function says |
| UsageLedger.AssetUsageLedger.ReleaseDirectReservedAfter | src/asset-usage-ledger.ts:154-175 | only the exact expected hold is released, under its bucket lock |
| UsageLedger.AssetUsageLedger.CancelUnsubmittedReservation | src/asset-usage-ledger.ts:283-316 | a hold is released or a tombstone stored, exactly as its function says |
| UsageLedger.AssetUsageLedger.SettleMerchantNativeActualFee | src/asset-usage-ledger.ts:244-260 | a proven fee replaces the held one, exactly as its function says |
| UsageLedger.AssetUsageLedger.UsageWithReservation | src/asset-usage-ledger.ts:343-362 | one read returns the day's usage and the reservation it contains |
| LedgerMeaning.TransitionAnswers | src/asset-usage-ledger.ts:177-218 | a transition succeeds exactly when it names a stored row with its own policy, in an expected state, with the proofs its target needs, and follows an edge of the life cycle or repeats what is stored |
| LedgerMeaning.TransitionStores | src/asset-usage-ledger.ts:219-240 | the row then holds the state, outcome and consumption asked for, and a finalization the instant from the hold's last write to this one that is nearest to the proven one; every other row stays |
| LedgerMeaning.TransitionCharges | src/asset-usage-ledger.ts:177-241 | the hold's amount is freed on every day and what is proven is charged instead: all of it on the effect's day, the consumption of a revert, all of it still while open, nothing after a release |
| LedgerMeaning.ProvenDayIsCharged | src/asset-usage-ledger.ts:219-233 | a finalization with an instant proven since the last write spends the whole amount on that instant's own day and nothing on any other, however late it is recorded |
| LedgerMeaning.ReserveReaches | src/asset-usage-ledger.ts:89-103 | a reserve reaches its bucket exactly when its key is well formed and in nobody else's namespace, the policy admits it on an unused day and the account is one of the network's |
| LedgerMeaning.ReserveAnswers | src/asset-usage-ledger.ts:104-150 | it then succeeds exactly when the key's row, if any, has the same terms and, where it adds a charge, usage and amount fit the owner's daily limit; an explicit retry of a failed row is such a charge |
| LedgerMeaning.ReserveStores | src/asset-usage-ledger.ts:104-150 | a new or retried key leaves a fresh open hold on the policy's terms, any other key its row as it was |
| LedgerMeaning.ReserveCharges | src/asset-usage-ledger.ts:104-150 | a reserve that adds a charge raises every day's usage by exactly its amount |
| LedgerMeaning.OwnerCapAnswers | src/asset-usage-ledger.ts:58-81 | an owner-cap hold is taken exactly for a positive x402 amount within its request's own maximum, under a well-formed key that is new or holds the same terms |
| LedgerMeaning.OwnerCapCharges | src/asset-usage-ledger.ts:58-81 | it charges its amount on every day, once per key |
| LedgerMeaning.ReleaseMeaning | src/asset-usage-ledger.ts:154-175 | a release succeeds exactly for an unchanged direct hold still reserved, and gives every day its amount back |
| LedgerMeaning.CancelAnswers | src/asset-usage-ledger.ts:283-316 | a cancellation succeeds exactly for a new key or a hold of the same terms that is still reserved or was cancelled with the same proof |
| LedgerMeaning.CancelMeaning | src/asset-usage-ledger.ts:283-316 | it leaves a released row with the proof under its key, a tombstone where there was none, and frees exactly what was held |
| LedgerMeaning.SettleAnswers | src/asset-usage-ledger.ts:244-260 | a proven merchant fee settles exactly the submitted or uncertain x402 hold of the fee reserved, or repeats its own settlement |
| LedgerMeaning.SettleMeaning | src/asset-usage-ledger.ts:244-260 | it spends the fee paid, and only that, on the day it is recorded, and frees the rest |
| LedgerMeaning.StoredRow | src/asset-usage-ledger-record.ts:44-84 | every stored row has a positive amount, an outcome exactly once closed, an instant of effect within its life exactly once something is spent, and a consumption only of a revert or a proven fee, never above what was held |
| LedgerMeaning.CommandMeaning | src/asset-usage-ledger.ts:58-316 | in a run a command does in its own bucket what its operation does there, and nothing in any other |
| LedgerMeaning.PermitLeaseMeaning | src/asset-usage-ledger.ts:283-291 | only a Permit2 production lease may be cancelled: the namespace and 64 lower-case hexadecimal digits, for an x402 payment of an EVM token by its address |
| AssetPolicy.EvaluateBounds | src/asset-policy-registry.ts:153-205 | an admission fits the per-transfer cap, and usage plus amount plus the remainder is the daily limit |
| AssetPolicy.EvaluateDailyWithin | src/asset-policy-registry.ts:186-189 | the daily limit of an admission is one written in the evaluated registry |
| AssetPolicy.EvaluateAntitoneInUsage | src/asset-policy-registry.ts:186-189 | the same request with less already used is never refused |
| PolicyMeaning.EvaluateMeaning | src/allowlist-policy-v2.ts:96-150 | the evaluator on the compiled registry admits a request exactly when the policy is in force and some owner row names the request and fits it, its bridge alternative's own cap included |
| PolicyMeaning.NamedVerdict | src/asset-policy-registry.ts:153-205 | a request naming an owner row is judged on exactly that row, with its daily limit |
| PolicyMeaning.RecipientMeaning | src/allowlist-recipient-pins.ts:83-104 | on an admitted request the recipient check agrees with the pins the owner wrote for that row or alternative |
| PolicyMeaning.CompiledSaysOwnerRow | src/allowlist-policy-v2.ts:96-150 | the sealed policy has each owner row's asset under the inventory's names, and says of its rail exactly the caps, mechanism, alternatives and recipients the owner wrote |
| PolicyMeaning.CompiledSaysNoMore | src/allowlist-policy-v2.ts:103-120 | of a rail no owner row names for an asset it says nothing |
| PolicyOrder.CompileIgnoresOrder | src/allowlist-policy-v2.ts:103-149 | any permutation of accepted admissions is accepted and compiles to the same body, hence the same digest |
| PolicyOrder.AcceptedPermuted | src/allowlist-policy-v2.ts:182-216 | acceptance does not depend on the order of the admissions |
| PolicyValidity.CompiledIsValid | src/asset-policy-registry.ts:221-338 | an accepted list compiles to a registry its validator accepts exactly when it names at most 64 networks |
| PolicyValidity.EveryListSealsIffFewNetworks | src/asset-policy-registry.ts:221-246 | over any sound inventory, every list the owner may write seals if and only if the inventory has at most 64 networks |
| PolicyValidity.NetworkListSeals | src/allowlist-policy-v2.ts:96-150 | a list naming up to 256 distinct networks is accepted whatever its length, and refused at sealing exactly beyond 64 |
| PolicyValidity.SixtyFiveNetworksAreRefused | src/asset-policy-registry.ts:14 | under every codec that takes eip155:10 to eip155:99 for canonical, the list of the first n of them is accepted, and refused at sealing exactly from 65 on |
| PolicyValidity.RowIsValid | src/asset-policy-registry.ts:271-338 | every compiled row is valid: identity, one cap per admitted rail, alternatives within the rail cap, swap pin exactly with the swap rail, pins only on admitted rails |
| PolicyLimits.SealedShape | src/asset-policy-registry.ts:221-246 | every sealed policy has 1 to 64 networks of different names with 1 to 256 assets each, and a window that ends after it begins |
| PolicyLimits.SealedCaps | src/asset-policy-registry.ts:271-338 | each admitted rail of a sealed row, and no other, has a positive per-transfer cap within its daily cap, and no two rows are for one asset |
| PolicyLimits.SealedMechanisms | src/asset-policy-registry.ts:271-338 | a swap is pinned or has 2 to 16 alternatives, a bridge 2 to 16 or none, each within its cap; a gasless recipient is one address on Ethereum or Base, and Coinbase's mechanism is only on Base and always has one |
| PolicyLimits.AcceptedRowMeaning | src/allowlist-policy-overlay.ts:222-340 | what the owner may write in one row, exactly: a positive amount within the daily cap by one way of transfer, or 2 to 16 different alternatives for swaps and bridges, with the recipients each rail allows |
| PolicyLimits.AcceptedListMeaning | src/allowlist-policy-v2.ts:182-216 | an accepted list has 1 to 256 rows for known assets, no two for one asset on one rail, and every swap on its own network |
| PolicyLimits.AcceptedAccounts | src/allowlist-policy-v2.ts:182-216 | an accepted list names one valid owner account for exactly the families its assets are of |
| PolicyCompiler.OverlayInput | src/allowlist-policy-v2.ts:182-216 | the input check accepts exactly lists of acceptable, resolved, single rows with the accounts of the families used |
| PolicyCompiler.MergeRows | src/allowlist-policy-v2.ts:103-120 | the first compiler loop computes the fold of merges |
| PolicyCompiler.MergedAllIsMerged | src/allowlist-policy-v2.ts:103-120 | however rows interleave, each asset's merged row holds exactly what was said about that asset, once |
| PolicyGrouping.GroupRows | src/allowlist-policy-v2.ts:121-136 | the second compiler loop computes the fold of groupings |
| PolicyGrouping.GroupAllIsGrouped | src/allowlist-policy-v2.ts:121-136 | every merged row lands once, in the chain of its own network |
| PolicyGrouping.Compile | src/allowlist-policy-v2.ts:96-150 | check, merge, group, sort and seal, as one method |
| CompiledRegistry.CompiledChainsAreCompiled | src/allowlist-policy-v2.ts:137-149 | the compiled chains are sorted, hold only rows the owner's words determine, and cover every asset named |
| CodeUnitOrder.SortAscends | src/allowlist-policy-v2.ts:218 | sorting by code units puts distinct keys in ascending order |
| CodeUnitOrder.AscendingUnique | src/allowlist-policy-v2.ts:144-148 | an ascending sequence is determined by its entries alone |
| DirectAdmissionProofs.FirstHoldIsTheOwnersWord | src/direct-allowlist-gate.ts:81-92 | end to end: a first approval under a compiled policy holds exactly an amount that some owner row admits for that asset today, to a recipient that row lists |
| DirectAdmissionProofs.ApprovalIsReplayed | src/direct-allowlist-gate.ts:77-92 | an approval repeated at any clock reading, after any run of commands under other keys, answers with the same hold and writes nothing |
| DirectAdmissionProofs.ReplayAnswersIff | src/direct-allowlist-gate.ts:77-92 | it answers exactly when the policy would still admit the amount on an unused day; the day's usage is not asked again |
| DirectAdmissionProofs.AdmittedIsApproved | src/direct-allowlist-gate.ts:68-92 | what preparation admits, an approval at the same instant on the same ledger holds |
| DirectAdmissionProofs.GuardsAddNoRule | src/direct-allowlist-gate.ts:189-219 | the gate's own guards admit exactly what the shared evaluator and the pins admit, for an asset spelled as the policy spells it |
| ApprovalMeaning.GateMeaning | src/direct-allowlist-gate.ts:189-219 | under a compiled policy the gate admits exactly what is in force and allowed by an owner row that names the asset as spelled, fits the amount and lists the recipient |
| ApprovalMeaning.AdmitMeaning | src/direct-allowlist-gate.ts:68-79 | preparation admits exactly that, for a pinned asset and the active policy's own account, and freezes that policy |
| ApprovalMeaning.FirstApprovalMeaning | src/direct-allowlist-gate.ts:81-104 | a first approval is held exactly when the frozen policy is still active, key and account are well formed and an owner row allows it beside everything charged today |
| ApprovalMeaning.UsedHoldIsRefused | src/direct-allowlist-gate.ts:81-92 | a hold that is no longer reserved is never approved again |
| ApprovalMeaning.HeldUnderItsKey | src/direct-allowlist-gate.ts:57-92 | what is held is the exact amount on the direct rail under the operation's own key, in its account's bucket, under the active policy |
| DirectGate.DirectAllowlistGate.Reserve | src/direct-allowlist-gate.ts:81-92 | the stored ledger after an approval is exactly what the approval function says |
| DirectGate.JournalAndLedgerAgree | src/evm-direct-allowlist.ts:69-83 | after any run, crashes between writes included, the next follow is legal and a hold is uncharged only when the journal proves the principal unspent |
| DirectGate.FollowNeverIllegal | src/direct-allowlist-gate.ts:106-130 | follow plans only legal ledger moves, and a crash between its writes leaves a consistent pair |
| DirectGate.FollowCatchesUp | src/direct-allowlist-gate.ts:106-130 | a completed follow brings the hold to the journal's target, which DirectSettlement.FollowSettles spells out |
| DirectGate.FollowTwiceIsFollowOnce | src/direct-allowlist-gate.ts:113 | repeating follow writes nothing more |
| DirectGate.RunKeepsConsistent | src/evm-direct.ts:135-152 | every run of the transition table, follows and foreign ledger commands keeps journal and hold consistent |
| DirectGate.DirectAllowlistGate.Follow | src/direct-allowlist-gate.ts:106-130 | the ledger after a call holds exactly the planned writes that succeeded |
| DirectSettlement.FollowedOperationIsCharged | src/evm-direct-allowlist.ts:69-83 | after any run and a completed follow the row is settled as the journal state says, from completed finalized to failed before effect; it is uncharged exactly when the journal proves the principal unspent, and a completed one spent it in full |
| DirectSettlement.FollowSettles | src/direct-allowlist-gate.ts:106-130 | journal state by journal state, where a completed follow leaves the row of a consistent pair |
| DirectSettlement.JournalPredecessors | src/evm-direct.ts:135-152 | the journal's transition table, read backwards |
| DirectSettlement.PlanAnswers | src/direct-allowlist-gate.ts:106-130 | journal state by journal state, the ledger states a follow refuses as contradicting it |
| DirectSettlement.EventMeaning | src/evm-direct.ts:135-152 | in a run a hold is asked for only before approval ends, the journal moves along its table and starts only with a hold, and a follow does its planned writes as far as it gets |
| GaslessRail.RecheckAfterReserve | src/coinbase-gasless-policy.ts:82-104 | re-checking after its own reserve gives the verdict given before it, on the hold's own day, and refuses on any other day |
| GaslessRail.OwnHoldCancelsOut | src/coinbase-gasless-policy.ts:88-91 | usage minus the own hold is exactly the usage without it, on every day |
| GaslessRail.ReconcileKeepsUncertainCharged | src/coinbase-gasless-policy.ts:107-126 | reconcile never meets an illegal move and keeps uncertain effects charged in full on every day |
| GaslessRail.CoinbaseGaslessPolicy.Reserve | src/coinbase-gasless-policy.ts:96-104 | check, reserve and check again on the stored ledger: the answer and the one bucket written are what the function says, and no other bucket changes |
| GaslessRail.ReserveLeaves | src/coinbase-gasless-policy.ts:82-104 | a refusal by the first check writes nothing; otherwise the operation's bucket keeps its rows or gains its one open hold, which stays when the last check refuses, and that check repeats the first one's question on the hold's own day |
| GaslessRail.CoinbaseGaslessPolicy.Reconcile | src/coinbase-gasless-policy.ts:107-126 | the stored ledger moves exactly as the reconcile function says, which GaslessSettlement spells out |
| GaslessSettlement.ReconcileAnswers | src/coinbase-gasless-policy.ts:106-126 | reconcile is refused exactly when the journal names a lease that is not held, the lease is not the operation's, or their states contradict, pair by pair |
| GaslessSettlement.ReconcileLeaves | src/coinbase-gasless-policy.ts:106-126 | it leaves a completed operation's lease finalized, a failed one's given back, an uncertain one charged, with the journal's evidence, and every other row as it was |
| GaslessSettlement.ReconcileCharges | src/coinbase-gasless-policy.ts:106-126 | a completed operation's whole amount is spent on the day it is recorded, a failed one's is given back to every day, and nothing else changes any day |
| GaslessSettlement.OnlyFailureFrees | src/coinbase-gasless-policy.ts:106-126 | a reconcile turns a charged lease uncharged if and only if the operation failed before effect |
| GaslessSettlement.AdmitMeaning | src/coinbase-gasless-policy.ts:53-71 | the policy admits the transfer exactly when it is the account's own, in force, and an owner row fits it and is pinned to this mechanism and recipient |
| GaslessSettlement.FirstCheckMeaning | src/coinbase-gasless-policy.ts:82-94 | without a hold the check passes exactly when the frozen policy is active and admits the transfer beside everything charged today |
| GaslessSettlement.HeldCheckMeaning | src/coinbase-gasless-policy.ts:82-94 | with its own hold it passes exactly when that hold is untouched and of today and the policy admits the transfer beside everything else |
| GaslessSettlement.ReserveAroundAnswers | src/coinbase-gasless-policy.ts:96-104 | a first reserve succeeds exactly when key and account are well formed, the policy admits the transfer at each of the three clock readings, and the hold is stamped on the last one's day |
| AsciiMatcher.BuildPrefixTable | src/awal-process-adapter.ts:284-292 | entry i is the longest proper border of the first i + 1 bytes |
| AsciiMatcher.ScanStream | src/awal-process-adapter.ts:268-282 | however the output is split into chunks, found holds exactly when the pattern has no capital and some stretch of their concatenation equals it byte for byte, or is its capital wherever it has a small letter |
| AsciiMatcher.FoldingLetters | src/awal-process-adapter.ts:271 | folding sends each of A to Z to its own small letter and leaves every other byte |
| AsciiMatcher.FoldedOccurrence | src/awal-process-adapter.ts:268-282 | a pattern without capitals occurs in the folded text exactly where a stretch of the text reads as it, byte for byte or with capitals for small letters |
| AsciiMatcher.FallBack | src/awal-process-adapter.ts:272-274 | falling back along the table skips no longer candidate match |
| JsonText.CanonicalJsonInjective | src/canonical.ts:6-26 | two values serialise alike exactly when they are equal after dropping undefined members and ignoring member order, with members printed as an engine enumerates them |
| JsonText.CanonicalTextInInjective | src/canonical.ts:6-26 | the same for every order in which an engine may enumerate an object's members |
| CanonicalJson.CanonicalIdempotent | src/canonical.ts:10-26 | canonicalising a canonical value changes nothing |
| JsonText.EmitInjective | src/canonical.ts:6-8 | the text of a value determines the value and where it ends |
| JsonText.StringReadsBack | src/canonical.ts:6-8 | a string, read by section 7 of RFC 8259 from its opening quote, gives back its text and ends at its closing quote: no raw quote, backslash or control unit is emitted |
| JsonText.CanonicalTextIsPaired | src/canonical.ts:28-30 | the text that is hashed is well-formed UTF-16, so its UTF-8 encoding loses nothing |
| JsonReader.ReadsBack | src/canonical.ts:6-8 | whatever is printed, followed by the end, a comma or a closing bracket, is read back as it was by the grammar of RFC 8259 |
| JsonReader.CanonicalTextReadsBack | src/canonical.ts:6-26 | a value serialises exactly when its numbers are safe integers and no list item is undefined; the text reads back, whole, as the same value without its undefined members |
| JsonReader.IndexMeaning | src/canonical.ts:10-26 | the names an engine enumerates first are exactly the numerals of 0 to 2^32 - 2 |
| JsonReader.NamesAscend | src/canonical.ts:10-26 | the other names of a canonical object are printed in ascending code-unit order |
| JsonReader.EscapeTable | src/canonical.ts:6-8 | which of the possible escapes is printed for a unit on its own: the seven short ones, four lower-case hexadecimal digits for other control units and lone surrogates, and nothing else |
| CanonicalJson.ToCanonical | src/canonical.ts:10-26 | the recursive method with its key loop computes the canonical value |
| LogScan.ScanRange | src/coinbase-gasless-observer.ts:152-175 | at most 24 queries, and the result is exactly what the committed windows hold |
| LogScan.Scan | src/coinbase-gasless-observer.ts:239-269 | the candidates of one answer, refused unless every row matches the filter asked |
| LogScan.CommittedTiles | src/coinbase-gasless-observer.ts:156-172 | committed windows tile a range from the start with no gap or overlap, at most 2,000 blocks each, all queries answered |
| LogScan.TilesFindAll | src/coinbase-gasless-observer.ts:168-172 | against an honest provider the returned sets are exactly the chain's matches in the tiled range |
| LogScan.QuietReach | src/coinbase-gasless-observer.ts:24-31 | an undisturbed pass spends its remaining queries on full windows |
| LogScan.UndisturbedPassReach | src/coinbase-gasless-observer.ts:24-31 | a pass whose queries are all answered and find nothing ends twelve full windows on with a locator, 24 without, or at the safe head |
| LogScan.PassAlwaysProgresses | src/coinbase-gasless-observer.ts:162-167 | range refusals alone never exhaust the budget: halving always reaches a window that is read |
| ScanMeaning.ReadMeaning | src/coinbase-gasless-observer.ts:239-269 | a query is read exactly when every row it answers matches the contract, topics and range asked; a transfer counts only with the exact amount |
| ScanMeaning.PassIsTraced | src/coinbase-gasless-observer.ts:152-175 | a pass is the run of steps from 2,000 blocks and 24 queries: past a quiet window at the same width, to half the width over a range refusal, ending only where no step leads on; it keeps exactly the windows read |
| ScanMeaning.OutcomeMeaning | src/coinbase-gasless-observer.ts:168-174 | a transaction is scanned exactly when some window read holds it, and the scan ends where the last window does |
| ObserverCursor.CursorNeverSkipsUnreadBlock | src/coinbase-gasless-observer.ts:105-141 | over every run of passes the cursor only grows and never passes a block no window read |
| ObserverCursor.NothingSkipped | src/coinbase-gasless-observer.ts:109-141 | over candidate-free passes against honest providers nothing sought lies behind the cursor |
| ObserverCursor.PassSkipsIff | src/coinbase-gasless-observer.ts:109-141 | one pass against an honest provider moves past a sought log exactly when its only candidate comes from the scan, the inspection of it returns null, and the end block is the safe one or reads |
| ObserverCursor.RunSkipsIff | src/coinbase-gasless-observer.ts:105-141 | over every run of passes, sought logs lie behind the cursor exactly when some pass dropped its only candidate in that way |
| ObserverCursor.NullInspectionSkipsItsBlock | src/coinbase-gasless-observer.ts:131-141 | a concrete honest pass does so |
| ObserverCursor.ConclusionMeaning | src/coinbase-gasless-observer.ts:117-141 | several candidates are never settled, and a settlement or an advance inspected the only one or found none |
| ObserverMeaning.ObserveMeaning | src/coinbase-gasless-observer.ts:105-148 | each status, if and only if over what the pass read: settled, ambiguous, pending, not found, unresolved; and the cursor moves past the scan exactly on not found |
| ObserverMeaning.ConcludedMeaning | src/coinbase-gasless-observer.ts:117-141 | the same for what is concluded from one scan, by how many transactions there are to explain and what inspecting the only one shows |
| ObserverCursor.PassAdvances | src/coinbase-gasless-observer.ts:138-141 | a pass moves the cursor only past a range it read in full, up to the safe head |
| NumberedFiles.ReadNumbered | src/allowlist-policy-store.ts:167-179 | a directory reads exactly when every file is sound and the numbers are 1 to n |
| PolicyStore.AllowlistPolicyStore.Load | src/allowlist-policy-store.ts:166-201 | a read returns the stored state exactly when it passes every check |
| PolicyStore.AllowlistPolicyStore.StageRevision | src/allowlist-policy-store.ts:136-164 | a revision is appended or the store is unchanged, as the locked section says |
| PolicyStore.AllowlistPolicyStore.AppendDecision | src/allowlist-policy-store.ts:116-134 | an entry is appended only on the expected head, or the store is unchanged |
| PolicyStore.AllowlistPolicyStore.ReadScreen | src/allowlist-policy-command.ts:69-83 | what the human is shown is read and checked as the function says, on the store as it is |
| PolicyStore.AllowlistPolicyStore.Decide | src/allowlist-policy-command.ts:84-91 | after the approval, the decision is appended against the head its screen showed |
| PolicyDecisions.ReachableStatesLoad | src/allowlist-policy-store.ts:166-201 | every state reachable by interleaved commands is readable exactly while file numbers fit eight digits |
| PolicyDecisions.HundredMillionRevisionsDoNotLoad | src/allowlist-policy-store.ts:255-260 | for every acceptable list, staged again and again under version texts of at most 10 characters, the profile is readable exactly after up to 99,999,999 stagings |
| PolicyDecisions.DecisionLandsOnItsScreen | src/allowlist-policy-command.ts:84-91 | whatever ran in between, an approval succeeds only if the whole chain is still the one its screen showed |
| PolicyDecisions.DecisionsAlternate | src/allowlist-policy-command.ts:72-80 | an entry is a revocation exactly when the entry before it activates the same revision |
| PolicyDecisions.AccountsNeverChange | src/allowlist-policy-store.ts:148-155 | a family's account is the same in all revisions that name it |
| PolicyDecisions.RunsOnlyAppend | src/allowlist-policy-store.ts:130-162 | a longer run extends the records and decisions of each of its prefixes |
| PolicyDecisions.HeadPinsEveryDecision | src/allowlist-policy-store.ts:192-199 | two readable stores with the same head digest hold the same decisions |
| PolicyDecisions.ActiveIsHead | src/allowlist-active-policy.ts:64-72 | the active policy is the registry the head entry activates |
| PolicyDecisions.StatusAgreesWithRails | src/allowlist-policy-command.ts:98-113 | the status word, the policy a rail loads and the evaluator's window agree at every instant |
| DecisionMeaning.LoadsMeaning | src/allowlist-policy-store.ts:166-248 | a store reads exactly when both lists are numbered from 1 to at most 99,999,999, every record carries its own digest and its list's window, and every decision follows the one before it and names a staged revision by its digests |
| DecisionMeaning.ShowMeaning | src/allowlist-policy-command.ts:60-83 | a screen is shown exactly to activate a staged revision that is not in effect and not past its end, or to revoke the one in effect; an expired one is refused |
| DecisionMeaning.StageMeaning | src/allowlist-policy-store.ts:136-164 | a revision is staged exactly when its list compiles, the caller names the latest revision, no account changes and the version is new |
| DecisionMeaning.AppendMeaning | src/allowlist-policy-store.ts:116-134 | a decision is appended exactly on the head the caller names, when it names a staged revision and carries its registry only to activate it |
| DecisionMeaning.ApproveMeaning | src/allowlist-policy-command.ts:84-91 | an approval is recorded exactly when the store still reads and no decision was made since its screen |
| DecisionMeaning.DecisionTakesEffect | src/allowlist-active-policy.ts:64-72 | an approved activation puts its revision in effect, an approved revocation none |
| DecisionMeaning.StatusMeaning | src/allowlist-policy-command.ts:98-113 | each status word, if and only if over the last decision and the clock, and what a rail then loads |
| AtomicFiles.OnlyPublicationChangesATarget | src/atomic-write-temporaries.ts:6-17 | under every interleaving, a target's bytes change only by a writer's own publication, to that writer's complete bytes |
| AtomicFiles.CreateOnlyTargetsNeverChange | src/atomic-write-temporaries.ts:42-47 | a target written create-only never changes once it exists |
| AtomicFiles.PromptWriterPublishes | src/atomic-write-temporaries.ts:13-17 | under any clock readings a writer is never undone by a sweep or a repair, unless since it opened its stage the clock once read ten minutes more than before |
| AtomicFiles.RepairLeavesOneLink | src/atomic-write-temporaries.ts:48-73 | a successful repair leaves the file it saw with one link and unchanged complete bytes |
| AtomicDirectory.Directory.WithoutAtomicTemporaries | src/atomic-write-temporaries.ts:28-40 | records only are listed, and exactly the listed stages that are single-link regular files of this user, ten minutes old, are unlinked |
| AtomicDirectory.Directory.ReleasePublishedTemporary | src/atomic-write-temporaries.ts:48-73 | exactly the stages of the file and target first seen with two links are unlinked; true means one was, or that another process already had, and then the target has one link |
| AtomicMeaning.ReplacingWriterPublishes | src/atomic-write-temporaries.ts:6-11 | a replacing writer that is not interrupted publishes its whole bytes by one rename and leaves no stage |
| AtomicMeaning.CreatingWriterPublishes | src/atomic-write-temporaries.ts:42-47 | a create-only writer publishes its whole bytes by one link where the target is free, keeps what is there where it is not, and leaves no stage |
| AtomicMeaning.SweepMarks | src/atomic-write-temporaries.ts:28-40 | a sweep marks a staged name exactly when it is its file's only link and the clock reads at least ten minutes more than at its last write |
| AtomicMeaning.InterruptedStageIsSwept | src/atomic-write-temporaries.ts:28-40 | what a writer killed before publishing left is gone after ten minutes and a sweep, and nothing else changes |
| AtomicMeaning.InterruptedLinkIsRepaired | src/atomic-write-temporaries.ts:42-73 | what a writer killed between link and unlink left is repaired to one link with unchanged complete bytes |
| AtomicMeaning.AbandonedMeaning | src/atomic-write-temporaries.ts:28-40 | a listing unlinks exactly the staged names that are the only link of a regular file of this user last written ten minutes ago or earlier |
| PublicEffectRuns.AcceptedIsForever | src/direct-public-effect.ts:111-151 | after an accepted outcome no later state has a published effect, and publish and effect refuse for ever |
| PublicEffectRuns.PublishedIsForever | src/direct-public-effect.ts:171-194 | after a published effect no outcome is ever accepted |
| PublicEffectRuns.AcceptedMeansNeverEntered | src/direct-public-effect.ts:76-110 | an accepted outcome was recorded by the process that began the attempt, and the private wallet was never entered |
| PublicEffectRuns.RefusalIsAccepted | src/direct-public-effect.ts:94-110 | a refused approval of an unchanged attempt is recorded and accepted |
| PublicEffect.PublishedReadsBack | src/direct-public-effect.ts:171-193 | what was published is what is read back, and no outcome is accepted beside it |
| PublicEffect.DirectPublicEffectJournal.BeginAttempt | src/direct-public-effect.ts:76-92 | an operation has one attempt, and only its journal keeps the key |
| PublicEffect.DirectPublicEffectJournal.RecordOutcome | src/direct-public-effect.ts:94-110 | only the beginning journal can record an outcome, once, and success means it is accepted |
| PublicEffect.DirectPublicEffectJournal.PublishEffect | src/direct-public-effect.ts:171-179 | the signed record is created exactly when no outcome exists and everything binds |
| PublicEffectMeaning.RecordMeaning | src/direct-public-effect.ts:94-110 | an outcome is recorded exactly over an untouched attempt without one, and changes nothing else |
| PublicEffectMeaning.AcceptMeaning | src/direct-public-effect.ts:111-135 | an outcome is accepted exactly when its attempt is untouched and it is signed with that attempt's key |
| PublicEffectMeaning.PublishMeaning | src/direct-public-effect.ts:171-179 | an effect is published exactly when neither an outcome nor an effect is there and operation, claim, payload and attestation bind |
| PublicEffectMeaning.EffectMeaning | src/direct-public-effect.ts:180-193 | it is read back exactly when there is no outcome, everything still binds and the operation has saved no other transaction |
| PublicEffectMeaning.ReadsBackAsItGoesOn | src/direct-public-effect.ts:180-193 | under every later record of the operation the effect reads back exactly when that record saved this transaction or none |
| PublicEffectMeaning.ApprovalPublishes | src/direct-public-effect.ts:76-179 | a fresh approved operation ends with its effect published and readable |
| ChainUsage.Usage | src/chain-policy.ts:82-98 | the loop's two accumulators are the principal and the native fees charged on the clock's day |
| ChainUsage.RecheckBeforeSigning | src/chain-policy.ts:100-105 | the check before signing, the operation itself set aside, gives the verdict its preparation would give now |
| ChainUsage.NeverPassesIffSafe | src/chain-policy.ts:82-98 | whatever order and clock readings the remaining completions take, no day passes a limit exactly when each day's completions and the open transfers that may still land on it fit it |
| ChainUsage.PreparationIsSafeIff | src/chain-policy.ts:100-105 | storing a checked transfer keeps that exactly when it also fits, on each other day it could complete on, beside what completed there and what may |
| ChainUsage.CompletedWithinDailyLimit | src/chain-policy.ts:100-105 | over every run, under any clock readings, whose stored transfers meet that guard, no day completes more principal than the largest daily limit in force |
| ChainUsage.BackwardClockPassesTheLimit | src/chain-policy.ts:82-105 | a run that stores and finishes two transfers of the whole limit, the clock set back for one preparation, completes twice the limit on one day |
| ChainCharges.PreparedCounts | src/chain-policy.ts:82-90 | a transfer on its way counts its whole amount and the most it may cost on every day |
| ChainCharges.FinishedCounts | src/chain-policy.ts:84-96 | finishing frees both and counts instead, on that day, the amount if it completed and the fee and rent its own account is proven to have paid |
| ChainCharges.SetAside | src/chain-policy.ts:84-85 | the operation set aside counts for nothing in either total |
| ChainCharges.StoredIff | src/chain-policy.ts:100-105 | a transfer is stored exactly when its amount is positive, within the maximum, and fits what the day already counts |
| ShellQuoting.HandoffReadsBack | src/cli-handoff.ts:20-44 | a line is printed exactly for nonempty lists without control characters, and POSIX token rules read back that very list |
| ShellQuoting.HandoffInjective | src/cli-handoff.ts:20-32 | two argument lists print the same line only when they are equal |
| ShellQuoting.PrintedBare | src/cli-handoff.ts:41-44 | an argument is printed as it is exactly when it is a nonempty word of letters, digits and the safe punctuation |
| ChainDecimal.TypedTextRoundTrips | src/chain-policy.ts:49-62 | display of parse is the typed text exactly when the asset has decimals |
| ChainDecimal.ParseOfDisplay | src/chain-policy.ts:49-62 | parse of display is the amount, for every amount from 1 to 2^64 - 1 |
| ChainDecimal.NoDecimalsNeverRoundTrip | src/chain-policy.ts:57-62 | without decimals display never gives back the typed text |
| ChainDecimal.ParseMeaning | src/chain-policy.ts:49-56 | a typed amount is its digits without the dot, times ten for each decimal not typed, and is accepted exactly with at most 20 digits before the point, at most the asset's decimals after it, and from 1 to 2^64 - 1 |
| ChainDecimal.DisplayMeaning | src/chain-policy.ts:57-62 | exactly the canonical numerals up to 2^64 - 1 are displayed |
| ActualFee.ReadReceiptFields | src/evm-direct-actual-fee.ts:14-22 | the loop keeps exactly the fields answered, each at most 66 characters |
| ActualFee.CompleteFeeAddsUp | src/evm-direct-actual-fee.ts:64-99 | a complete total is the sum of its parts, and execution is within gas limit times maximum fee |
| ActualFee.EarlierRuleAgrees | src/evm-direct-actual-fee.ts:56-63 | the two blob rules differ only where the earlier one refused an OP-stack footprint |
| ActualFee.DerivedValidates | src/evm-direct-actual-fee.ts:105-121 | whatever a node answers, the fee derived from the fields kept, under either rule, is accepted as the current reading |
| ActualFee.AcceptedFeesAgree | src/evm-direct-actual-fee.ts:105-121 | two accepted fees over the same inputs read alike, and differ only if one is the earlier rule's refusal of an OP-stack footprint; complete ones are equal |
| ActualFee.ValidateIsIdempotent | src/evm-direct-actual-fee.ts:105-121 | validating a validated fee changes nothing, and a complete fee validates to itself |
| FeeMeaning.FeeMeaning | src/evm-direct-actual-fee.ts:64-99 | under either rule a fee is complete exactly when gas and price are given and within what was signed, no blob is charged, and the other parts are consistent or absent as the model demands; each refusal has exactly its own cause |
| FeeMeaning.QuantityReadsBack | src/evm-direct-actual-fee.ts:70-74 | a quantity of at most 32 bytes written in hexadecimal, in small or capital digits, is read as its value |
| FeeMeaning.QuantityMeaning | src/evm-direct-actual-fee.ts:72 | a field is read exactly when it is 0x and one to 64 hexadecimal digits |
| FeeMeaning.AcceptedIff | src/evm-direct-actual-fee.ts:105-121 | a stored fee is accepted exactly when it names a lower-case transaction hash and short fields and says what they derive now or derived under the earlier rule |

## Left out

- UsageBucketProofs.DailySpendWithinCap: owner-cap payments are counted separately, because that path checks no daily limit.
- DirectGate.JournalAndLedgerAgree: the undispatched reason is taken to occur only out of signed_not_submitted, as its writer guarantees.
- PolicyMeaning.EvaluateMeaning: holds for an inventory that gives one name, family, symbol and decimals per identity, which the frozen dataset does.
- JsonText.CanonicalJsonInjective: numbers are safe integers; fractional numbers are not modelled.
- ShellQuoting.HandoffReadsBack: word splitting only; a first word that the shell would take for an assignment or a reserved word is still just a word.
- AtomicFiles.RepairLeavesOneLink: inode numbers and staged nonces never repeat.
- AtomicDirectory.Directory.ReleasePublishedTemporary: other processes act before its loop or after it; an unlink that fails because another process was faster inside the loop is not modelled.
- UsageLedger.AssetUsageLedger.SettleMerchantNativeActualFee: the receipt proof and the checks of the paid operation's own record are taken as done by its caller.
- PolicyCompiler.OverlayInput: the dataset version and hash, the inventory hash and the profile name are compared before it and are not part of it.
- ObserverCursor.PassAdvances: the previous end block is a yes or no answer, and the inspection of a candidate is one of four outcomes.
- PublicEffectRuns.AcceptedMeansNeverEntered: signatures cannot be forged, so a foreign outcome file is not signed with an attempt's key.
- PolicyStore.AllowlistPolicyStore.StageRevision: the overlay compiler is an argument; the version 1 single-admission compiler is not modelled.
- Historical paths: MetaMask and cleanup markers, Jupiter retirement and version 1 staging.
- Key-shape checks of stored JSON, ISO-8601 texts, and the wording and reason codes of errors.
- An empty pins or recipients object, which is the absent one here.
- The chain policy's sealed records, its native fee cap, and the account checks around it.
- The custody, attestation and encryption layers, the network clients, and the command line itself.
- Bytes on disk: locks, fsync order and directory creation are taken as the atomic steps they implement.
