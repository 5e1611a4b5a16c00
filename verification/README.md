# Verified models of the Solana Developer Platform

A Dafny model of six parts of the platform that move money, keys or policy decisions, with proofs
about whole runs and about every input. `dafny verify dfyconfig.toml` checks all of it.

- **Kamino vault exit** (`KvaultCodec`, `WithdrawInstructions`, `WithdrawPlan`, `ShareLedger`,
  `WithdrawAcceptance`, `WithdrawExecution`, `WithdrawSettlement`, `WithdrawExactness`). The planner of
  `packages/sdp-kamino` as functions and loops, and a ledger of share accounts with an atomic executor for what a
  plan contains: create, transfer, self-transfer as a balance assertion, redeem, redeem-everything, close. The
  bundle that the Kamino SDK returns is arbitrary. Plans are judged by what running them does, on the ledger they
  were built from and on any other.
- **Exact amounts** (`DecimalAmount`, `MintAmount`). A decimal string denotes a rational number; parser,
  printer, comparison and the mint-scale gate are proved against that meaning.
- **Base58** (`Base58`). The in-place base conversion, against a reference decoder.
- **Concurrent protocols** (`CustodyCipher`, `NestedSecrets`, `CustodyMigration`, `CustodyScan`, `CustodyExit`,
  `WorkerPool`, `RelayTelemetry`, `RpcProviders`, `RoundRobin`). Custody re-encryption as steps interleaved with
  arbitrary writers, undisturbed as the scan loop, and as scans interleaved with writers up to the exit code, with
  the migration of the secrets inside a configuration and encryption that returns a new text each time; the bounded
  worker pool; relay statistics over a store whose read and write are separate steps; provider selection.
- **Policy engine** (`PolicyEvaluation`, `PolicyEnforcement`). Strictest-wins evaluation over rules, legs and
  scopes with the rule matcher uninterpreted, the dry run beside it, and enforcement as a saga over a store in
  which any call may be refused, or take effect and lose its reply.
- **Kernels** (`RampMatrix`, `CronGap`, `EnvFile`). Generated support matrices against their advertised
  counts, the circular cron gap, and the `.env` printer against its parser.

`Wrappers`, `Arithmetic`, `MapTotals`, `Sequences`, `Text`, `TextLines` and `TextOrder` hold what several modules share.

Seven things the code does are worth a maintainer's attention. Each is proved.

1. The exit planner tags the SDK's unstake and cleanup lists as redeeming nothing without decoding them. A plan
   for the largest u64 is exact all the same, because of the balance guard. Any other plan can burn more than the
   accepted amount exactly when all literal amounts fit in a u64 together, no literal in either list follows a
   burn-everything redemption, and: if the unstake list burns everything, the share account was seen empty and
   cleanup has no literal; if it does not, cleanup burns everything or some literal is positive.
2. `acceptAtMintScale` refuses `.0`, `.00` and so on, although they denote zero and `0.0` is accepted.
3. The migrator's compare-and-swap compares the ciphertext but not the organization. It is safe because both ciphers
   bind the organization, so that no ciphertext opens in two: then every row stays faithful whatever writers do.
   Under a cipher without that property it would keep rows faithful if and only if the ciphertext changed or the
   organization did not, and a run that loses a row is given for any id.
4. If the reply to creating an approval request is lost, cleanup does not know the request and leaves it pending;
   after a cleanup that took effect, a new request stays open in this way alone.
5. The cron test counts list entries without looking at them. If a list could repeat a value, an accepted job would
   still never idle if and only if no hour, day or month is repeated, and a job that never idles is refused exactly
   when some list repeats a value: a repeated minute makes the gap read 60. Likewise a crypto rail listed twice makes
   a provider's advertised pair count exceed its rows.
6. Validation never sees a field's default or derived text. Which texts survive the `.env` file is stated exactly,
   and for each that does not a table and values that pass validation are given.
7. The position total counts accounts whose address is unusable, while the exit planner refuses them, so a position
   may be shown that no exit can be planned for.

## Model

| member | source | states |
|---|---|---|
| KvaultCodec.DecodeShares | packages/sdp-kamino/src/withdraw-instructions.ts:282-298 | the byte loop computes the little-endian u64 of bytes 8 to 15 of a redemption, and nothing for any other program, discriminator or length |
| KvaultCodec.RewriteShares | packages/sdp-kamino/src/withdraw-instructions.ts:256-272 | the byte-peeling loop writes exactly the eight little-endian bytes of the amount and keeps the rest |
| KvaultCodec.RewriteDecodes | packages/sdp-kamino/src/withdraw-instructions.ts:256-298 | rewrite then decode is the identity on all of [0, 2^64), touches only bytes 8 to 15, keeps program and accounts; rewriting an instruction with its own amount changes nothing |
| KvaultCodec.DecodedIsU64 | packages/sdp-kamino/src/withdraw-instructions.ts:282-298 | every decoded amount is a u64 |
| WithdrawInstructions.SumRawTokenAccountBaseUnits | packages/sdp-kamino/src/share-balances.ts:43-57 | the accumulating loop is the sum of the amounts, failing on the first unreadable entry |
| WithdrawInstructions.PositionTotalAgrees | packages/sdp-kamino/src/share-balances.ts:24-86 | the exit planner can read the accounts if and only if the position reader can and every entry has a usable address, and then both have the same total |
| WithdrawInstructions.BuildShareAccountConsolidation | packages/sdp-kamino/src/withdraw-instructions.ts:67-153 | the loop decrementing `remaining` emits exactly the specified transfers and post-balance, or the same failure |
| WithdrawInstructions.ConsolidationCovers | packages/sdp-kamino/src/withdraw-instructions.ts:85-152 | consolidation is refused exactly when the request exceeds the owner's total or that total a u64; the final "did not cover" error is unreachable |
| WithdrawInstructions.ResolvedTotal | packages/sdp-kamino/src/withdraw-instructions.ts:196-254 | after a rewrite the encoded amounts sum to exactly the request; nothing but the sentinel instruction changes; a sentinel survives only under the maximum-u64 guard |
| WithdrawInstructions.ClosesExactlyOnFullExit | packages/sdp-kamino/src/withdraw-instructions.ts:329-355 | after consolidation the close is emitted if and only if the request is everything the owner holds |
| WithdrawPlan.RequestIsAccepted | packages/sdp-kamino/src/sdk.ts:305-308 | a built plan's request is positive, fits a u64, and is what its recorded amount parses to |
| WithdrawPlan.ResolvedIsTruthful | packages/sdp-kamino/src/sdk.ts:476-499 | after resolution a tag still reports what its instruction's bytes encode |
| WithdrawExecution.GuardedParts | packages/sdp-kamino/src/sdk.ts:424-475 | consolidation and guard are inserted right before the first redemption of the withdraw list; nothing before them redeems and the rest of that list follows in order |
| WithdrawAcceptance.ResolvesExactlyWhen | packages/sdp-kamino/src/withdraw-instructions.ts:196-254 | sentinel resolution and the total check succeed together if and only if the redemptions sum to the request, or only the last one burns everything and the rest stay below it |
| WithdrawAcceptance.BuiltExactlyWhen | packages/sdp-kamino/src/sdk.ts:300-549 | for every input: a plan is built if and only if the mint's scale is at most 18, the request is a positive representable amount within the owner's total and u64 range, the SDK's withdraw list answers it, and every program the plan invokes is permitted |
| ShareLedger.RunBurns | packages/sdp-kamino/src/withdraw-instructions.ts:54-59 | a sentinel-free run that succeeds lowers the owner's total by exactly what its redemptions encode; transfers conserve it |
| ShareLedger.RunNeverGains | packages/sdp-kamino/src/withdraw-instructions.ts:54-59 | no run leaves the owner with more |
| ShareLedger.DrainRun | packages/sdp-kamino/src/withdraw-instructions.ts:54-59 | a list of provider instructions changes only the share account, by draining its balance redemption by redemption; where that account is missing it runs only if it redeems nothing |
| ShareLedger.DrainIs | packages/sdp-kamino/src/withdraw-instructions.ts:54-59 | when such a list overdraws, and what it leaves, in closed form: its literal amounts less, or nothing behind a burn-everything redemption that no literal follows |
| ShareLedger.MaximumRunBurns | packages/sdp-kamino/src/withdraw-instructions.ts:54-59 | from an account holding the largest u64, redemptions that encode it in total burn exactly it, even through the burn-everything sentinel |
| WithdrawExecution.PlanPhases | packages/sdp-kamino/src/sdk.ts:424-549 | every built plan is unstake, prerequisites, consolidation and guard, redemptions encoding exactly the request, cleanup, close, in that order |
| WithdrawSettlement.ConsolidationRuns | packages/sdp-kamino/src/withdraw-instructions.ts:85-152 | consolidation runs on exactly the ledgers that still hold what it pulls, moves exactly that into the share account, and conserves the total |
| WithdrawSettlement.PhasedRuns | packages/sdp-kamino/src/sdk.ts:424-549 | on every ledger: exactly when a plan runs to the end, what each account then holds, and what was burned, by which list |
| WithdrawExactness.RunBurnsRequest | packages/sdp-kamino/src/sdk.ts:424-549 | safety, for every bundle and every ledger: a run fails without effect or burns at least the accepted request; exactly it for the largest request; and otherwise exactly what the undecoded lists encode more, if they hold no burn-everything redemption |
| WithdrawExactness.ConsolidationReportsTruly | packages/sdp-kamino/src/withdraw-instructions.ts:85-152 | on its own ledger consolidation runs without overdrawing, conserves the owner's total, and leaves the share account holding exactly the reported balance, at least the request |
| WithdrawExactness.ExitSettles | packages/sdp-kamino/src/sdk.ts:424-549 | for every bundle, on the ledger it was built from: a plan runs to the end if and only if no list overdraws the balances seen, so the close never fails it; each other account loses exactly its transfers, and the share account is closed exactly on a full exit; where the undecoded lists redeem nothing it always runs and keeps the reported surplus |
| WithdrawExactness.ExitConserves | packages/sdp-kamino/src/sdk.ts:482-531 | for every bundle that run burns the request and what the undecoded lists burn, which is nothing where they redeem nothing; a full exit leaves nothing in any account |
| WithdrawExactness.ExactExactlyWhen | packages/sdp-kamino/src/sdk.ts:424-499 | for every bundle: every successful run burns exactly the request if and only if nothing in the undecoded lists can burn shares, by a condition on the request, the lists' amounts and burn-everything redemptions, and the share account's balance |
| WithdrawExactness.OverBurns | packages/sdp-kamino/src/sdk.ts:424-499 | whenever that condition fails, in each of its cases, there is a ledger on which the plan runs and burns more than the accepted request |
| DecimalAmount.IsDecimalString | packages/sdp-solana/src/amount.ts:12-37 | the scan accepts exactly digits with at most one dot and at least one digit |
| DecimalAmount.ParseDecimal | packages/sdp-solana/src/amount.ts:49-75 | the parser as written, stripping leading zeroes by index, computes the specified result or error |
| DecimalAmount.ParseExact | packages/sdp-solana/src/amount.ts:49-75 | on every decimal the parse is the one integer n with value = n / 10^decimals, or TooPrecise exactly when there are more places than decimals |
| DecimalAmount.FormatDecimal | packages/sdp-solana/src/amount.ts:88-119 | the printer as written, walking the fraction back over its zeroes, prints the specified text |
| DecimalAmount.FormatShape | packages/sdp-solana/src/amount.ts:88-119 | what is printed is a decimal with a whole part, at most `decimals` places, no trailing fractional zero, denoting n / 10^decimals |
| DecimalAmount.ParseInvertsFormat | packages/sdp-solana/src/amount.ts:49-119 | parsing a printed amount gives it back for every n >= 0 and every scale, and refuses every printed negative |
| DecimalAmount.CompareExact | packages/sdp-solana/src/amount.ts:77-86 | comparison never fails on decimals and orders them as the rationals they denote |
| MintAmount.TrimFractionalZeroes | packages/sdp-kamino/src/amounts.ts:92-107 | the index loop drops exactly the zeroes after the last significant place, and a point left bare |
| MintAmount.AcceptsExactlyRepresentable | packages/sdp-kamino/src/amounts.ts:64-90 | accepts if and only if the text is a decimal, not a bare zero fraction, and value * 10^decimals is an integer of at most 2^64-1 |
| MintAmount.AcceptedAmount | packages/sdp-kamino/src/amounts.ts:64-117 | an accepted amount is spelled canonically, denotes the same value, parses to its base units, and is "0" exactly for zero |
| MintAmount.AcceptedIsCanonical | packages/sdp-kamino/src/amounts.ts:64-90 | two accepted texts have the same result if and only if they have the same value, and accepting a result again changes nothing |
| MintAmount.BareZeroIsRefused | packages/sdp-kamino/src/amounts.ts:92-107 | every ".0…0" denotes zero, which fits every mint, and is refused |
| Base58.AppendByte | packages/sdp-env-config/src/local-keypair.ts:38-49 | one pass updates the digit list in place, with a carry of at most 255, to digits below 58 whose number is 256 times the old one plus the byte |
| Base58.MultiplyAddDigits | packages/sdp-env-config/src/local-keypair.ts:38-49 | a pass over the base-58 digits of n gives the base-58 digits of 256 n + carry, so no zero is ever left on top |
| Base58.EncodeBase58 | packages/sdp-env-config/src/local-keypair.ts:27-55 | the encoder computes one '1' per leading zero byte followed by the base-58 digits of the big-endian number |
| Base58.DecodeInvertsEncode | packages/sdp-env-config/src/local-keypair.ts:27-55 | a reference decoder returns the original bytes, leading zeroes included |
| Base58.EncodeIsInjective | packages/sdp-env-config/src/local-keypair.ts:27-55 | no two byte strings share an encoding |
| NestedSecrets.MigrateNestedCustodySecrets | apps/sdp-api/src/services/custody-cipher/nested-secret-migration.ts:10-50 | the loop over the secret fields computes the specified migration: unreadable text or a failing cipher call fails it, and the text is unchanged where no field needed migrating |
| NestedSecrets.MigrationKeepsSecrets | apps/sdp-api/src/services/custody-cipher/nested-secret-migration.ts:10-50 | whatever encryption returns, every field decrypts to what it did, everything that is not a secret is kept, and every secret is then under the new cipher |
| NestedSecrets.MigrationIsIdempotent | apps/sdp-api/src/services/custody-cipher/nested-secret-migration.ts:10-50 | migrating a migrated text changes nothing, whatever encryption returned the first time and would return the second |
| NestedSecrets.MigratedOnlySkips | apps/sdp-api/src/services/custody-cipher/nested-secret-migration.ts:29-49 | that text, unchanged, is the only outcome another migrator can have |
| CustodyMigration.SwapKeepsFaith | apps/sdp-api/scripts/migrate-custody-encryption.ts:78-118 | a verified swap from any snapshot, however stale, keeps every row faithful to its last external write, if the cipher binds the organization or the row's organization is the snapshot's |
| CustodyMigration.NestingIsPreorder | apps/sdp-api/src/services/custody-cipher/nested-secret-migration.ts:10-50 | nested migration as it is coded is a form in the sense the theorems about runs assume: it composes |
| CustodyMigration.RunKeepsInv | apps/sdp-api/scripts/migrate-custody-encryption.ts:78-118 | at every point of every interleaving of migrators and writers, which may put any organization's row under any id, each row decrypts to its last externally written plaintext or a nested-migrated form of it: with a cipher that binds the organization, and with any other if no id changes organization |
| CustodyMigration.ExternalWriteSurvives | apps/sdp-api/scripts/migrate-custody-encryption.ts:100-118 | an external write is not lost, under the same alternatives: until the next external step on the row, it is there, under the same organization, holding what was written or its migrated form |
| CustodyMigration.SwapIsFaithfulExactlyWhen | apps/sdp-api/scripts/migrate-custody-encryption.ts:100-118 | the swap keeps a row faithful under every cipher and plaintext if and only if its ciphertext changed since the snapshot or its organization did not |
| CustodyMigration.MovedRowIsLost | apps/sdp-api/scripts/migrate-custody-encryption.ts:78-118 | why the cipher has to bind the organization: with one that opens a ciphertext in two organizations, which the repository's ciphers exclude, there is for any id and any two organizations a run after which the row no longer decrypts although its last write did |
| CustodyScan.Database.Select | apps/sdp-api/scripts/migrate-custody-encryption.ts:62-72 | the keyset query returns matching rows in ascending id order and leaves out only rows after the last returned one |
| CustodyScan.Database.Update | apps/sdp-api/scripts/migrate-custody-encryption.ts:94-105 | the conditional update is the compare-and-swap, and reports whether it changed the row |
| CustodyScan.ScanOnce | apps/sdp-api/scripts/migrate-custody-encryption.ts:55-123 | one scan visits every row of its version once in ascending id order although migrated rows leave the filter, processes exactly those, contests nothing, and counts exactly what it did |
| CustodyScan.CodedNestingIsIdempotent | apps/sdp-api/src/services/custody-cipher/nested-secret-migration.ts:10-50 | with an encryption whose results have the new prefix and decrypt back, the coded nested migration meets the idempotence the passes below assume |
| CustodyScan.SecondScanWritesNothing | apps/sdp-api/scripts/migrate-custody-encryption.ts:37-53 | given idempotent nested migration, nothing is left to write after one scan and the same rows fail again |
| CustodyScan.MigratePass | apps/sdp-api/scripts/migrate-custody-encryption.ts:37-53 | the loop over scans leaves and counts exactly what the specified pass does, stopping at the first scan without writes or after the limit, which counts as contested |
| CustodyScan.IdempotentPass | apps/sdp-api/scripts/migrate-custody-encryption.ts:37-53 | given idempotent nested migration a pass takes one or two scans, makes one scan's changes and contests nothing; failed rows are counted once per scan |
| CustodyScan.CleanPassSkips | apps/sdp-api/scripts/migrate-custody-encryption.ts:37-123 | whatever nested migration does, a pass without failed or contested rows ended with a scan that found every row already migrated |
| CustodyScan.OnlyFailedRowsRemainLegacy | apps/sdp-api/scripts/migrate-custody-encryption.ts:37-123 | after the legacy pass the legacy rows are exactly those that failed, and a row with an empty id, which the cursor never reaches |
| CustodyScan.RunMigration | apps/sdp-api/scripts/migrate-custody-encryption.ts:125-165 | the table after both passes, and exit code 0 if and only if both are clean and no legacy row is left, for any nested migration |
| CustodyScan.IdempotentExit | apps/sdp-api/scripts/migrate-custody-encryption.ts:125-165 | given idempotent nested migration, exit code 0 if and only if nothing fails and no row is out of the cursor's reach |
| CustodyExit.ScanVisits | apps/sdp-api/scripts/migrate-custody-encryption.ts:55-123 | while other processes write, a scan visits every row of its version that stays the same, whenever its batches were read |
| CustodyExit.ExitZeroMeansMigrated | apps/sdp-api/scripts/migrate-custody-encryption.ts:37-165 | exit code 0 with other processes writing all along and every encryption choosing its text freely: no legacy row at the final count, and every readable, reachable row that only migrators wrote is under the new cipher, with nothing left to migrate inside and its plaintext preserved |
| WorkerPool.RunInv | packages/sdp-kamino/src/client.ts:39-67 | in every interleaving each index is claimed once, in order, and its slot is filled exactly when its mapper has settled, with an outcome of its own item |
| WorkerPool.AtMostConcurrencyInFlight | packages/sdp-kamino/src/client.ts:39-67 | never more than `concurrency` mappers in flight, and no index in flight twice |
| WorkerPool.NormalFinishIsComplete | packages/sdp-kamino/src/client.ts:39-67 | when all workers finish normally every slot holds its own item's outcome |
| WorkerPool.NoClaimAfterExpiry | packages/sdp-kamino/src/client.ts:39-67 | once the activity check fails for good no further index is claimed |
| WorkerPool.StepsUseUpWork | packages/sdp-kamino/src/client.ts:39-67 | every step, the deadline included, lowers a measure of the work left |
| WorkerPool.RunIsBounded | packages/sdp-kamino/src/client.ts:39-67 | so no interleaving is longer than the work it starts with |
| WorkerPool.NotStuck | packages/sdp-kamino/src/client.ts:39-67 | a worker that has not left its loop can always take a step |
| WorkerPool.SnapshotIsAllOrNothing | packages/sdp-kamino/src/client.ts:282-311 | positions are returned if and only if every read succeeded, and are then every vault's own, in request order, less empty ones when all holdings were asked for |
| WorkerPool.PositionsAreTheirVaults | packages/sdp-kamino/src/client.ts:264-311 | end to end over any interleaving: for named vaults the positions returned are one per vault, read for that vault, in request order; for all holdings they are those at strictly increasing places, and the places left out are exactly those read without shares |
| RpcProviders.DefaultSelectionsAgree | packages/sdp-rpc/src/relay.ts:371-449 | for every environment the first managed provider's URL is what `resolveDefaultSolanaRpcUrl` returns from its own list; preferring a provider only moves it to the front |
| RpcProviders.ListsAgree | packages/sdp-rpc/src/config.ts:75-128 | the two separately written vendor lists name the same providers with the same URLs in the same order |
| RpcProviders.ResolveManagedProviders | packages/sdp-rpc/src/relay.ts:371-449 | the seven pushing branches and the preference build exactly the specified list |
| RpcProviders.ResolveDefaultSolanaRpcUrl | packages/sdp-rpc/src/config.ts:75-142 | the second implementation's branches and preference yield exactly the specified URL |
| RoundRobin.PickRoundRobinProvider | packages/sdp-rpc/src/relay.ts:571-591 | picks at the stored cursor, zero if unusable, and advances it; a single provider leaves the cursor alone |
| RoundRobin.SerialPicks | packages/sdp-rpc/src/relay.ts:571-591 | from any stored text, any n consecutive serial picks over n providers choose each exactly once |
| RoundRobin.FailoverIsRotation | packages/sdp-rpc/src/relay.ts:593-604 | the failover order starts at the pick and is a rotation of all providers |
| RelayTelemetry.StoredRecordIsSound | packages/sdp-rpc/src/relay.ts:807-840 | in every interleaving of reads and writes, lost updates included, errors, transactions and the sum over at most 20 origins are each at most the requests counted, and those at most the calls finished |
| RelayTelemetry.SerialCountIsExact | packages/sdp-rpc/src/relay.ts:807-840 | when no update is overtaken the stored count is exactly the number of finished calls |
| RelayTelemetry.AverageIsBetween | packages/sdp-rpc/src/relay.ts:357-369 | the rounded average of a sound record lies between the smallest and the largest recorded latency |
| PolicyEvaluation.SelectStrictestRule | packages/sdp-policy/src/evaluate.ts:294-305 | the loop selects the first match of the highest rank |
| PolicyEvaluation.DryRunAgrees | packages/sdp-policy/src/evaluate.ts:106-135 | for an active revision and any legs, the matched criteria in order are exactly the scope's matched rules |
| PolicyEvaluation.ScopeDecidesStrictest | packages/sdp-policy/src/evaluate.ts:227-292 | an active scope decides the strictest contribution over the aggregate and every leg, its default when there is none; an inactive one allows |
| PolicyEvaluation.DecisionIgnoresOrder | packages/sdp-policy/src/evaluate.ts:64-95 | the combined decision is invariant under permuting or repeating rules and legs |
| PolicyEvaluation.CombinedIsStrictest | packages/sdp-policy/src/evaluate.ts:64-95 | the combined decision is the strictest scope's, so an API-key scope never weakens the wallet scope |
| PolicyEvaluation.AnyDenyDenies | packages/sdp-policy/src/evaluate.ts:64-95 | a deny contributed anywhere, on any leg of any scope, denies the operation |
| PolicyEnforcement.TryEnforce | packages/sdp-policy/src/enforce.ts:44-78 | under every pattern of refusals and lost replies: which of the three tables is written and how, that it gets through exactly when every call is answered, and that it knows an approval id exactly when one is open |
| PolicyEnforcement.EnforceWalletOperationPolicy | packages/sdp-policy/src/enforce.ts:33-130 | the whole flow with its compensation leaves exactly the specified state and outcome |
| PolicyEnforcement.ReturnIsConsistent | packages/sdp-policy/src/enforce.ts:33-85 | a normal return leaves the status its decision maps to and one audit row, linked to an open approval request exactly for approval and review decisions |
| PolicyEnforcement.ReturnsExactlyWhenAnswered | packages/sdp-policy/src/enforce.ts:33-85 | the flow returns if and only if every call it makes is answered and its approval request is open |
| PolicyEnforcement.EvaluatedMeansAllowed | packages/sdp-policy/src/decisions.ts:29-45 | whatever fails, an operation ends "evaluated" only for an allow decision, or because its caller recorded it so or recording was refused |
| PolicyEnforcement.OtherRowsKept | packages/sdp-policy/src/enforce.ts:33-130 | whatever fails, another operation's row never changes and no audit row is lost |
| PolicyEnforcement.FailureLeavesRowsFailed | packages/sdp-policy/src/enforce.ts:44-130 | for every decision, initial status and approval request on file: after a failure everything is failed if and only if cleanup took effect or the written status was failed, and any open or new approval request was closed by a cleanup that knew of it |
| PolicyEnforcement.FailureLeaves | packages/sdp-policy/src/enforce.ts:44-130 | after any failure exactly which status the operation has and whether the approval request is open, with no other approval touched; both errors surface exactly when cleanup failed |
| PolicyEnforcement.LostApprovalReplyLeavesItOpen | packages/sdp-policy/src/enforce.ts:112-130 | after a cleanup that took effect a new approval request is still open if and only if the reply to creating it was lost |
| PolicyEnforcement.DenyNeverEvaluated | packages/sdp-policy/src/enforce.ts:33-130 | evaluation and enforcement together: a deny in any scope or leg never leaves an operation executable |
| RampMatrix.BuildOnrampMatrix | apps/sdp-api/scripts/discover-ramp-rails.ts:263-291 | the nested loops compute the specified rows |
| RampMatrix.BuildOfframpMatrix | apps/sdp-api/scripts/discover-ramp-rails.ts:293-319 | likewise for the other direction and nesting |
| RampMatrix.OnrampRowExists | apps/sdp-api/scripts/discover-ramp-rails.ts:263-291 | a row exists if and only if some provider supports its pair and it lists exactly the supporters |
| RampMatrix.OfframpRowExists | apps/sdp-api/scripts/discover-ramp-rails.ts:293-319 | likewise for the other direction |
| RampMatrix.SupportersInOrder | apps/sdp-api/scripts/discover-ramp-rails.ts:273-283 | the supporters of a longer registry continue those of a shorter one: registry order |
| RampMatrix.OnrampIsSorted | apps/sdp-api/scripts/discover-ramp-rails.ts:263-291 | rows come strictly by fiat code, then rail; no pair has two rows |
| RampMatrix.OfframpIsSorted | apps/sdp-api/scripts/discover-ramp-rails.ts:293-319 | rows come strictly by rail, then fiat code; no pair has two rows |
| RampMatrix.OnrampCountIsAdvertised | apps/sdp-api/scripts/discover-ramp-rails.ts:373-375 | the rows naming a provider number its currencies times its distinct rails, which is its advertised count if and only if it has no currency or lists no rail twice |
| RampMatrix.OfframpCountIsAdvertised | apps/sdp-api/scripts/discover-ramp-rails.ts:373-375 | likewise for the other direction |
| CronGap.GapIsLeastExactlyWhen | apps/sdp-api/src/job.ts:368-377 | for any order of minutes the gap is the least number of minutes within which a run is certain, if and only if no minute is repeated or there is only one |
| CronGap.GapCovers | apps/sdp-api/src/job.ts:368-377 | the gap is always a sound bound, between 1 and 60 |
| CronGap.RepeatedMinuteReadsSixty | apps/sdp-api/src/job.ts:368-377 | a repeated minute is read as a gap of a whole hour |
| CronGap.AcceptedNeverIdlesExactlyWhen | apps/sdp-api/src/job.ts:344-366 | for any in-range lists: an accepted job runs in every five consecutive minutes of unbounded time if and only if none of hour, day of month, month and day of week repeats a value |
| CronGap.NeverIdleIsAcceptedExactlyWhen | apps/sdp-api/src/job.ts:344-377 | for any in-range lists: a job that never idles is refused exactly when some list, the minutes included, repeats a value |
| CronGap.AcceptedExactlyWhenNeverIdle | apps/sdp-api/src/job.ts:344-366 | where no list repeats a value, accepted and never idle are the same |
| CronGap.AcceptedCanIdle | apps/sdp-api/src/job.ts:344-366 | a schedule that lists midnight twice and leaves out the last hour is accepted, and idles |
| EnvFile.GenerateEnv | packages/sdp-env-config/src/generate.ts:18-49 | the nested appending loops print the specified text |
| EnvFile.LoadLocalEnvFile | apps/sdp-api/scripts/set-organization-tier-local.ts:14-37 | the line loop reads the specified assignments, later ones winning |
| EnvFile.ReadsBack | packages/sdp-env-config/src/generate.ts:18-49 | for any values whatever, the generated file parses to exactly the emitted fields with their trimmed and stripped values, and no other key |
| EnvFile.KeptExactlyWhen | packages/sdp-env-config/src/generate.ts:33-37 | a field's trimmed value survives the file if and only if it contains no CR, LF or NUL |
| EnvFile.ValidateValues | packages/sdp-env-config/src/validate.ts:52-65 | the loop records exactly the specified error of each checked field |
| EnvFile.ValidatedReadsBack | packages/sdp-env-config/src/validate.ts:35-64 | after validation every filled-in emitted field reads back as exactly its trimmed value, and every required one is in the file |
| EnvFile.UncheckedTextIsCut | packages/sdp-env-config/src/validate.ts:52-65 | for every default or derived text with a CR, LF or NUL inside there are a table and values that pass validation and whose file does not read it back |

## Left out

- WithdrawExactness.ExitSettles: knows only share balances; a redemption that the vault itself would refuse (liquidity, frozen accounts, missing lamports) is not modelled.
- ShareLedger.DrainRun: a redemption is taken to burn from the owner's share account, whatever accounts the SDK's instruction names; the planner does not look at them either.
- CustodyMigration.ExternalWriteSurvives: assumes that no ciphertext opens in two organizations (or that no id changes organization); that the ciphers achieve this is cryptography, which is not modelled.
- CustodyExit.ExitZeroMeansMigrated: speaks of rows that only migrators wrote and that were readable when the run began, or whose id was never used for another organization; a row with the empty id is never reached by the cursor.
- NestedSecrets.MigrationKeepsSecrets: encryption is taken to return a text with the new prefix that decrypts back, as the code does not check this for nested secrets; the script demands the key that makes the new scheme active. JSON is a pair of functions of which parsing inverts printing.
- CustodyScan.IdempotentExit: the undisturbed scans take encryption as a function; CustodyExit lets every call choose anew.
- CronGap.NeverIdleIsAcceptedExactlyWhen: takes the cron library's lists as given, in range, and a run as needing all five fields to match; the text of the crontab is not part of this model.
- EnvFile.ValidatedReadsBack: speaks of values that were filled in; defaults and derived values are not validated by the code; KeptExactlyWhen and UncheckedTextIsCut cover them.
- EnvFile.ReadsBack: assumes distinct plain keys and one-line comments in the field table, which is data; the key `__proto__`, special to JavaScript records, is not treated apart.
- PolicyEnforcement.FailureLeaves: failing an approval request is taken to fail its operation with it, as one store call.
- RoundRobin.SerialPicks: number parsing of arbitrary stored text is a parameter that is only required to read back the numbers the picker writes.
- RelayTelemetry.StoredRecordIsSound: latencies are already rounded non-negative integers, and which of equally frequent origins is dropped is left open.
- Farm staking, withdrawal penalties, lookup tables, signing, and the temporary replacement of an SDK method during planning.
- Instructions of other programs are taken to leave share balances alone; account addresses are compared as values.
- Cryptography: decryption is a function of organization and ciphertext, encryption any result that verification accepts.
- Policy rule matching, summary sentences, audit identifiers, approval group ids and the store's own SQL.
- The configurator's concrete field table and header text, the contents of the vendor URL templates, and missing files: they are inputs.
- Environment-variable checks, database pools and logging around the migrator, and the retry of failed database calls.
- JavaScript strings are sequences of characters; surrogate pairs are not modelled. Sorting uses code order.
- `toNumberAmount` and `toMosaicAmount`, rail discovery and rendering, tenant endpoints, log redaction and HTTP wiring would add only easy members.
