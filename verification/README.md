# clmm-copybot: verified core

A Dafny model of the parts of the copy-trading bot whose behaviour is decided by its own code
rather than by the chain: the operation queue, the arithmetic that mirrors a target's partial
withdrawals, the tiered asset history, the signer's framing and policy, and a few smaller loops.
Chain, RPC, SDK, clock and number formatting are inputs. `dafny verify dfyconfig.toml` checks
everything.

| file | component |
|---|---|
| `QueueModel.dfy`, `QueueProofs.dfy`, `OperationQueue.dfy` | the two-priority operation queue as a state machine over its atomic sections, its invariants and progress, and the class itself |
| `MirrorArithmetic.dfy`, `Executors.dfy` | proportional decreases (Byreal, DAMM v2, Meteora) and the executor methods that apply them |
| `TrendSpec.dfy`, `AssetTrend.dfy`, `BucketBy.dfy` | batch definitions of the history tiers, the in-place collector, and its agreement with the import script |
| `Framing.dfy` | length-prefixed frames: signer handler and client under arbitrary chunking |
| `PolicySpec.dfy`, `Policy.dfy` | the signer's policy as a declarative verdict, and the two pipelines that compute it |
| `WalletList.dfy`, `BinRange.dfy`, `BonusClaim.dfy`, `SignatureDedup.dfy`, `Drawdown.dfy` | wallet setting, bin ranges, bonus claim loop, signature dedup, drawdown latch |
| `Options.dfy`, `Arithmetic.dfy` | shared option type and non-linear integer facts |

## What is proved

**Queue.** Every event is one section between awaits; a run is any interleaving of them. In every
reachable state at most one operation runs, `draining` says exactly whether a queued one does,
nothing enqueued is lost, duplicated or reordered within its priority, a NORMAL item starts only
when every HIGH item enqueued so far has started, and once a caller of `executeNow` has reserved,
no queued item starts before that caller. Pending work always has a wake-up; without new arrivals
some effective step is always possible while work remains, and each one lowers a natural number,
so everything runs. The recheck after the drain loop is shown to be dead code.

**Mirroring.** Everything the executors read and every fate of a transaction is an input. A send
returns a signature or an error, and neither settles what the chain did: Byreal never confirms a
signature, DAMM v2 accepts a look-up that finds nothing, and a send that failed may still have reached
the chain. What is read of our own position, when the share is computed and again before every send,
may lag behind the transactions already sent. What a call takes from our position is a function of
these inputs; one step leaves us at the target's share or above if and only if it takes no more than
the share of what we really hold, and less than a unit above if and only if it takes no less. Over any
run whose steps take no more, M0·Ln <= Mn·L0, so a position is never emptied while the target has
liquidity and splitting a decrease never removes more; lost sends do no harm. Over any run whose steps
take no less, Mn·L0 <= M0·Ln + n·L0, where n counts the decreases. A step takes no more if our position
was seen no larger than it is and at most one transaction takes effect; it takes no less if it was seen
no smaller and one transaction takes effect in full. Without these sides the bounds are false of the
code, in three ways: a send that timed out after reaching the chain is repeated and we end below the
share; a signature that never lands is reported as DECREASE and the excess stays; and when the target
halves twice before our first removal shows, the second call takes half of what we had at first and
the position is empty although every transaction landed once. After a single lost decrease the bound
with n = 1 holds iff M0·(L0 - L1) <= L0, and the one with n = 0 iff M0 = 0. Byreal rewrites the
baseline before taking its lock and so loses a decrease that meets a busy executor; DAMM v2 takes the
lock first and does not.

**Asset history.** The tiers the collector keeps in place equal the batch rule applied to the whole
history: daily is the batch of days minus the open one, hourly and raw are one final trim of the
untrimmed tiers. The bucket at the epoch is never promoted, because its start, 0, doubles as
"nothing aggregated yet"; the statements say so instead of excluding small timestamps.

**Signer.** The socket handler emits at most one frame per data event. For every chunking no byte is
lost, what is emitted is a prefix of what a looping decoder yields, and the two agree after every
event exactly when no event completes two frames: of two that arrive together the second stays
behind. The v0 and legacy policy pipelines give the same verdict and reason, and a transaction is
allowed exactly when a declarative condition holds that is monotone in both lists. A v0 instruction
whose program index is out of range resolves to no program and is skipped by every check, as in the
code.

**Smaller cores.** Edge cases that the code really has are kept and characterised: once an empty
signature is the oldest of an over-full dedup set, nothing is evicted any more; a server that keeps
offering a batch with neither order code nor reward key is ordered without end; a snapshot taken while
the drawdown threshold is disabled neither counts nor resets the warning.

Where comments and code disagree, the model follows the code: the policy comments speak of blocking
SPL Approve to unknown addresses (`signer/policy.ts:134-135`), but no Approve is ever rejected.

## Model

| member | source | states |
|---|---|---|
| `QueueProofs.OneOperationAtATime` | src/executor/queue.ts:101-130 | in every interleaving each start follows the end of every earlier start, queued or immediate; `draining` iff a queued item runs |
| `QueueProofs.NoLostWakeUp` | src/executor/queue.ts:55-73 | pending items imply a running item, an outstanding drain, an immediate operation or a waiting caller; the reservation counter is the number of waiting callers |
| `QueueProofs.ReservationBeatsQueue` | src/executor/queue.ts:98-120 | between a reservation and the start of its caller no queued item starts, with any number of callers |
| `QueueProofs.ConservationAndOrder` | src/executor/queue.ts:204-233 | per priority started ++ pending is the enqueue order and finished ++ running is the start order; NORMAL starts only with every HIGH item started |
| `QueueProofs.NoItemRunsTwice` | src/executor/queue.ts:55-64 | no item is started twice: the items of a priority start in strictly increasing order of their ids |
| `QueueProofs.ActivityQueryIsExact` | src/executor/queue.ts:169-182 | the HIGH-activity query is false iff every HIGH item ever enqueued has finished and at most `seq` were enqueued |
| `QueueProofs.LogIsHistory` | src/executor/queue.ts:54-247 | the log that these results speak about is the run: every enqueued item with its name and priority, every reservation and every end, in order |
| `QueueProofs.IdleQueueStartsAtOnce` | src/executor/queue.ts:98-120 | a caller that finds nothing running starts at once whatever is pending; any other one waits and changes nothing else |
| `QueueProofs.StepKeepsInv` | src/executor/queue.ts:54-247 | every atomic section keeps the whole queue invariant |
| `QueueProofs.EffectiveStepsLowerWork` | src/executor/queue.ts:199-247 | every state-changing step other than an arrival lowers the work measure |
| `QueueProofs.WorkLeftCanBeDone` | src/executor/queue.ts:194-247 | while anything is pending, running or waiting, some effective step is enabled |
| `QueueProofs.EverythingRuns` | src/executor/queue.ts:194-247 | from any reachable state a run without arrivals is bounded, and when it can go no further all items have finished and all reservations were served |
| `QueueProofs.CanAlwaysFinish` | src/executor/queue.ts:194-247 | a completing run always exists |
| `QueueModel.DrainLoop` | src/executor/queue.ts:204-246 | one pass of the drain loop never schedules another drain: the recheck after it is dead |
| `OperationQueueClass.OperationQueue.constructor` | src/executor/queue.ts:39-52 | a new queue is the initial state |
| `OperationQueueClass.OperationQueue.Enqueue` | src/executor/queue.ts:55-73 | performs exactly the enqueue event and returns the fresh id |
| `OperationQueueClass.OperationQueue.Drain` | src/executor/queue.ts:199-237 | a fired `setImmediate` performs exactly the drain event |
| `OperationQueueClass.OperationQueue.DrainLoop` | src/executor/queue.ts:204-246 | starts the next item or leaves the loop, as the model's loop pass |
| `OperationQueueClass.OperationQueue.ScheduleDrain` | src/executor/queue.ts:194-197 | adds one outstanding callback unless draining |
| `OperationQueueClass.OperationQueue.ItemSettled` | src/executor/queue.ts:226-246 | the end of the running item performs exactly the item-ends event |
| `OperationQueueClass.OperationQueue.ExecuteNow` | src/executor/queue.ts:98-120 | reserves and, if nothing runs, starts at once; otherwise waits |
| `OperationQueueClass.OperationQueue.Poll` | src/executor/queue.ts:108-120 | a waiting caller's timer performs exactly the poll event |
| `OperationQueueClass.OperationQueue.ImmediateSettled` | src/executor/queue.ts:123-130 | clears the flag and resumes draining |
| `OperationQueueClass.RunQueue` | src/executor/queue.ts:39-247 | the object driven by any interleaving keeps its invariant and ends in the state of the model's run |
| `OperationQueueClass.OperationQueue.HasHighPriorityActivityAfter` | src/executor/queue.ts:175-182 | answers no iff all HIGH items ever enqueued finished and at most `snapshot` were |
| `MirrorArithmetic.LeftoverIsCeiling` | src/executor/byreal-position.ts:1536-1550 | what is left after the truncated share is M·L'/L rounded up; the share never exceeds what we have |
| `MirrorArithmetic.KeepsShareIffNoMore` | src/executor/byreal-position.ts:1546-1550 | a step keeps us at the target's share or above iff it takes no more than the share of what we hold, or we hold nothing |
| `MirrorArithmetic.WithinUnitIffNoLess` | src/executor/byreal-position.ts:1546-1550 | a step leaves less than a unit above the target's share iff it takes no less than the share of what we hold |
| `MirrorArithmetic.NeverBelowShare` | src/executor/byreal-position.ts:1528-1568 | M0·Ln <= Mn·L0 over any run whose steps take no more than the share of what we hold, lost sends included |
| `MirrorArithmetic.NeverFarAboveShare` | src/executor/byreal-position.ts:1676-1683 | Mn·L0 <= M0·Ln + n·L0 over any run whose steps take no less, strictly once there was a decrease |
| `MirrorArithmetic.NeverEmptied` | src/executor/byreal-position.ts:1528-1568 | over the same runs, M0 >= 1 keeps Mn >= 1 while the target has liquidity |
| `MirrorArithmetic.SplittingNeverRemovesMore` | src/executor/dammv2-position.ts:1137-1175 | any such run leaves at least what a single exact step to the same target liquidity would |
| `MirrorArithmetic.LostSendLeavesExcess` | src/executor/byreal-position.ts:1567-1568 | after one decrease that took nothing, the bound with n = 0 holds iff we hold nothing, and the one with n = 1 iff M0·(L0 - L1) <= L0 |
| `MirrorArithmetic.BpsBounds` | src/executor/meteora-position.ts:1343-1348 | basis points of a partial decrease are below 10000, and 10000 minus them is the target's fraction rounded up |
| `MirrorArithmetic.RequestsTrackTarget` | src/executor/meteora-position.ts:1336-1355 | over n decreases, product(10000 - bps)·L0 >= 10000^n·Ln, and exceeds it by at most n basis points of the baseline |
| `Executors.Executor.PlanDecrease` | src/executor/byreal-position.ts:1528-1586 | as a table: everything if the target is gone or empty or our position unreadable, nothing if it has no baseline or did not shrink, else the seen liquidity times the removed fraction, rounded down; and when the baseline is rewritten |
| `Executors.PlanIsCarried` | src/executor/byreal-position.ts:1508-1762 | a call by the plan carries that amount: a full decrease empties us iff a transaction takes effect, fees move nothing, and what is reported |
| `Executors.RetryBudgets` | src/executor/dammv2-position.ts:1197-1225 | Byreal makes three sends on transient errors and doubles that on failed simulations; DAMM v2 makes one, and one more on a transient error |
| `Executors.EmptyReads` | src/executor/dammv2-position.ts:1243-1246 | nothing is sent for a share of a position that reads as empty, nor on DAMM v2 for all of it; Byreal sends a full decrease without looking |
| `Executors.LoneHitTakes` | src/executor/byreal-position.ts:1679-1682 | a transaction that takes effect alone takes the amount or all that was read, whichever is less |
| `Executors.SendsAreTwoAttempts` | src/executor/byreal-position.ts:2848-2870 | the nested retry loops are one attempt, and a second right after it iff the last error of the first calls for it |
| `Executors.HitsCount` | src/executor/byreal-position.ts:1663-1753 | the count of transactions that take effect is at least one iff some try does, and at most one iff no two do |
| `Executors.TakenPerHit` | src/executor/byreal-position.ts:1676-1683 | each transaction that takes effect takes something and none more than the amount; one whose read covered the amount takes all of it |
| `Executors.CoveredHitsTakeAmount` | src/executor/byreal-position.ts:1676-1683 | if every read covers the amount, a call takes the amount once per transaction that takes effect |
| `Executors.EverythingIsTakenIffHit` | src/executor/byreal-position.ts:1701-1716 | a full decrease takes everything iff some transaction takes effect |
| `Executors.CallKeepsShareIff` | src/executor/byreal-position.ts:1536-1568 | whatever was seen of our position: not below the target's share iff the call takes at most the share of what we hold, within a unit iff at least that; with covering reads it takes hits times the share of what was seen |
| `Executors.ShareIsTakenIffHitOnce` | src/executor/byreal-position.ts:1536-1568 | if our position was seen as it is and the share is positive: not below iff at most one transaction takes effect, within a unit iff at least one does |
| `Executors.HonestSendsHitOnce` | src/executor/byreal-position.ts:2848-2870 | with honest failure reports at most one transaction takes effect, namely a last one that landed; if signatures are confirmed, exactly when one is reported |
| `Executors.RepeatedSendOvershoots` | src/executor/dammv2-position.ts:1300-1303 | on both venues a send that timed out after reaching the chain is repeated and leaves us below the target's share, for every positive share |
| `Executors.UnlandedSignatureLeavesExcess` | src/executor/byreal-position.ts:1695-1697 | a signature whose transaction never takes effect is reported as DECREASE, removes nothing and leaves at least a unit too much, for every positive share |
| `Executors.StaleReadEmptiesPosition` | src/executor/byreal-position.ts:1543-1550 | the target halves twice and the second call still sees what we held at first: one landed transaction each, and we end with nothing while the target keeps a quarter |
| `Executors.CautiousTakesNoMore` | src/executor/byreal-position.ts:1536-1568 | an event that saw no more than we hold and hits the chain at most once takes no more than our share; fee-only events are free |
| `Executors.AmpleTakesNoLess` | src/executor/byreal-position.ts:1536-1568 | an event that saw no less than we hold and hits the chain with the whole amount takes no less than our share |
| `Executors.Executor.Attempt` | src/executor/byreal-position.ts:2848-2870 | one attempt: tries while errors are transient and tries remain, each capped by what is read before it |
| `Executors.Executor.SendDecrease` | src/executor/byreal-position.ts:1663-1753 | the attempt loop around it: our liquidity drops by what the tries that take effect ask for; succeeds iff the last try returns a signature |
| `Executors.Executor.CollectFees` | src/executor/byreal-position.ts:1597-1638 | succeeds iff the last try of the two attempts returns a signature; no liquidity moves |
| `Executors.Executor.CopyDecreaseLiquidity` | src/executor/byreal-position.ts:1508-1762 | exact result, baseline and liquidity of one call, whatever it reads: it carries the amount of the table |
| `Executors.Executor.CopyRemoveLiquidity` | src/executor/dammv2-position.ts:1108-1312 | the same for DAMM v2, where a busy executor or an unreadable pool changes nothing at all |
| `Executors.Executor.PlanRemoveBps` | src/executor/meteora-position.ts:1336-1373 | requested basis points lie in 0..9999 and the two clamps never change them |
| `Executors.Executor.FollowTarget` | src/executor/byreal-position.ts:1508-1762 | a whole series of events, on either venue, goes through the steps that its inputs say, keeps the lower bound if none takes more than our share and the upper one if none takes less |
| `Executors.Executor.FollowEvent` | src/executor/dammv2-position.ts:1108-1312 | one event on either venue is one step of the mirroring run |
| `Executors.Executor.FollowTargetBps` | src/executor/meteora-position.ts:1336-1373 | the requests of a whole series of events keep at least the target's remaining fraction and at most one basis point per event more |
| `TrendSpec.FloorIsDivision` | src/dashboard/asset-trend.ts:94-100 | the bucket start is floor(ts / size) * size |
| `TrendSpec.NewDayIsNewHour` | src/dashboard/asset-trend.ts:574-599 | a snapshot that opens a new day opens a new hour |
| `TrendSpec.BatchIsUnique` | scripts/migrate-json-to-pg.ts:237-242 | "last snapshot per bucket, by bucket" has one answer |
| `TrendSpec.ClosedAndOpenAreTheBatch` | scripts/migrate-json-to-pg.ts:237-242 | on an ordered history, closed buckets plus the open one are the batch |
| `TrendSpec.TrimComposes` | src/dashboard/asset-trend.ts:482-494 | trimming on the way gives the same rows as one later, tighter trim |
| `AssetTrendCollector.ClosingSnapshotIsLast` | src/dashboard/asset-trend.ts:576-596 | the last row in the span of a closed hour or day is the snapshot that closed it |
| `AssetTrendCollector.ClosingRow` | src/dashboard/asset-trend.ts:575-585 | the promoted row is in the tier and in the span the tracker left, and no later row is; none only if the tracker was unset, has not moved, or the span is empty |
| `AssetTrendCollector.AssetTrend.AggregateTiers` | src/dashboard/asset-trend.ts:569-602 | promotes exactly the previous snapshot, to hourly when an hour closed and also to daily when a day closed |
| `AssetTrendCollector.AssetTrend.PromoteHour` | src/dashboard/asset-trend.ts:574-586 | hourly grows by the previous snapshot iff it closed an hour after the epoch |
| `AssetTrendCollector.AssetTrend.PromoteDay` | src/dashboard/asset-trend.ts:588-599 | daily grows by the previous snapshot iff it closed a day after the epoch |
| `AssetTrendCollector.AssetTrend.EnforceRetention` | src/dashboard/asset-trend.ts:482-494 | time window, then count cap, on raw and hourly |
| `AssetTrendCollector.AssetTrend.CommitSnapshot` | src/dashboard/asset-trend.ts:474-494 | keeps all three tiers equal to the batch definitions of the whole history |
| `BucketBatch.BucketBy` | scripts/migrate-json-to-pg.ts:238-242 | the map loop returns the last snapshot of every bucket in bucket order, for any source order |
| `BucketBatch.PromotedIsBatchMinusOpen` | src/dashboard/asset-trend.ts:569-602 | the promoted rows are the batch minus the open bucket and the bucket at the epoch |
| `BucketBatch.RunCollector` | src/dashboard/asset-trend.ts:474-494 | after any well-timed run: raw and hourly are one final trim, daily is every closed day |
| `BucketBatch.RetentionInNumbers` | src/dashboard/asset-trend.ts:483-494 | raw keeps exactly the rows of the last 48 hours among the last 576, hourly those of the last 30 days among the last 720 |
| `BucketBatch.CollectorAgreesWithImport` | scripts/migrate-json-to-pg.ts:256-269 | the collector's tiers and `bucketBy` on the whole history agree |
| `Framing.Header` | signer/index.ts:294-295 | the length as four bytes, the most significant first, and it reads back |
| `Framing.HelloOnTheWire` | signer/index.ts:282-297 | 00 00 00 05 and five bytes are the frame of the five bytes, and one event with them emits just those |
| `Framing.DecodeInvertsEncode` | signer-rs/e2e/client.ts:35-41 | decoding any frames followed by any bytes gives the frames and the decoding of the rest |
| `Framing.SignerConnection.OnData` | signer/index.ts:275-297 | one data event emits the first complete frame of all pending bytes, if any, and only that one, said of the bytes themselves |
| `Framing.BytesAreConserved` | signer/index.ts:275-297 | for every chunking, emitted frames re-encoded ++ pending header ++ buffer is everything received |
| `Framing.EmittedIsPrefix` | signer/index.ts:275-297 | the full decoder yields what was emitted, then what it finds in the pending bytes |
| `Framing.KeepsUpExactly` | signer/index.ts:282-297 | the handler has emitted all complete frames after every event iff no event completes two |
| `Framing.TwoFramesInOneEvent` | signer/index.ts:282-297 | two frames in one event: only the first is emitted, the second stays pending, for any two payloads |
| `Framing.SingleFrameServed` | signer/index.ts:275-297 | a single frame cut in any way is emitted whole and leaves nothing behind |
| `Framing.ServeStream` | signer/index.ts:275-297 | a run of the handler over a stream of events is the specified run |
| `Framing.ReplyReader.OnData` | signer-rs/e2e/client.ts:43-65 | resolves with the first frame of everything received, as soon as it is complete |
| `Framing.ReadReply` | signer-rs/e2e/client.ts:43-65 | however the stream is cut, the reply is its first frame |
| `Framing.Exchange` | signer-rs/e2e/client.ts:33-65 | request and response, framed and cut arbitrarily, both arrive whole |
| `PolicySpec.VerdictIsUnique` | signer/policy.ts:84-220 | a transaction has one verdict, reason included |
| `PolicySpec.AllowedExactly` | signer/policy.ts:84-220 | allowed iff programs are allowlisted, no SetAuthority, every present transfer destination justified, simulated programs allowlisted unless Jupiter is present or logs are missing |
| `PolicySpec.AcceptableExactly` | signer/policy.ts:84-220 | the same in raw fields: which byte and which account are judged, the four justifications, and nothing else |
| `PolicySpec.ObjectionExactly` | signer/policy.ts:106-172 | an instruction is objected to as a transfer to `d` iff it is a Transfer with `d` second or a TransferChecked with `d` third that may not go there, and as SetAuthority iff its first byte is 6 |
| `PolicySpec.AcceptanceIsMonotone` | signer/policy.ts:84-281 | larger lists never reject what was accepted |
| `PolicySpec.ApproveIsNeverRejected` | signer/policy.ts:130-135 | no check objects to an Approve |
| `PolicySpec.InvocationIsRecognised` | signer/policy.ts:319-328 | the log line of an invocation yields its program |
| `PolicySpec.InvokedProgramExactly` | signer/policy.ts:319-328 | the program found in a log line is that of the leftmost match of the pattern, and there is none iff nothing matches |
| `Policy.ResolutionKeepsFields` | signer/alt-resolver.ts:58-68 | a resolved key is present iff its index is in range, and is then that key; data is untouched |
| `Policy.FirstSeenKeepsFirst` | signer/alt-resolver.ts:58-68 | first-seen dedup keeps the first key that is not allowed |
| `Policy.ExtractProgramIds` | signer/alt-resolver.ts:58-68 | the program set in first-seen order, skipping unresolved indexes |
| `Policy.ExtractInvokedPrograms` | signer/policy.ts:319-331 | the matched programs of the logs in first-seen order |
| `Policy.IsAtaForWhitelistedOwner` | signer/policy.ts:283-313 | true iff some whitelisted owner's associated account is the destination |
| `Policy.CheckTransferDestination` | signer/policy.ts:231-281 | allowed iff the destination is justified |
| `Policy.CheckSimulation` | signer/policy.ts:199-211 | rejects with the first unknown invoked program, unless skipped |
| `Policy.InstructionChecksV0` | signer/policy.ts:106-143 | the first objection among the compiled instructions |
| `Policy.InstructionChecksLegacy` | signer/policy.ts:144-172 | the first objection among the parsed instructions |
| `Policy.CheckVersioned` | signer/policy.ts:45-220 | the v0 pipeline returns the declarative verdict of its resolved instructions, or the resolution failure |
| `Policy.CheckLegacy` | signer/policy.ts:45-220 | the legacy pipeline returns the declarative verdict of its instructions |
| `Policy.CompiledResolvesToParsed` | signer/policy.ts:79-82 | in-range compiled instructions resolve to the parsed ones they name |
| `Policy.PipelinesAgree` | signer/policy.ts:79-172 | same instructions, same verdict and same reason on both pipelines |
| `WalletList.ParseTargetWallets` | src/config.ts:60-77 | the imperative pipeline is the parse function, invalid keys included |
| `WalletList.WrittenSettingParses` | src/config.ts:60-77 | a setting as written, with white space anywhere and empty items, parses to its addresses in order with the last positive ratio of each, or to an error iff some address is no key |
| `WalletList.LeadingColonIsNoRatio` | src/config.ts:67-74 | an item that begins with its only colon is taken whole as an address |
| `WalletList.PrintedAsPieces` | src/dashboard/server.ts:1567-1576 | what is printed is bare addresses and `address:ratio` items |
| `WalletList.SplitJoin` | src/config.ts:62-65 | splitting a joined list gives the list back |
| `WalletList.PrintParseRoundTrip` | src/dashboard/server.ts:1567-1576 | printing and parsing returns the wallets in order and exactly the positive ratios of listed wallets |
| `WalletList.ReprintedSettingIsStable` | src/config.ts:60-77 | any accepted setting is unchanged by printing it back |
| `BinRange.BinIdToArrayIdx` | src/executor/meteora-position.ts:749-753 | floor division by 512, for negative bins too |
| `BinRange.BinArrayIndexes` | src/executor/meteora-position.ts:754-759 | exactly the arrays that hold a bin of the range, ascending |
| `BinRange.PlanExtensions` | src/executor/meteora-position.ts:771-800 | each extend adds 1..91 bins, the last ends at the upper bin, after ceil((binCount - 70) / 91) extends |
| `BonusClaim.ClaimCopyBonus` | src/executor/auto-claim.ts:193-360 | said of the replies: the run stops at the first reply that does not complete; the entry holds the sums and all signatures, in order, of those before it, and exactly the error the stopping reply means |
| `BonusClaim.NothingClaimedTwice` | src/executor/auto-claim.ts:284-345 | no reward key and no non-empty order code is in two completed rounds; totals are the sums over them |
| `BonusClaim.KeysExactly` | src/executor/auto-claim.ts:285-288 | a reward is named by the non-empty code of its item, or by the pool of an item without one |
| `BonusClaim.LoopTerminates` | src/executor/auto-claim.ts:205-360 | if every batch has an order code or a key, from finite sets, the unbounded loop ends within one round more than there are codes and keys |
| `BonusClaim.RepeatedOfferStopsIffIdentifiable` | src/executor/auto-claim.ts:284-295 | a batch offered for ever is stopped after one order iff it carries an order code or a key |
| `SignatureDedup.WindowIsLastThousand` | src/index.ts:260-268 | the set is the last 1000 admitted signatures iff no empty signature has aged out |
| `SignatureDedup.WindowAfter` | src/index.ts:264-268 | one admission adds the signature and evicts the oldest one, unless that is empty |
| `SignatureDedup.AdmittedExactly` | src/index.ts:260-268 | the next signature is admitted iff it is not among the last 1000 admitted, as long as no empty one has aged out |
| `SignatureDedup.EverySignatureIsAdmitted` | src/index.ts:260-264 | a signature is admitted at least once iff it occurs |
| `SignatureDedup.DistinctStreamIsAdmittedWhole` | src/index.ts:260-264 | a stream without duplicates is admitted whole and in order |
| `SignatureDedup.ReadmissionNeedsAThousandOthers` | src/index.ts:260-268 | between two admissions of a signature at least 1000 others were admitted, in any stream |
| `SignatureDedup.Dedup.OnSignature` | src/index.ts:259-268 | admits iff the set does not hold the signature; the set grows by it and loses its oldest beyond 1000 unless that is empty |
| `Drawdown.ReachedIsBreach` | src/index.ts:421-423 | a positive baseline is breached iff 100 times the value is at most (100 - threshold) times the baseline |
| `Drawdown.PausedExactly` | src/index.ts:419-463 | paused iff two checked snapshots breach with only unchecked ones between them |
| `Drawdown.ConstantThreshold` | src/index.ts:419-463 | with the protection always on: iff two neighbouring snapshots breach |
| `Drawdown.RiskGuard.OnSnapshot` | src/index.ts:413-463 | the pause is set iff two adjacent enabled post-baseline snapshots reached the threshold, on every executor alike, and never cleared |
| `Drawdown.RunGuard` | src/index.ts:413-463 | the same over a whole run, with a threshold that may change at every snapshot |

## Left out

- Executors.Executor.FollowTarget: our position is changed by the modelled calls only; deposits, manual withdrawals and closes between the events are not part of a run.
- Executors.Executor.CopyRemoveLiquidity: resending one signed transaction inside `signAndSend` counts as one send, since the chain accepts a signature once.
- AssetTrendCollector.AssetTrend.CommitSnapshot: requires snapshots and commit times that never go back and a commit within 48 hours of the snapshot, which is how the collector stamps them; clock jumps are not covered.
- WalletList.PrintParseRoundTrip: assumes of each listed ratio that its printed text parses back and contains no comma, colon or white space, and that `toBase58` undoes the key constructor.
- Drawdown.RiskGuard.OnSnapshot: uses exact reals; floating-point rounding of the percentage is not modelled.
- Operation bodies: opaque and terminating, with no `executeNow` nested in a queued item; `lastCompletedAt` and the status snapshot are plain reads and writes.
- What the DLMM program does with the requested basis points, and every other SDK call, RPC read, swap, retry delay and transaction build.
- `loadTrend`, SQL pruning, write chains and the `newest` sort of the import script: a reload starts a different run.
- ALT resolution beyond its result, program-address derivation and account reads: functions of the environment.
- Encryption, signing, JSON, sockets, timeouts, dashboards, notifications, metrics: plumbing.
- Floating-point valuation, concentration limits and the event switch of `src/index.ts`: each case is settled by reading one branch.
